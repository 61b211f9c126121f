/** The transaction store: numbered records, the saved leaves of the last Merkle block, and the tree. */
module TxStore {
  import opened ChainSpec
  import opened LedgerSpec
  import opened MerkleSpec
  import opened WsvSpec
  import MT = MerkleTree

  /** The leaf that belongs under key k when the keys start at `begin`. */
  function LeafAt<T>(s: seq<T>, begin: nat, k: nat): T
    requires begin <= k < begin + |s|
  {
    s[k - begin]
  }

  /** The table that `commit` writes: each leaf under its array index. */
  function SavedTable<T>(begin: nat, s: seq<T>): map<nat, T>
  {
    map k: nat | begin <= k < begin + |s| :: LeafAt(s, begin, k)
  }

  class TxStore<T> {
    var records: map<nat, Tx<T>>
    var merkleTable: map<nat, T>
    var total: nat
    const merkleTree: MT.MerkleTree<T>

    ghost var saved: seq<T>     // the leaves in the table merkleTable

    ghost function Footprint(): set<object>
      reads this, merkleTree
    {
      {this, merkleTree} + merkleTree.Trees()
    }

    ghost predicate Valid()
      reads this, merkleTree, merkleTree.Trees()
      ensures Valid() ==> merkleTree.leafCount >= 2 && merkleTree.Valid()
    {
      merkleTree.Valid() && merkleTable == SavedTable(merkleTree.leafCount - 1, saved) && |saved| < merkleTree.leafCount
    }

    ghost function Leaves(): seq<T>
      requires Valid()
      reads this, merkleTree, merkleTree.Trees()
    {
      Last(merkleTree.blocks)
    }

    /** A store over the given tables with a new, empty tree of one kept block. */
    constructor (hash: (T, T) -> T, zero: T, leafs: nat, records: map<nat, Tx<T>>, table: map<nat, T>,
          ghost leaves: seq<T>, ghost n: nat)
      requires leafs >= 2 && MT.IsPowerOfTwo(leafs) && Numbered(records, n)
      requires |leaves| < leafs && table == SavedTable(leafs - 1, leaves)
      ensures Valid() && fresh(Footprint() - {this})
      ensures merkleTree.hash == hash && merkleTree.leafCount == leafs && merkleTree.zero == zero
      ensures this.records == records && saved == leaves && total == n && Leaves() == []
    {
      MT.RoundingMisses(leafs);
      merkleTree := new MT.MerkleTree<T>(hash, zero, leafs, 1);
      this.records, merkleTable, saved := records, table, leaves;
      total := 0;
      new;
      SetTxTotal(n);
    }

    /** `init` on a new database transaction: other tables, the same tree. */
    method Init(records: map<nat, Tx<T>>, table: map<nat, T>, ghost leaves: seq<T>, ghost n: nat)
      requires Valid() && Numbered(records, n)
      requires |leaves| < merkleTree.leafCount && table == SavedTable(merkleTree.leafCount - 1, leaves)
      modifies this
      ensures Valid() && Leaves() == old(Leaves())
      ensures this.records == records && saved == leaves && total == n
    {
      this.records, merkleTable, saved := records, table, leaves;
      SetTxTotal(n);
    }

    /** The key of the last record, 0 when there is none. */
    method SetTxTotal(ghost n: nat)
      requires Numbered(records, n)
      modifies this`total
      ensures total == n
    {
      LastOfNumbered(records, n, n);
      if records == map[] {
        total := 0;
      } else {
        var k: nat :| k in records && forall j :: j in records ==> j <= k;
        total := k;
      }
    }

    /** Returns the new Merkle root, or fails after the record is stored. */
    method Append(tx: Tx<T>) returns (out: Outcome, root: T)
      requires Valid() && Numbered(records, total)
      modifies this, merkleTree, merkleTree.Trees()
      ensures Valid() && Numbered(records, total) && saved == old(saved)
      ensures fresh(merkleTree.Trees() - old(merkleTree.Trees()))
      ensures total == old(total) + 1 && records == old(records)[total := tx]
      ensures if tx.command.Wrong? then out == Failed(WrongCommand) && Leaves() == old(Leaves())
              else out == Done && Leaves() == NextLeaves(merkleTree.hash, merkleTree.leafCount, old(Leaves()), tx.hash)
                   && Leaves() != [] && root == Root(merkleTree.hash, Leaves())
    {
      hide Root, SavedTable, NextLeaves;
      total := total + 1;
      records := records[total := tx];
      if tx.command.Wrong? {
        return Failed(WrongCommand), merkleTree.zero;
      }
      root := PushHash(tx.hash);
      out := Done;
    }

    /** The last part of `append`: pushes the leaf and answers the new root. */
    method PushHash(h: T) returns (root: T)
      requires Valid()
      modifies merkleTree, merkleTree.Trees()
      ensures Valid() && fresh(merkleTree.Trees() - old(merkleTree.Trees()))
      ensures Leaves() == NextLeaves(merkleTree.hash, merkleTree.leafCount, old(Leaves()), h)
      ensures Leaves() != [] && root == Root(merkleTree.hash, Leaves())
    {
      hide PushBlocks, Root, SavedTable;
      PushStepsLeaves(merkleTree.hash, merkleTree.leafCount, merkleTree.maxBlocks, merkleTree.blocks, h);
      merkleTree.Push(h);
      root := merkleTree.GetRoot();
    }

    method MerkleRoot() returns (root: T)
      requires Valid()
      ensures root == if Leaves() == [] then merkleTree.zero else Root(merkleTree.hash, Leaves())
    {
      root := merkleTree.GetRoot();
    }

    /** Replaces the saved leaves by those of the block being filled. */
    method Commit()
      requires Valid()
      modifies this`merkleTable, this`saved
      ensures Valid() && saved == Leaves() && Leaves() == old(Leaves())
    {
      hide SavedTable;
      var lastBlock, begin, end := merkleTree.LastBlock();
      merkleTable := SaveCells(lastBlock, begin, end);
      saved := lastBlock[begin..end];
    }

    /** The loop of `commit`: each leaf cell is put under its index into the emptied table. */
    method SaveCells(lastBlock: seq<T>, begin: nat, end: nat) returns (table: map<nat, T>)
      requires begin <= end <= |lastBlock|
      ensures table == SavedTable(begin, lastBlock[begin..end])
    {
      table := map[];
      var i := begin;
      while i < end
        invariant begin <= i <= end
        invariant table == map k: nat | begin <= k < i :: lastBlock[k]
      {
        table := table[i := lastBlock[i]];
        i := i + 1;
      }
    }

    /** One turn of `init_merkle_tree`: the leaf lands in the cell it was saved from, which is what the
        source asserts. */
    method PushSaved(key: nat, ghost i: nat)
      requires Valid() && i < |saved| && key == merkleTree.leafCount - 1 + i && Leaves() == saved[..i]
      modifies merkleTree, merkleTree.Trees()
      ensures Valid() && Leaves() == saved[..i + 1]
      ensures fresh(merkleTree.Trees() - old(merkleTree.Trees()))
    {
      assert merkleTable[key] == LeafAt(saved, merkleTree.leafCount - 1, key);
      assert saved[..i] + [saved[i]] == saved[..i + 1];
      PushStepsLeaves(merkleTree.hash, merkleTree.leafCount, merkleTree.maxBlocks, merkleTree.blocks, saved[i]);
      merkleTree.Push(merkleTable[key]);
      var tree, begin, end := merkleTree.LastBlock();
      assert end - 1 == key;
    }

    /** Pushes the saved leaves, in key order, into the new tree. No block is ever filled. */
    method InitMerkleTree()
      requires Valid() && Leaves() == []
      modifies merkleTree, merkleTree.Trees()
      ensures Valid() && Leaves() == saved
      ensures fresh(merkleTree.Trees() - old(merkleTree.Trees()))
    {
      ghost var begin := merkleTree.leafCount - 1;
      var keys := merkleTable.Keys;
      ghost var i := 0;
      assert saved[..0] == [];
      while keys != {}
        invariant Valid() && i <= |saved|
        invariant forall k: nat :: k in keys <==> begin + i <= k < begin + |saved|
        invariant Leaves() == saved[..i]
        invariant fresh(merkleTree.Trees() - old(merkleTree.Trees()))
        decreases keys
      {
        LeastKey(keys, begin + i, begin + |saved|);
        var key: nat :| key in keys && forall j :: j in keys ==> key <= j;
        PushSaved(key, i);
        keys := keys - {key};
        i := i + 1;
      }
      assert i == |saved| by {
        assert begin + i !in keys;
      }
      assert saved[..i] == saved;
    }
  }

  lemma LeastKey(keys: set<nat>, low: nat, high: nat)
    requires keys != {} && forall k: nat :: k in keys <==> low <= k < high
    ensures low in keys && forall j :: j in keys ==> low <= j
  {
    var k :| k in keys;
  }
}
