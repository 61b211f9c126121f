/** The database object: one writer, one open transaction, commit or roll back. */
module Ametsuchi {
  import opened LedgerLaws
  import opened LedgerSpec
  import opened MerkleSpec
  import opened World
  import opened WsvEffects
  import opened WsvSpec
  import MT = MerkleTree
  import TS = TxStore
  import W = Wsv

  /** The committed tables. */
  datatype Database<T> = Database(
    records: map<nat, Tx<T>>,
    merkleTable: map<nat, T>,
    assets: map<string, Asset>,
    accounts: map<string, string>,
    holdings: map<string, seq<Asset>>)

  /** The database db holds the tables t, and the leaves of t do not fill a block. */
  ghost predicate Stores<T>(db: Database<T>, leafs: nat, t: Tables<T>) {
    && leafs >= 1 && |t.saved| < leafs && db.merkleTable == TS.SavedTable(leafs - 1, t.saved)
    && db.records == t.records && db.assets == t.assets && db.accounts == t.accounts && db.holdings == t.holdings
  }

  class Ametsuchi<T> {
    const txStore: TS.TxStore<T>
    const wsv: W.WSV
    var disk: Database<T>

    ghost var tables: Tables<T>   // what disk holds
    ghost var committed: nat      // the number of committed records

    ghost predicate Valid()
      reads this, wsv, txStore, txStore.merkleTree, txStore.merkleTree.Trees()
    {
      && txStore.Valid() && Stores(disk, txStore.merkleTree.leafCount, tables)
      && Mirrors(Abstract(), committed)
    }

    ghost function Abstract(): Ledger<T>
      requires txStore.Valid()
      reads this, wsv, txStore, txStore.merkleTree, txStore.merkleTree.Trees()
    {
      Ledger(Tables(txStore.records, txStore.saved, wsv.assets, wsv.accounts, wsv.holdings),
             tables, txStore.total, wsv.created, txStore.Leaves())
    }

    /** Opens a database: starts a transaction on the committed tables, reads the mirrors, and rebuilds
        the Merkle tree from the saved leaves. A new database has empty tables. */
    constructor (hash: (T, T) -> T, zero: T, leafs: nat, disk: Database<T>, ghost tables: Tables<T>, ghost n: nat)
      requires leafs >= 2 && MT.IsPowerOfTwo(leafs) && Stores(disk, leafs, tables) && Numbered(disk.records, n)
      ensures Valid() && committed == n && fresh(txStore) && fresh(wsv) && fresh(txStore.Footprint())
      ensures txStore.merkleTree.hash == hash && txStore.merkleTree.leafCount == leafs
      ensures txStore.merkleTree.zero == zero
      ensures Abstract() == Ledger(tables, tables, n, tables.assets, tables.saved)
    {
      txStore := new TS.TxStore<T>(hash, zero, leafs, disk.records, disk.merkleTable, tables.saved, n);
      wsv := new W.WSV(disk.assets, disk.accounts, disk.holdings);
      this.disk, this.tables, committed := disk, tables, n;
      new;
      txStore.InitMerkleTree();
    }

    method Append(tx: Tx<T>) returns (out: Outcome, root: T)
      requires Valid()
      modifies wsv, txStore, txStore.merkleTree, txStore.merkleTree.Trees()
      ensures Valid() && fresh(txStore.merkleTree.Trees() - old(txStore.merkleTree.Trees()))
      ensures (Abstract(), out) == AppendTx(txStore.merkleTree.hash, txStore.merkleTree.leafCount, old(Abstract()), tx)
      ensures out == if tx.command.Wrong? then Failed(WrongCommand) else old(Verdict(WorldOf(Abstract()), tx.command))
      ensures out == Done ==> txStore.Leaves() != [] && root == Root(txStore.merkleTree.hash, txStore.Leaves())
    {
      hide TS.TxStore.Valid, Apply, Verdict;
      AppendEffect(txStore.merkleTree.hash, txStore.merkleTree.leafCount, Abstract(), tx);
      AppendKeepsMirrors(txStore.merkleTree.hash, txStore.merkleTree.leafCount, Abstract(), committed, tx);
      out, root := txStore.Append(tx);
      if out == Done {
        out := wsv.Update(tx.command);
      }
    }

    /** Appends one transaction after the other; what throws ends the batch, and what was appended stays. */
    method AppendBatch(txs: seq<Tx<T>>) returns (out: Outcome, root: T)
      requires Valid()
      modifies wsv, txStore, txStore.merkleTree, txStore.merkleTree.Trees()
      ensures Valid() && fresh(txStore.merkleTree.Trees() - old(txStore.merkleTree.Trees()))
      ensures (Abstract(), out) ==
              LedgerSpec.AppendBatch(txStore.merkleTree.hash, txStore.merkleTree.leafCount, old(Abstract()), txs)
      ensures out == Done && Abstract().leaves == [] ==> root == txStore.merkleTree.zero
      ensures out == Done && Abstract().leaves != [] ==> root == Root(txStore.merkleTree.hash, Abstract().leaves)
    {
      hide TS.TxStore.Valid, TS.TxStore.Leaves, Root, AppendTx, Mirrors, Stores;
      ghost var hash, leafs := txStore.merkleTree.hash, txStore.merkleTree.leafCount;
      assert txs[0..] == txs;
      for i := 0 to |txs|
        invariant Valid()
        invariant fresh(txStore.merkleTree.Trees() - old(txStore.merkleTree.Trees()))
        invariant LedgerSpec.AppendBatch(hash, leafs, Abstract(), txs[i..])
               == LedgerSpec.AppendBatch(hash, leafs, old(Abstract()), txs)
      {
        assert txs[i..][1..] == txs[i + 1..];
        out, root := Append(txs[i]);
        if out.Failed? {
          return;
        }
      }
      out := Done;
      root := txStore.MerkleRoot();
    }

    method Commit()
      requires Valid()
      modifies this, txStore, wsv
      ensures Valid() && Abstract() == CommitTables(old(Abstract())) && committed == old(txStore.total)
    {
      txStore.Commit();
      committed := txStore.total;
      disk := Database(txStore.records, txStore.merkleTable, wsv.assets, wsv.accounts, wsv.holdings);
      tables := Tables(txStore.records, txStore.saved, wsv.assets, wsv.accounts, wsv.holdings);
      InitAppendTx();
    }

    method Rollback()
      requires Valid()
      modifies txStore, wsv
      ensures Valid() && Abstract() == RollbackTables(old(Abstract()), committed)
    {
      InitAppendTx();
    }

    /** A new transaction sees the committed tables; the mirrors are read from them again. */
    method InitAppendTx()
      requires txStore.Valid() && Stores(disk, txStore.merkleTree.leafCount, tables) && Numbered(disk.records,
            committed)
      modifies txStore, wsv
      ensures Valid() && Abstract() == Ledger(tables, tables, committed, tables.assets, old(txStore.Leaves()))
    {
      txStore.Init(disk.records, disk.merkleTable, tables.saved, committed);
      wsv.Init(disk.assets, disk.accounts, disk.holdings);
    }
  }

  /** Closing a database and opening it again: the open transaction is aborted, and a new object is
      built from the committed tables. */
  method Reopen<T>(a: Ametsuchi<T>) returns (b: Ametsuchi<T>)
    requires a.Valid()
    ensures b.Valid() && b.committed == a.committed
    ensures fresh(b) && fresh(b.txStore) && fresh(b.wsv) && fresh(b.txStore.Footprint())
    ensures b.txStore.merkleTree.hash == a.txStore.merkleTree.hash
    ensures b.txStore.merkleTree.zero == a.txStore.merkleTree.zero
    ensures b.txStore.merkleTree.leafCount == a.txStore.merkleTree.leafCount
    ensures b.Abstract() == ReopenTables(a.Abstract(), a.committed)
  {
    var tree := a.txStore.merkleTree;
    b := new Ametsuchi<T>(tree.hash, tree.zero, tree.leafCount, a.disk, a.tables, a.committed);
  }

  /** The new object shows what the old one shows, although it has built its tree from the saved
      leaves alone. */
  method CommitReopen<T>(a: Ametsuchi<T>) returns (b: Ametsuchi<T>)
    requires a.Valid()
    modifies a, a.txStore, a.wsv
    ensures a.Valid() && b.Valid() && fresh(b) && fresh(b.txStore) && fresh(b.wsv) && fresh(b.txStore.Footprint())
    ensures a.txStore.merkleTree.Trees() == old(a.txStore.merkleTree.Trees())
    ensures b.txStore.merkleTree.hash == a.txStore.merkleTree.hash
    ensures b.txStore.merkleTree.zero == a.txStore.merkleTree.zero
    ensures b.txStore.merkleTree.leafCount == a.txStore.merkleTree.leafCount
    ensures a.Abstract() == CommitTables(old(a.Abstract())) == b.Abstract()
  {
    hide Stores;
    a.Commit();
    b := Reopen(a);
  }

  /** A database that is committed and opened again goes on as the old object would have: every batch
      has the same outcome, the same tables and the same Merkle root in both. */
  method CommitReopenAppend<T>(a: Ametsuchi<T>, txs: seq<Tx<T>>)
    returns (b: Ametsuchi<T>, outA: Outcome, outB: Outcome, rootA: T, rootB: T)
    requires a.Valid()
    modifies a, a.wsv, a.txStore, a.txStore.merkleTree, a.txStore.merkleTree.Trees()
    ensures a.Valid() && b.Valid() && a.Abstract() == b.Abstract()
    ensures outA == outB && (outA == Done ==> rootA == rootB)
    ensures (a.Abstract(), outA) == LedgerSpec.AppendBatch(a.txStore.merkleTree.hash,
          a.txStore.merkleTree.leafCount, CommitTables(old(a.Abstract())), txs)
  {
    hide LedgerSpec.AppendBatch, CommitTables, Ametsuchi.Valid, Ametsuchi.Abstract;
    b := CommitReopen(a);
    outB, rootB := b.AppendBatch(txs);
    outA, rootA := a.AppendBatch(txs);
  }
}
