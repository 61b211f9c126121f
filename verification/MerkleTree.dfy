/** The array Merkle tree: perfect binary trees in flat arrays, filled leaf by leaf. */
module MerkleTree {
  import opened Arith
  import opened MerkleSpec
  import opened MerkleCells
  import opened MerkleClimb
  import opened ChainSpec
  import opened Wrappers
  import Runs = MerkleRuns

  ghost predicate IsPowerOfTwo(x: nat) {
    exists k: nat :: x == Pow(2, k)
  }

  /** floor(log2(x)); the loop answers 0 for x == 0. */
  method Log2(x: nat) returns (y: nat)
    ensures x == 0 ==> y == 0
    ensures x > 0 ==> y == FloorLog2(x)
  {
    var rest := x;
    y := 0;
    while rest > 1
      invariant x == 0 ==> y == 0 && rest == 0
      invariant x > 0 ==> rest > 0 && FloorLog2(x) == y + FloorLog2(rest)
    {
      rest := rest / 2;
      y := y + 1;
    }
  }

  lemma {:induction false} PowerOfTwoParity(k: nat)
    ensures Pow(2, k) % 2 == 1 <==> k == 0
  {
    if k > 0 {
      assert Pow(2, k) == 2 * Pow(2, k - 1);
    }
  }

  lemma PowersAreDistinct(x: nat, k: nat)
    requires x >= 1 && x == Pow(2, k)
    ensures k == FloorLog2(x)
  {
    var y := FloorLog2(x);
    if k < y {
      PowIncreasing(2, k, y);
    } else if y < k {
      PowMonotone(2, y + 1, k);
    }
  }

  lemma RoundingMisses(x: nat)
    requires x >= 1
    ensures IsPowerOfTwo(x) <==> x == Pow(2, FloorLog2(x))
    ensures x != Pow(2, FloorLog2(x)) ==>
              (Pow(2, FloorLog2(x)) + 1) % 2 == 1 && !IsPowerOfTwo(Pow(2, FloorLog2(x)) + 1)
  {
    var y := FloorLog2(x);
    if IsPowerOfTwo(x) {
      var k: nat :| x == Pow(2, k);
      PowersAreDistinct(x, k);
    }
    if x != Pow(2, y) {
      assert y != 0;
      PowerOfTwoParity(y);
      if IsPowerOfTwo(Pow(2, y) + 1) {
        var k: nat :| Pow(2, y) + 1 == Pow(2, k);
        PowerOfTwoParity(k);
        assert false;
      }
    }
  }

  /** What rounding to a power of two comes to. */
  function Rounded(x: nat): nat {
    if x == 0 then 2
    else
      var l := Pow(2, FloorLog2(x));
      if l == x then l else l + 1
  }

  /** Meant to round up to a power of two. The result is a power of two exactly when the argument is one
      or is 0; for every other argument it is odd. It is not even an upper bound, except for those and
      for the successors of powers of two. */
  method Ceil2(x: nat) returns (r: nat)
    ensures r == Rounded(x)
    ensures IsPowerOfTwo(r) <==> x == 0 || IsPowerOfTwo(x)
    ensures x > 0 && IsPowerOfTwo(x) ==> r == x
    ensures x == 0 ==> r == 2
    ensures !IsPowerOfTwo(r) ==> r % 2 == 1 && IsPowerOfTwo(r - 1) && r - 1 < x < 2 * (r - 1)
  {
    var y := Log2(x);
    var l := Pow(2, y);
    r := if l == x then l else l + 1;
    if x == 0 {
      assert r == Pow(2, 1);
    } else {
      RoundingMisses(x);
    }
  }

  lemma RoundsUpOnlyIf(x: nat)
    ensures x <= Rounded(x) <==> x == 0 || IsPowerOfTwo(x) || IsPowerOfTwo(x - 1)
  {
    if x > 0 {
      RoundingMisses(x);
      if IsPowerOfTwo(x - 1) {
        var k: nat :| x - 1 == Pow(2, k);
        PowersAreDistinct(x - 1, k);
        if k > 0 {
          assert Pow(2, k + 1) == 2 * Pow(2, k) >= x;
          NextHasSameLog(x - 1, k);
        }
      }
    }
  }

  lemma NextHasSameLog(x: nat, k: nat)
    requires k >= 1 && x == Pow(2, k)
    ensures FloorLog2(x + 1) == k
  {
    var y := FloorLog2(x + 1);
    assert Pow(2, k + 1) == 2 * x && x >= 2 by {
      assert Pow(2, k) == 2 * Pow(2, k - 1);
    }
    if y < k {
      PowMonotone(2, y + 1, k);
    } else if k < y {
      PowMonotone(2, k + 1, y);
    }
  }

  /** The comment's example, 5, is answered by 5, and so is 7. */
  lemma FiveAndSevenRoundToFive()
    ensures Rounded(5) == 5 && Rounded(7) == 5 && !IsPowerOfTwo(5)
  {
    assert Pow(2, 1) == 2 && Pow(2, 2) == 4 && Pow(2, 3) == 8;
    assert FloorLog2(5) == 2 && FloorLog2(7) == 2;
    RoundingMisses(5);
  }

  /** Cutting one leaf more and pushing it again fills no block and gives up none. */
  lemma Repushed<T>(hash: (T, T) -> T, leafs: nat, maxBlocks: nat, bs: seq<seq<T>>, k: nat, m: nat)
    requires 1 <= k <= |bs| && 1 <= m <= |bs[k - 1]| && m < leafs
    ensures PushBlocks(hash, leafs, maxBlocks, Cut(bs, k, m - 1), bs[k - 1][m - 1]) == Cut(bs, k, m)
  {
    assert bs[k - 1][..m - 1] + [bs[k - 1][m - 1]] == bs[k - 1][..m];
  }

  class MerkleTree<T> {
    const hash: (T, T) -> T
    const leafCount: nat
    const size: nat
    const maxBlocks: nat
    const zero: T             // the value of a fresh cell
    ghost const height: nat   // leafCount == 2^height

    var trees: seq<array<T>>
    var nextLeaf: nat         // the next free leaf cell
    var rootCell: nat         // the cell of the root

    ghost var blocks: seq<seq<T>>   // the leaves of the kept trees

    ghost function Trees(): set<object>
      reads this
    {
      set t | t in trees
    }

    /** The trees hold the first kept blocks. Cells that are not settled may hold anything. */
    ghost predicate Holding()
      reads this, trees
    {
      && height >= 1 && leafCount == Pow(2, height) && leafCount >= 2
      && size == 2 * leafCount - 1 && maxBlocks >= 1
      && Shape(leafCount, blocks)
      && 1 <= |trees| <= |blocks|
      && (forall t, u :: 0 <= t < u < |trees| ==> trees[t] != trees[u])
      && (forall t :: 0 <= t < |trees| ==> Settled(hash, height, trees[t][..], blocks[t]))
    }

    ghost predicate Stored()
      reads this, trees
    {
      Holding() && |trees| == |blocks| && nextLeaf == leafCount - 1 + |Last(blocks)|
    }

    /** The root cell is the top of a correct path. */
    ghost predicate Rooted()
      requires Stored() && Last(blocks) != []
      reads this, trees
    {
      && PathTo(hash, height, Last(trees)[..], Last(blocks), RootLevel(|Last(blocks)|))
      && rootCell == Slot(height, RootLevel(|Last(blocks)|), 0)
    }

    /** Everything a push relies on: there is a free leaf. Nothing is said of the root. */
    ghost predicate Ready()
      reads this, trees
    {
      Stored() && |Last(blocks)| < leafCount && |blocks| <= maxBlocks + 1
    }

    ghost predicate Valid()
      reads this, trees
    {
      && Ready()
      && (if Last(blocks) == [] then
            rootCell == leafCount - 1 && |blocks| == 1 && Last(trees)[rootCell] == zero
          else
            Rooted())
    }

    /** Builds a tree for any leaf count; it is valid when the rounded count is a power of two and at
        least 2. */
    constructor (hash: (T, T) -> T, zero: T, leafs: nat, blocks: nat)
      requires blocks >= 1
      ensures leafCount == Rounded(leafs) && fresh(trees)
      ensures leafCount >= 2 && IsPowerOfTwo(leafCount) ==> Valid()
      ensures this.hash == hash && this.zero == zero && maxBlocks == blocks
      ensures this.blocks == [[]]
    {
      var l := Ceil2(leafs);
      ghost var h: nat := 0;
      if IsPowerOfTwo(l) {
        h :| l == Pow(2, h);
      }
      this.hash, this.zero, maxBlocks := hash, zero, blocks;
      leafCount, size, height := l, 2 * l - 1, h;
      var tree := new T[2 * l - 1](_ => zero);
      trees := [tree];
      nextLeaf, rootCell := l - 1, l - 1;
      this.blocks := [[]];
      new;
      if leafCount == Pow(2, height) {
        SettledEmpty(hash, height, trees[0][..]);
      }
    }

    /** The root of an empty tree is the value of a fresh cell. */
    method GetRoot() returns (r: T)
      requires Valid()
      ensures r == if Last(blocks) == [] then zero else Root(hash, Last(blocks))
    {
      if Last(blocks) != [] {
        RootCell(hash, height, Last(trees)[..], Last(blocks));
      }
      r := Last(trees)[rootCell];
    }

    /** The loop of `push`: rewrites the path from the new leaf to the common ancestor with the
        leftmost leaf. The leaf count may be any. */
    method Climb(tree: array<T>) returns (top: nat)
      requires tree.Length == 2 * leafCount - 1 && leafCount <= nextLeaf < tree.Length
      modifies tree
      ensures (tree[..], top) == Turns(hash, old(tree[..]), nextLeaf, TurnsFrom(leafCount, nextLeaf))
    {
      hide Pow;
      var np := Log2(nextLeaf - (leafCount - 1));
      np := 1 + np;
      var subtreeRoot := Parent(nextLeaf);
      var current := nextLeaf;
      top := current;
      assert np == TurnsFrom(leafCount, nextLeaf);
      for i := 0 to np
        invariant top == current < tree.Length && subtreeRoot == Parent(current)
        invariant Pow(2, np - i) <= current + 1
        invariant Turns(hash, tree[..], current, np - i) == Turns(hash, old(tree[..]), nextLeaf, np)
      {
        PowNext(2, np - i - 1);
        ghost var before := tree[..];
        var left := Left(subtreeRoot);
        var right := Right(subtreeRoot);
        if current == left {
          tree[subtreeRoot] := tree[left];
        } else {
          tree[subtreeRoot] := hash(tree[left], tree[right]);
        }
        assert tree[..] == Turn(hash, before, current);
        top := subtreeRoot;
        subtreeRoot := Parent(subtreeRoot);
        current := Parent(current);
      }
    }

    /** The first half of `push`: store the leaf and recompute the path above it. */
    method StoreLeaf(item: T)
      requires Ready()
      modifies this`nextLeaf, this`rootCell, this`blocks, Last(trees)
      ensures Stored() && blocks == Front(old(blocks)) + [Last(old(blocks)) + [item]] && Rooted()
    {
      hide PathTo, RootLevel, Settled, Pow, Slot, Written;
      var tree := trees[|trees| - 1];
      SettledSize(hash, height, tree[..], Last(blocks));
      WrittenSettles(hash, height, tree[..], Last(blocks), item);
      WriteLeaf(tree, item);
      nextLeaf := nextLeaf + 1;
      blocks := Front(blocks) + [Last(blocks) + [item]];
    }

    /** Writes the leaf into its cell and climbs from it. The leaf count may be any. */
    method WriteLeaf(tree: array<T>, item: T)
      requires tree.Length == 2 * leafCount - 1 && leafCount - 1 <= nextLeaf < tree.Length
      modifies this`rootCell, tree
      ensures (tree[..], rootCell) == Written(hash, leafCount, old(tree[..]), nextLeaf, item)
    {
      hide Turns;
      ghost var cells := tree[..];
      tree[nextLeaf] := item;
      assert tree[..] == cells[nextLeaf := item];
      if nextLeaf == leafCount - 1 {
        // the very first push just stores the leaf
        rootCell := nextLeaf;
      } else {
        rootCell := Climb(tree);
      }
    }

    /** The second half of `push`, for a complete tree: its root becomes the first leaf of a new
        one, and the oldest tree is given up when too many are kept. */
    method StartBlock()
      requires Stored() && |Last(blocks)| == leafCount && Rooted() && |blocks| <= maxBlocks + 1
      modifies this`trees, this`nextLeaf, this`rootCell, this`blocks
      ensures Valid()
      ensures var s := old(blocks) + [[Root(hash, Last(old(blocks)))]];
              blocks == if |s| == maxBlocks + 2 then s[1..] else s
      ensures fresh(Trees() - old(Trees()))
    {
      hide Settled, PathTo, RootLevel, Slot;
      var seed := CellZero();
      AppendTree(seed);
      if |trees| == maxBlocks + 2 {
        DropOldest();
      }
    }

    method CellZero() returns (r: T)
      requires Stored() && |Last(blocks)| == leafCount && Rooted()
      ensures r == Root(hash, Last(blocks))
    {
      RootCell(hash, height, Last(trees)[..], Last(blocks));
      RootOfCompleteTree(height);
      r := trees[|trees| - 1][0];
    }

    method NewTree(seed: T) returns (tree: array<T>)
      requires leafCount == Pow(2, height) && size == 2 * leafCount - 1
      ensures fresh(tree)
      ensures Settled(hash, height, tree[..], [seed])
      ensures PathTo(hash, height, tree[..], [seed], 0)
    {
      tree := new T[size](_ => zero);
      ghost var cells := tree[..];
      tree[leafCount - 1] := seed;
      assert tree[..] == cells[leafCount - 1 := seed];
      FirstLeaf(hash, height, cells, seed);
    }

    method AppendTree(seed: T)
      requires Stored() && |Last(blocks)| == leafCount
      modifies this`trees, this`nextLeaf, this`rootCell, this`blocks
      ensures Stored() && blocks == old(blocks) + [[seed]] && Rooted()
      ensures fresh(Trees() - old(Trees()))
    {
      hide Settled, PathTo;
      ghost var was := trees;
      var last := NewTree(seed);
      assert last !in was;
      trees := trees + [last];
      blocks := blocks + [[seed]];
      rootCell := leafCount - 1;
      nextLeaf := leafCount;
      assert RootLevel(1) == 0 && Slot(height, 0, 0) == leafCount - 1;
      assert forall t :: 0 <= t < |trees| - 1 ==> trees[t] == was[t] && trees[t] != last;
      assert forall t :: 0 <= t < |trees| - 1 ==> Settled(hash, height, was[t][..], blocks[t]);
    }

    /** `trees.pop_front()` */
    method DropOldest()
      requires Stored() && Last(blocks) != [] && Rooted() && |blocks| >= 2
      modifies this`trees, this`blocks
      ensures Stored() && Rooted() && blocks == old(blocks)[1..] && trees == old(trees)[1..]
    {
      trees := trees[1..];
      blocks := blocks[1..];
      assert Last(blocks) == old(Last(blocks)) && Last(trees) == old(Last(trees));
    }

    method Push(item: T)
      requires Ready()
      modifies this, Trees()
      ensures Valid()
      ensures blocks == PushBlocks(hash, leafCount, maxBlocks, old(blocks), item)
      ensures fresh(Trees() - old(Trees()))
    {
      hide Settled, PathTo, RootLevel, Slot, Rooted;
      StoreLeaf(item);
      assert |Last(blocks)| == |Last(old(blocks))| + 1;
      if nextLeaf == size {
        StartBlock();
      }
    }

    /** On an empty tree the unsigned subtraction wraps. */
    method MaxRollback() returns (r: nat)
      requires Valid()
      ensures r == if Last(blocks) == [] then TWO_TO_THE_64 - 1 else Depth(leafCount, blocks)
    {
      MulNonNegative(|trees| - 1, leafCount - 1);
      var d := (|trees| - 1) * (leafCount - 1) + (nextLeaf - leafCount);
      r := if d < 0 then d + TWO_TO_THE_64 else d;
    }

    /** The first part of `rollback`: pop whole trees and move `nextLeaf` to the last surviving
        leaf, which is leaf m - 1 of the last tree left. Returns m. */
    method GiveUp(n: nat) returns (ghost m: nat)
      requires leafCount >= 2 && size == 2 * leafCount - 1 && leafCount <= nextLeaf < size
      requires trees != [] && 0 < n <= (|trees| - 1) * (leafCount - 1) + (nextLeaf - leafCount)
      modifies this`trees, this`nextLeaf, this`rootCell
      ensures trees != [] && |trees| <= |old(trees)| && trees == old(trees)[..|trees|]
      ensures 1 <= m < leafCount && nextLeaf == leafCount - 1 + (m - 1)
      ensures |trees| == |old(trees)| ==> m <= old(nextLeaf) - (leafCount - 1)
      ensures n == (|old(trees)| - |trees|) * (leafCount - 1) + (old(nextLeaf) - (leafCount - 1)) - m
    {
      var steps := n;
      while steps >= leafCount
        invariant 1 <= steps && 1 <= |trees| <= |old(trees)| && trees == old(trees)[..|trees|]
        invariant steps <= (|trees| - 1) * (leafCount - 1) + (nextLeaf - leafCount)
        invariant n == steps + (|old(trees)| - |trees|) * (leafCount - 1)
        invariant nextLeaf == old(nextLeaf)
      {
        assert |trees| > 1;
        OneLess(|trees| - 1, leafCount - 1);
        OneLess(|old(trees)| - |trees| + 1, leafCount - 1);
        steps := steps - (leafCount - 1);
        trees := trees[..|trees| - 1];
      }
      if nextLeaf - steps < leafCount {
        assert |trees| > 1;
        OneLess(|old(trees)| - |trees| + 1, leafCount - 1);
        steps := steps - (nextLeaf - leafCount);
        trees := trees[..|trees| - 1];
        nextLeaf := size;
        rootCell := 0;
      }
      nextLeaf := nextLeaf - steps - 1;
      m := nextLeaf - (leafCount - 1) + 1;
    }

    /** Gives up whole trees by popping them, then pushes the last surviving leaf again. Answers
        false (the source throws) when more steps are asked for than are kept. */
    method Rollback(n: nat) returns (ok: bool)
      requires Valid() && (n > 0 ==> Last(blocks) != [])
      modifies this, Trees()
      ensures Valid()
      ensures ok <==> n == 0 || n <= Depth(leafCount, old(blocks))
      ensures blocks == Runs.BlockStep(hash, leafCount, maxBlocks, old(blocks), Runs.Rollback(n))
      ensures fresh(Trees() - old(Trees()))
    {
      hide Settled, PathTo, RootLevel, Slot, Rooted, Pow, Cut, RollbackBlocks, PushBlocks;
      if n == 0 {
        return true;
      }
      var maxSteps := MaxRollback();
      if n > maxSteps {
        return false;
      }
      ghost var m := GiveUp(n);
      CutIsRollback(leafCount, blocks, |trees|, m, n);
      Repush(m);
      return true;
    }

    /** The last part of `rollback`: whatever the cells above and to the right of leaf m - 1 hold,
        pushing that leaf again makes the tree valid. */
    method Repush(ghost m: nat)
      requires Holding() && |blocks| <= maxBlocks + 1
      requires 1 <= m < leafCount && m <= |blocks[|trees| - 1]| && nextLeaf == leafCount - 1 + (m - 1)
      modifies this, Trees()
      ensures Valid()
      ensures blocks == Cut(old(blocks), |old(trees)|, m)
      ensures fresh(Trees() - old(Trees()))
    {
      hide Settled, PathTo, Slot, RootLevel, Root, Pow, PushBlocks, Rooted;
      Repushed(hash, leafCount, maxBlocks, blocks, |trees|, m);
      var tree := trees[|trees| - 1];
      ghost var bs, k := blocks, |trees|;
      LeafCell(hash, height, tree[..], bs[k - 1], m - 1);
      SettledPrefix(hash, height, tree[..], bs[k - 1], m - 1);
      blocks := Cut(bs, k, m - 1);
      assert Ready();
      Push(tree[nextLeaf]);
    }

    /** The leaf cells that `commit` saves: from last_block_begin() to last_block_end(). */
    method LastBlock() returns (tree: seq<T>, begin: nat, end: nat)
      requires Valid()
      ensures begin == leafCount - 1 && end == nextLeaf <= |tree|
      ensures tree[begin..end] == Last(blocks)
    {
      tree, begin, end := Last(trees)[..], leafCount - 1, nextLeaf;
      forall p | 0 <= p < |Last(blocks)|
        ensures tree[begin + p] == Last(blocks)[p]
      {
        LeafCell(hash, height, tree, Last(blocks), p);
      }
    }
  }

  /** The constructor of the source, which throws when no block is to be kept. */
  method NewMerkleTree<T>(hash: (T, T) -> T, zero: T, leafs: nat, blocks: nat) returns (r: Option<MerkleTree<T>>)
    ensures r.None? <==> blocks == 0
    ensures r.Some? ==>
              && fresh(r.value) && fresh(r.value.trees)
              && r.value.leafCount == Rounded(leafs) && r.value.maxBlocks == blocks && r.value.blocks == [[]]
              && (leafs == 0 || (leafs >= 2 && IsPowerOfTwo(leafs)) ==> r.value.Valid())
  {
    if blocks == 0 {
      return None;
    }
    var t := new MerkleTree<T>(hash, zero, leafs, blocks);
    if leafs == 0 {
      assert t.leafCount == Pow(2, 1);
    } else {
      RoundingMisses(leafs);
    }
    return Some(t);
  }
}
