/** Chained blocks of leaves: each full block seeds the next one with its root. `RollbackBlocks`
    and `PushBlocks` say what the array tree does to the blocks it keeps; `Reference` is a machine
    with no blocks at all, only the pushed items and a depth, and the main result is that the two
    agree after every run. */
module ChainSpec {
  import opened Arith
  import opened MerkleSpec

  function Last<T>(s: seq<T>): T
    requires s != []
  {
    s[|s| - 1]
  }

  function Front<T>(s: seq<T>): seq<T>
    requires s != []
  {
    s[..|s| - 1]
  }

  // ---------- The items pushed so far ----------

  /** Leaves of the block being filled, when its chain starts with `seed` and goes on with `rest`. */
  function Current<T>(hash: (T, T) -> T, leafs: nat, seed: T, rest: seq<T>): (s: seq<T>)
    requires leafs >= 2
    ensures 1 <= |s| < leafs
    decreases |rest|
  {
    if |rest| < leafs - 1 then [seed] + rest
    else Current(hash, leafs, Root(hash, [seed] + rest[..leafs - 1]), rest[leafs - 1..])
  }

  function CurrentLeaves<T>(hash: (T, T) -> T, leafs: nat, items: seq<T>): (s: seq<T>)
    requires leafs >= 2
    ensures |s| < leafs && (s == [] <==> items == [])
  {
    if items == [] then [] else Current(hash, leafs, items[0], items[1..])
  }

  function ChainRoot<T>(hash: (T, T) -> T, leafs: nat, items: seq<T>): T
    requires leafs >= 2 && items != []
  {
    Root(hash, CurrentLeaves(hash, leafs, items))
  }

  /** One more item on the leaves of the current block. */
  function NextLeaves<T>(hash: (T, T) -> T, leafs: nat, s: seq<T>, x: T): seq<T>
    requires leafs >= 2
  {
    if |s| + 1 == leafs then [Root(hash, s + [x])] else s + [x]
  }

  lemma {:induction false} CurrentSnoc<T>(hash: (T, T) -> T, leafs: nat, seed: T, rest: seq<T>, x: T)
    requires leafs >= 2
    ensures Current(hash, leafs, seed, rest + [x])
         == NextLeaves(hash, leafs, Current(hash, leafs, seed, rest), x)
    decreases |rest|
  {
    var more := rest + [x];
    if |rest| < leafs - 2 {
      assert [seed] + more == [seed] + rest + [x];
    } else if |rest| == leafs - 2 {
      assert more[..leafs - 1] == more && more[leafs - 1..] == [];
      assert [seed] + more == [seed] + rest + [x];
    } else {
      assert more[..leafs - 1] == rest[..leafs - 1];
      assert more[leafs - 1..] == rest[leafs - 1..] + [x];
      CurrentSnoc(hash, leafs, Root(hash, [seed] + rest[..leafs - 1]), rest[leafs - 1..], x);
    }
  }

  /** The chain recursion, which works from the first item, is also a step machine that only
      remembers the leaves of the block being filled. */
  lemma LeavesSnoc<T>(hash: (T, T) -> T, leafs: nat, items: seq<T>, x: T)
    requires leafs >= 2
    ensures CurrentLeaves(hash, leafs, items + [x])
         == NextLeaves(hash, leafs, CurrentLeaves(hash, leafs, items), x)
  {
    if items == [] {
      assert (items + [x])[1..] == [];
    } else {
      assert (items + [x])[1..] == items[1..] + [x];
      CurrentSnoc(hash, leafs, items[0], items[1..], x);
    }
  }

  /** Histories that agree on the current leaves can never be told apart again. */
  lemma {:induction false} SameLeavesSameFuture<T>(hash: (T, T) -> T, leafs: nat, a: seq<T>, b: seq<T>, more: seq<T>)
    requires leafs >= 2 && CurrentLeaves(hash, leafs, a) == CurrentLeaves(hash, leafs, b)
    ensures CurrentLeaves(hash, leafs, a + more) == CurrentLeaves(hash, leafs, b + more)
    decreases |more|
  {
    if more == [] {
      assert a + more == a && b + more == b;
    } else {
      SameLeavesSameFuture(hash, leafs, a, b, Front(more));
      assert a + more == (a + Front(more)) + [Last(more)];
      assert b + more == (b + Front(more)) + [Last(more)];
      LeavesSnoc(hash, leafs, a + Front(more), Last(more));
      LeavesSnoc(hash, leafs, b + Front(more), Last(more));
    }
  }

  /** Fewer leaves than fill a block, pushed one by one into a fresh tree, are its leaves. */
  lemma LeavesAreTheirOwnHistory<T>(hash: (T, T) -> T, leafs: nat, s: seq<T>, n: nat)
    requires leafs >= 2 && n <= |s| < leafs
    ensures CurrentLeaves(hash, leafs, s[..n]) == s[..n]
  {
    var r := s[..n];
    if n > 0 {
      assert r == [r[0]] + r[1..];
    }
  }

  // ---------- The blocks that are kept ----------

  /** All blocks but the last are full. */
  ghost predicate Shape<T>(leafs: nat, bs: seq<seq<T>>) {
    && |bs| >= 1
    && (forall t :: 0 <= t < |bs| - 1 ==> |bs[t]| == leafs)
    && |Last(bs)| <= leafs
  }

  /** How many steps can be rolled back. */
  function Depth<T>(leafs: nat, bs: seq<seq<T>>): nat
    requires leafs >= 2 && bs != [] && Last(bs) != []
  {
    MulNonNegative(|bs| - 1, leafs - 1);
    (|bs| - 1) * (leafs - 1) + (|Last(bs)| - 1)
  }

  lemma DepthOfOneBlock<T>(leafs: nat, bs: seq<seq<T>>)
    requires leafs >= 2 && |bs| == 1 && Last(bs) != []
    ensures Depth(leafs, bs) == |Last(bs)| - 1
  {
  }

  lemma DepthOfFront<T>(leafs: nat, bs: seq<seq<T>>)
    requires leafs >= 2 && Shape(leafs, bs) && |bs| > 1 && Last(bs) != []
    ensures Shape(leafs, Front(bs)) && |Last(Front(bs))| == leafs
    ensures Depth(leafs, bs) == Depth(leafs, Front(bs)) + (|Last(bs)| - 1)
  {
    OneLess(|bs| - 1, leafs - 1);
  }

  /** Append a leaf; a block that becomes full seeds a new one. */
  function Extend<T>(hash: (T, T) -> T, leafs: nat, bs: seq<seq<T>>, x: T): (r: seq<seq<T>>)
    requires bs != []
    ensures |r| >= |bs|
  {
    var s := Last(bs) + [x];
    Front(bs) + (if |s| == leafs then [s, [Root(hash, s)]] else [s])
  }

  function PushBlocks<T>(hash: (T, T) -> T, leafs: nat, maxBlocks: nat, bs: seq<seq<T>>, x: T): (r: seq<seq<T>>)
    requires bs != []
    ensures r != []
  {
    var r := Extend(hash, leafs, bs, x);
    if |r| > |bs| && |r| == maxBlocks + 2 then r[1..] else r
  }

  /** Of the kept blocks, the last one alone decides what the last one becomes. */
  lemma PushStepsLeaves<T>(hash: (T, T) -> T, leafs: nat, maxBlocks: nat, bs: seq<seq<T>>, x: T)
    requires leafs >= 2 && bs != []
    ensures Last(PushBlocks(hash, leafs, maxBlocks, bs, x)) == NextLeaves(hash, leafs, Last(bs), x)
  {
    assert Last(Extend(hash, leafs, bs, x)) == NextLeaves(hash, leafs, Last(bs), x);
  }

  /** Take off n leaves. The seed of a block stands for the last leaf of the block before it, so it
      is not counted. */
  function RollbackBlocks<T>(leafs: nat, bs: seq<seq<T>>, n: nat): (r: seq<seq<T>>)
    requires leafs >= 2 && Shape(leafs, bs) && Last(bs) != [] && n <= Depth(leafs, bs)
    ensures Shape(leafs, r) && Last(r) != [] && Depth(leafs, r) == Depth(leafs, bs) - n
    ensures n > 0 ==> |Last(r)| < leafs
    decreases |bs|
  {
    var s := Last(bs);
    if n < |s| then
      Front(bs) + [s[..|s| - n]]
    else
      assert |bs| > 1;
      DepthOfFront(leafs, bs);
      RollbackBlocks(leafs, Front(bs), n - (|s| - 1))
  }

  /** A rollback within the last block. */
  lemma RollbackWithin<T>(leafs: nat, bs: seq<seq<T>>, n: nat)
    requires leafs >= 2 && Shape(leafs, bs) && Last(bs) != [] && n < |Last(bs)| && n <= Depth(leafs, bs)
    ensures RollbackBlocks(leafs, bs, n) == Front(bs) + [Last(bs)[..|Last(bs)| - n]]
  {
  }

  /** A rollback past the last block goes on in the block before it. */
  lemma RollbackPast<T>(leafs: nat, bs: seq<seq<T>>, n: nat)
    requires leafs >= 2 && Shape(leafs, bs) && Last(bs) != [] && |Last(bs)| <= n <= Depth(leafs, bs)
    ensures |bs| > 1 && Shape(leafs, Front(bs)) && Last(Front(bs)) != []
    ensures Depth(leafs, Front(bs)) == Depth(leafs, bs) - (|Last(bs)| - 1)
    ensures RollbackBlocks(leafs, bs, n) == RollbackBlocks(leafs, Front(bs), n - (|Last(bs)| - 1))
  {
    hide Depth;
    if |bs| == 1 {
      DepthOfOneBlock(leafs, bs);
    } else {
      DepthOfFront(leafs, bs);
    }
  }

  /** Rolling back a steps and then b steps is rolling back a + b steps. */
  lemma {:induction false} RollbackCompose<T>(leafs: nat, bs: seq<seq<T>>, a: nat, b: nat)
    requires leafs >= 2 && Shape(leafs, bs) && Last(bs) != [] && a + b <= Depth(leafs, bs)
    ensures RollbackBlocks(leafs, RollbackBlocks(leafs, bs, a), b) == RollbackBlocks(leafs, bs, a + b)
    decreases |bs|
  {
    hide Depth, RollbackBlocks;
    var s, r := Last(bs), RollbackBlocks(leafs, bs, a);
    if a >= |s| {
      RollbackPast(leafs, bs, a);
      RollbackPast(leafs, bs, a + b);
      RollbackCompose(leafs, Front(bs), a - (|s| - 1), b);
    } else {
      RollbackWithin(leafs, bs, a);
      assert Front(r) == Front(bs) && Last(r) == s[..|s| - a];
      if a + b < |s| {
        RollbackWithin(leafs, bs, a + b);
        RollbackWithin(leafs, r, b);
        assert s[..|s| - a][..|s| - a - b] == s[..|s| - (a + b)];
      } else {
        RollbackPast(leafs, bs, a + b);
        RollbackPast(leafs, r, b);
      }
    }
  }

  /** The first k blocks, with only c leaves left in the last of them. */
  function Cut<T>(bs: seq<seq<T>>, k: nat, c: nat): seq<seq<T>>
    requires 1 <= k <= |bs| && c <= |bs[k - 1]|
  {
    bs[..k - 1] + [bs[k - 1][..c]]
  }

  /** Where a rollback ends up: every block given up accounts for leafs - 1 steps. */
  lemma {:induction false} CutIsRollback<T>(leafs: nat, bs: seq<seq<T>>, k: nat, c: nat, n: nat)
    requires leafs >= 2 && Shape(leafs, bs) && Last(bs) != []
    requires 1 <= k <= |bs| && 1 <= c <= |bs[k - 1]| && c < leafs
    requires n == (|bs| - k) * (leafs - 1) + |Last(bs)| - c && n <= Depth(leafs, bs)
    ensures Cut(bs, k, c) == RollbackBlocks(leafs, bs, n)
    decreases |bs|
  {
    hide Depth, RollbackBlocks;
    if k < |bs| {
      OneLess(|bs| - k, leafs - 1);
      MulNonNegative(|bs| - 1 - k, leafs - 1);
      assert n >= |Last(bs)|;
      RollbackPast(leafs, bs, n);
      assert Cut(bs, k, c) == Cut(Front(bs), k, c);
      CutIsRollback(leafs, Front(bs), k, c, n - (|Last(bs)| - 1));
    } else {
      assert (|bs| - k) * (leafs - 1) == 0;
      RollbackWithin(leafs, bs, n);
    }
  }

  // ---------- Every block ever, and the suffix that is kept ----------

  function AllBlocks<T>(hash: (T, T) -> T, leafs: nat, items: seq<T>): (bs: seq<seq<T>>)
    ensures bs != []
    decreases |items|
  {
    if items == [] then [[]] else Extend(hash, leafs, AllBlocks(hash, leafs, Front(items)), Last(items))
  }

  lemma {:induction false} AllBlocksEndInCurrentLeaves<T>(hash: (T, T) -> T, leafs: nat, items: seq<T>)
    requires leafs >= 2
    ensures Last(AllBlocks(hash, leafs, items)) == CurrentLeaves(hash, leafs, items)
    ensures Shape(leafs, AllBlocks(hash, leafs, items))
    decreases |items|
  {
    if items != [] {
      AllBlocksEndInCurrentLeaves(hash, leafs, Front(items));
      LeavesSnoc(hash, leafs, Front(items), Last(items));
      assert items == Front(items) + [Last(items)];
    }
  }

  /** Each block after the first starts with the root of the full block before it. */
  ghost predicate Chained<T>(hash: (T, T) -> T, bs: seq<seq<T>>) {
    forall t :: 0 <= t < |bs| - 1 ==> Seeds(hash, bs, t)
  }

  ghost predicate Seeds<T>(hash: (T, T) -> T, bs: seq<seq<T>>, t: nat)
    requires t + 1 < |bs|
  {
    bs[t] != [] && bs[t + 1] != [] && bs[t + 1][0] == Root(hash, bs[t])
  }

  /** The items in the blocks, without the seeds. */
  function ItemsOf<T>(bs: seq<seq<T>>): seq<T>
    decreases |bs|
  {
    if bs == [] then []
    else if |bs| == 1 then bs[0]
    else ItemsOf(Front(bs)) + (if Last(bs) == [] then [] else Last(bs)[1..])
  }

  /** The blocks hold every pushed item once and in order, and nothing else but the seeds, each of
      which is the root of the whole block before it. */
  lemma {:induction false} BlocksHoldItems<T>(hash: (T, T) -> T, leafs: nat, items: seq<T>)
    requires leafs >= 2
    ensures Chained(hash, AllBlocks(hash, leafs, items))
    ensures ItemsOf(AllBlocks(hash, leafs, items)) == items
    decreases |items|
  {
    if items != [] {
      BlocksHoldItems(hash, leafs, Front(items));
      AllBlocksEndInCurrentLeaves(hash, leafs, Front(items));
      ExtendHolds(hash, leafs, AllBlocks(hash, leafs, Front(items)), Last(items));
      assert items == Front(items) + [Last(items)];
    }
  }

  lemma ExtendHolds<T>(hash: (T, T) -> T, leafs: nat, bs: seq<seq<T>>, x: T)
    requires leafs >= 2 && bs != [] && Chained(hash, bs)
    ensures Chained(hash, Extend(hash, leafs, bs, x))
    ensures ItemsOf(Extend(hash, leafs, bs, x)) == ItemsOf(bs) + [x]
  {
    hide Root;
    var s := Last(bs) + [x];
    var full := Front(bs) + [s];
    forall t | 0 <= t < |full| - 1
      ensures Seeds(hash, full, t)
    {
      assert Seeds(hash, bs, t);
    }
    assert Front(full) == Front(bs) && Last(full) == s;
    if |bs| > 1 {
      assert Seeds(hash, bs, |bs| - 2);
      assert s[1..] == Last(bs)[1..] + [x];
    }
    assert ItemsOf(full) == ItemsOf(bs) + [x];
    if |s| == leafs {
      var r := full + [[Root(hash, s)]];
      assert Extend(hash, leafs, bs, x) == r;
      assert Front(r) == full && Last(r) == [Root(hash, s)];
      assert [Root(hash, s)][1..] == [];
      forall t | 0 <= t < |r| - 1
        ensures Seeds(hash, r, t)
      {
        if t < |full| - 1 {
          assert Seeds(hash, full, t);
        }
      }
    }
  }

  /** bs is a nonempty end of the blocks that the items filled. */
  ghost predicate Keeps<T>(hash: (T, T) -> T, leafs: nat, bs: seq<seq<T>>, items: seq<T>) {
    var all := AllBlocks(hash, leafs, items);
    1 <= |bs| <= |all| && bs == all[|all| - |bs|..]
  }

  lemma KeepsShape<T>(hash: (T, T) -> T, leafs: nat, bs: seq<seq<T>>, items: seq<T>)
    requires leafs >= 2 && Keeps(hash, leafs, bs, items)
    ensures Shape(leafs, bs) && Last(bs) == CurrentLeaves(hash, leafs, items)
  {
    AllBlocksEndInCurrentLeaves(hash, leafs, items);
  }

  lemma ExtendSuffix<T>(hash: (T, T) -> T, leafs: nat, all: seq<seq<T>>, k: nat, x: T)
    requires k < |all|
    ensures Extend(hash, leafs, all[k..], x) == Extend(hash, leafs, all, x)[k..]
  {
    assert Front(all[k..]) == Front(all)[k..];
  }

  lemma PushKeeps<T>(hash: (T, T) -> T, leafs: nat, maxBlocks: nat, bs: seq<seq<T>>, items: seq<T>, x: T)
    requires leafs >= 2 && Keeps(hash, leafs, bs, items)
    ensures Keeps(hash, leafs, PushBlocks(hash, leafs, maxBlocks, bs, x), items + [x])
  {
    var all := AllBlocks(hash, leafs, items);
    assert Front(items + [x]) == items;
    ExtendSuffix(hash, leafs, all, |all| - |bs|, x);
  }

  /** One step back undoes the append of a leaf. */
  lemma UndoExtend<T>(hash: (T, T) -> T, leafs: nat, bs: seq<seq<T>>, x: T)
    requires leafs >= 2 && Shape(leafs, bs) && 1 <= |Last(bs)| < leafs
    ensures var r := Extend(hash, leafs, bs, x);
      && Shape(leafs, r) && Last(r) != [] && Depth(leafs, r) == Depth(leafs, bs) + 1
      && RollbackBlocks(leafs, r, 1) == bs
  {
    var s := Last(bs) + [x];
    var r := Extend(hash, leafs, bs, x);
    assert s[..|s| - 1] == Last(bs);
    assert bs == Front(bs) + [Last(bs)];
    if |s| == leafs {
      assert Front(r) == Front(bs) + [s];
      assert Front(Front(r)) == Front(bs);
      assert (|bs| + 1 - 1) * (leafs - 1) == (|bs| - 1) * (leafs - 1) + (leafs - 1);
    } else {
      assert Front(r) == Front(bs);
    }
  }

  lemma DepthOfSuffix<T>(leafs: nat, all: seq<seq<T>>, k: nat)
    requires leafs >= 2 && k < |all| && Last(all) != []
    ensures Depth(leafs, all[k..]) <= Depth(leafs, all)
  {
    assert (|all| - 1) * (leafs - 1) == (|all| - k - 1) * (leafs - 1) + k * (leafs - 1);
  }

  lemma {:induction false} RollbackSuffix<T>(leafs: nat, all: seq<seq<T>>, k: nat, n: nat)
    requires leafs >= 2 && Shape(leafs, all) && Last(all) != [] && k < |all|
    requires n <= Depth(leafs, all[k..])
    ensures n <= Depth(leafs, all)
    ensures var r := RollbackBlocks(leafs, all, n);
      |r| > k && RollbackBlocks(leafs, all[k..], n) == r[k..]
    decreases |all|
  {
    hide Depth, RollbackBlocks;
    var bs, s := all[k..], Last(all);
    DepthOfSuffix(leafs, all, k);
    assert Front(bs) == Front(all)[k..];
    if n >= |s| {
      RollbackPast(leafs, bs, n);
      RollbackPast(leafs, all, n);
      RollbackSuffix(leafs, Front(all), k, n - (|s| - 1));
    } else {
      RollbackWithin(leafs, bs, n);
      RollbackWithin(leafs, all, n);
    }
  }

  lemma {:induction false} RollbackAll<T>(hash: (T, T) -> T, leafs: nat, items: seq<T>, n: nat)
    requires leafs >= 2 && n < |items|
    ensures var all := AllBlocks(hash, leafs, items);
      && Shape(leafs, all) && Last(all) != [] && n <= Depth(leafs, all)
      && RollbackBlocks(leafs, all, n) == AllBlocks(hash, leafs, items[..|items| - n])
    decreases n
  {
    hide Root, CurrentLeaves, Depth, RollbackBlocks, Extend;
    var all := AllBlocks(hash, leafs, items);
    AllBlocksEndInCurrentLeaves(hash, leafs, items);
    if n == 0 {
      assert items[..|items| - n] == items;
      RollbackWithin(leafs, all, 0);
      assert Last(all)[..|Last(all)|] == Last(all) && Front(all) + [Last(all)] == all;
    } else {
      AllBlocksEndInCurrentLeaves(hash, leafs, Front(items));
      UndoExtend(hash, leafs, AllBlocks(hash, leafs, Front(items)), Last(items));
      RollbackAll(hash, leafs, Front(items), n - 1);
      RollbackCompose(leafs, all, 1, n - 1);
      assert Front(items)[..|items| - 1 - (n - 1)] == items[..|items| - n];
    }
  }

  lemma {:induction false} DepthBelowItems<T>(hash: (T, T) -> T, leafs: nat, items: seq<T>)
    requires leafs >= 2 && items != []
    ensures Last(AllBlocks(hash, leafs, items)) != []
    ensures Depth(leafs, AllBlocks(hash, leafs, items)) == |items| - 1
    decreases |items|
  {
    AllBlocksEndInCurrentLeaves(hash, leafs, items);
    if |items| > 1 {
      AllBlocksEndInCurrentLeaves(hash, leafs, Front(items));
      UndoExtend(hash, leafs, AllBlocks(hash, leafs, Front(items)), Last(items));
      DepthBelowItems(hash, leafs, Front(items));
    } else {
      assert AllBlocks(hash, leafs, Front(items)) == [[]];
    }
  }

  /** A legal rollback is exact: what is kept afterwards is what the shortened history fills, however
      many block borders were crossed. */
  lemma RollbackKeeps<T>(hash: (T, T) -> T, leafs: nat, bs: seq<seq<T>>, items: seq<T>, n: nat)
    requires leafs >= 2 && items != [] && Keeps(hash, leafs, bs, items)
    requires Shape(leafs, bs) && Last(bs) != [] && n <= Depth(leafs, bs)
    ensures n < |items|
    ensures Keeps(hash, leafs, RollbackBlocks(leafs, bs, n), items[..|items| - n])
  {
    hide Root, CurrentLeaves, Depth, RollbackBlocks, AllBlocks;
    var all := AllBlocks(hash, leafs, items);
    AllBlocksEndInCurrentLeaves(hash, leafs, items);
    DepthBelowItems(hash, leafs, items);
    RollbackSuffix(leafs, all, |all| - |bs|, n);
    RollbackAll(hash, leafs, items, n);
  }
}
