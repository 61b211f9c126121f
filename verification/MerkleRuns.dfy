/** Whole runs of the array Merkle tree: every interleaving of pushes and rollbacks. */
module MerkleRuns {
  import opened Arith
  import opened MerkleSpec
  import opened ChainSpec

  datatype Op<T> = Push(item: T) | Rollback(steps: nat)

  /** A machine without blocks: the surviving items and the number of steps that can be undone. */
  datatype Reference<T> = Reference(items: seq<T>, depth: nat)

  function PushedDepth<T>(leafs: nat, maxBlocks: nat, r: Reference<T>): nat
    requires leafs >= 2
  {
    if r.items == [] then 0
    else if r.depth == maxBlocks * (leafs - 1) + (leafs - 2) then maxBlocks * (leafs - 1)
    else r.depth + 1
  }

  function ReferenceStep<T>(leafs: nat, maxBlocks: nat, r: Reference<T>, op: Op<T>): Reference<T>
    requires leafs >= 2
  {
    match op
    case Push(x) => Reference(r.items + [x], PushedDepth(leafs, maxBlocks, r))
    case Rollback(n) =>
      if n <= r.depth && n <= |r.items| then Reference(r.items[..|r.items| - n], r.depth - n) else r
  }

  /** The kept blocks under one operation; a rollback beyond the depth throws and changes nothing. */
  function BlockStep<T>(hash: (T, T) -> T, leafs: nat, maxBlocks: nat, bs: seq<seq<T>>, op: Op<T>): (r: seq<seq<T>>)
    requires leafs >= 2 && Shape(leafs, bs) && |Last(bs)| < leafs
    ensures Shape(leafs, r) && |Last(r)| < leafs
  {
    match op
    case Push(x) => PushBlocks(hash, leafs, maxBlocks, bs, x)
    case Rollback(n) =>
      if n == 0 || Last(bs) == [] || n > Depth(leafs, bs) then bs else RollbackBlocks(leafs, bs, n)
  }

  function RunBlocks<T>(hash: (T, T) -> T, leafs: nat, maxBlocks: nat, ops: seq<Op<T>>): (r: seq<seq<T>>)
    requires leafs >= 2
    ensures Shape(leafs, r) && |Last(r)| < leafs
    decreases |ops|
  {
    if ops == [] then [[]]
    else BlockStep(hash, leafs, maxBlocks, RunBlocks(hash, leafs, maxBlocks, Front(ops)), Last(ops))
  }

  function RunReference<T>(leafs: nat, maxBlocks: nat, ops: seq<Op<T>>): Reference<T>
    requires leafs >= 2
    decreases |ops|
  {
    if ops == [] then Reference([], 0)
    else ReferenceStep(leafs, maxBlocks, RunReference(leafs, maxBlocks, Front(ops)), Last(ops))
  }

  /** The kept blocks of a tree and the reference machine describe the same history. */
  ghost predicate Agree<T>(hash: (T, T) -> T, leafs: nat, maxBlocks: nat, bs: seq<seq<T>>, r: Reference<T>)
    requires leafs >= 2
  {
    && Keeps(hash, leafs, bs, r.items)
    && |bs| <= maxBlocks + 1
    && (if r.items == [] then r.depth == 0 else Last(bs) != [] && Depth(leafs, bs) == r.depth < |r.items|)
  }

  /** A push raises the depth by one, unless it evicts a block. */
  lemma PushDepth<T>(hash: (T, T) -> T, leafs: nat, maxBlocks: nat, bs: seq<seq<T>>, x: T)
    requires leafs >= 2 && maxBlocks >= 1 && |bs| <= maxBlocks + 1
    requires Shape(leafs, bs) && 1 <= |Last(bs)| < leafs
    ensures var r := PushBlocks(hash, leafs, maxBlocks, bs, x);
      && |r| <= maxBlocks + 1 && Last(r) != []
      && Depth(leafs, r) ==
           if Depth(leafs, bs) == maxBlocks * (leafs - 1) + (leafs - 2) then maxBlocks * (leafs - 1)
           else Depth(leafs, bs) + 1
  {
    UndoExtend(hash, leafs, bs, x);
    var d := leafs - 1;
    DivUnique(Depth(leafs, bs), d, |bs| - 1, |Last(bs)| - 1);
    DivUnique(maxBlocks * d + (d - 1), d, maxBlocks, d - 1);
    var e := Extend(hash, leafs, bs, x);
    if |e| == maxBlocks + 2 {
      assert |e[1..]| - 1 == maxBlocks && Last(e[1..]) == Last(e);
    }
  }

  lemma PushAgrees<T>(hash: (T, T) -> T, leafs: nat, maxBlocks: nat, bs: seq<seq<T>>, r: Reference<T>, x: T)
    requires leafs >= 2 && maxBlocks >= 1 && Agree(hash, leafs, maxBlocks, bs, r)
    ensures Agree(hash, leafs, maxBlocks, PushBlocks(hash, leafs, maxBlocks, bs, x),
                  Reference(r.items + [x], PushedDepth(leafs, maxBlocks, r)))
  {
    KeepsShape(hash, leafs, bs, r.items);
    PushKeeps(hash, leafs, maxBlocks, bs, r.items, x);
    if r.items == [] {
      assert bs == [[]];
      assert PushBlocks(hash, leafs, maxBlocks, bs, x) == [[x]];
    } else {
      PushDepth(hash, leafs, maxBlocks, bs, x);
    }
  }

  lemma RollbackAgrees<T>(hash: (T, T) -> T, leafs: nat, maxBlocks: nat, bs: seq<seq<T>>, r: Reference<T>, n: nat)
    requires leafs >= 2 && Agree(hash, leafs, maxBlocks, bs, r) && r.items != []
    requires Shape(leafs, bs) && n <= r.depth
    ensures Agree(hash, leafs, maxBlocks, RollbackBlocks(leafs, bs, n), Reference(r.items[..|r.items| - n],
          r.depth - n))
  {
    RollbackKeeps(hash, leafs, bs, r.items, n);
    RollbackLength(leafs, bs, n);
  }

  lemma StepAgrees<T>(hash: (T, T) -> T, leafs: nat, maxBlocks: nat, bs: seq<seq<T>>, r: Reference<T>, op: Op<T>)
    requires leafs >= 2 && maxBlocks >= 1 && Agree(hash, leafs, maxBlocks, bs, r)
    requires op.Push? || r.items != []
    ensures Shape(leafs, bs) && |Last(bs)| < leafs
    ensures Agree(hash, leafs, maxBlocks, BlockStep(hash, leafs, maxBlocks, bs, op), ReferenceStep(leafs,
          maxBlocks, r, op))
    ensures ReferenceStep(leafs, maxBlocks, r, op).items != []
  {
    KeepsShape(hash, leafs, bs, r.items);
    match op
    case Push(x) => PushAgrees(hash, leafs, maxBlocks, bs, r, x);
    case Rollback(n) =>
      assert r.items[..|r.items| - 0] == r.items;
      if 0 < n <= r.depth {
        RollbackAgrees(hash, leafs, maxBlocks, bs, r, n);
      }
  }

  lemma {:induction false} RollbackLength<T>(leafs: nat, bs: seq<seq<T>>, n: nat)
    requires leafs >= 2 && Shape(leafs, bs) && Last(bs) != [] && n <= Depth(leafs, bs)
    ensures |RollbackBlocks(leafs, bs, n)| <= |bs|
    decreases |bs|
  {
    if n >= |Last(bs)| {
      assert |bs| > 1;
      RollbackLength(leafs, Front(bs), n - (|Last(bs)| - 1));
    }
  }

  /** After any run whose first operation is a push, the blocks still show exactly the surviving
      items: the root is the chained root of those items and the depth is the reference depth. */
  lemma {:induction false} RunIsExact<T>(hash: (T, T) -> T, leafs: nat, maxBlocks: nat, ops: seq<Op<T>>)
    requires leafs >= 2 && maxBlocks >= 1 && ops != [] && ops[0].Push?
    ensures var bs, r := RunBlocks(hash, leafs, maxBlocks, ops), RunReference(leafs, maxBlocks, ops);
      && Agree(hash, leafs, maxBlocks, bs, r)
      && r.items != [] && Last(bs) != []
      && Root(hash, Last(bs)) == ChainRoot(hash, leafs, r.items)
      && Depth(leafs, bs) == r.depth
    decreases |ops|
  {
    var bs, r := RunBlocks(hash, leafs, maxBlocks, Front(ops)), RunReference(leafs, maxBlocks, Front(ops));
    if |ops| == 1 {
      assert AllBlocks(hash, leafs, r.items) == [[]] == bs;
    } else {
      RunIsExact(hash, leafs, maxBlocks, Front(ops));
    }
    StepAgrees(hash, leafs, maxBlocks, bs, r, Last(ops));
    KeepsShape(hash, leafs, RunBlocks(hash, leafs, maxBlocks, ops), RunReference(leafs, maxBlocks, ops).items);
  }

  function Pushes<T>(items: seq<T>): (ops: seq<Op<T>>)
    ensures |ops| == |items|
    ensures forall i :: 0 <= i < |items| ==> ops[i] == Push(items[i])
  {
    seq(|items|, i requires 0 <= i < |items| => Push(items[i]))
  }

  lemma {:induction false} PushesAppend<T>(leafs: nat, maxBlocks: nat, ops: seq<Op<T>>, more: seq<T>)
    requires leafs >= 2
    ensures RunReference(leafs, maxBlocks, ops + Pushes(more)).items
         == RunReference(leafs, maxBlocks, ops).items + more
    decreases |more|
  {
    var all := ops + Pushes(more);
    if more == [] {
      assert all == ops;
      assert RunReference(leafs, maxBlocks, ops).items + more == RunReference(leafs, maxBlocks, ops).items;
    } else {
      assert Front(all) == ops + Pushes(Front(more)) && Last(all) == Push(Last(more));
      PushesAppend(leafs, maxBlocks, ops, Front(more));
    }
  }

  /** A rolled-back push leaves no trace: two runs that end with the same surviving items show the
      same root after every further sequence of pushes, whatever cells and blocks they hold. */
  lemma RolledBackPushesLeaveNoTrace<T>(hash: (T, T) -> T, leafs: nat, maxBlocks: nat, a: seq<Op<T>>,
        b: seq<Op<T>>, more: seq<T>)
    requires leafs >= 2 && maxBlocks >= 1 && a != [] && a[0].Push? && b != [] && b[0].Push?
    requires RunReference(leafs, maxBlocks, a).items == RunReference(leafs, maxBlocks, b).items
    ensures var x, y := RunBlocks(hash, leafs, maxBlocks, a + Pushes(more)), RunBlocks(hash, leafs, maxBlocks,
          b + Pushes(more));
      Last(x) != [] && Last(x) == Last(y)
  {
    PushesAppend(leafs, maxBlocks, a, more);
    PushesAppend(leafs, maxBlocks, b, more);
    RunIsExact(hash, leafs, maxBlocks, a + Pushes(more));
    RunIsExact(hash, leafs, maxBlocks, b + Pushes(more));
    var items := RunReference(leafs, maxBlocks, a + Pushes(more)).items;
    KeepsShape(hash, leafs, RunBlocks(hash, leafs, maxBlocks, a + Pushes(more)), items);
    KeepsShape(hash, leafs, RunBlocks(hash, leafs, maxBlocks, b + Pushes(more)), items);
  }

  lemma QuotientBelowOrAbove(n: nat, d: nat, k: nat)
    requires d >= 1
    ensures n - n % d + d <= k * d || n - n % d >= k * d
  {
    DivBounds(n, d);
    var q := n / d;
    assert q + 1 <= k ==> (q + 1) * d <= k * d;
    assert q >= k ==> q * d >= k * d;
  }

  lemma DepthClosedFormStep(n: nat, d: nat, maxBlocks: nat)
    requires d >= 1
    ensures var top := maxBlocks * d;
            var depth := Min(n, top + n % d);
      Min(n + 1, top + (n + 1) % d) == if depth == top + (d - 1) then top else depth + 1
  {
    NextRemainder(n, d);
    QuotientBelowOrAbove(n, d, maxBlocks);
  }

  lemma {:induction false} ReferenceDepthAfterPushes<T>(leafs: nat, maxBlocks: nat, items: seq<T>)
    requires leafs >= 2 && items != []
    ensures var r := RunReference(leafs, maxBlocks, Pushes(items));
      && r.items == items
      && r.depth == Min(|items| - 1, maxBlocks * (leafs - 1) + (|items| - 1) % (leafs - 1))
    decreases |items|
  {
    var ops := Pushes(items);
    assert Front(ops) == Pushes(Front(items));
    assert items == Front(items) + [Last(items)];
    if |items| == 1 {
      assert RunReference(leafs, maxBlocks, Front(ops)) == Reference([], 0);
      DivUnique(0, leafs - 1, 0, 0);
    } else {
      ReferenceDepthAfterPushes(leafs, maxBlocks, Front(items));
      DepthClosedFormStep(|items| - 2, leafs - 1, maxBlocks);
    }
  }

  /** With pushes alone the number of steps that can be undone has a closed form. */
  lemma DepthAfterPushes<T>(hash: (T, T) -> T, leafs: nat, maxBlocks: nat, items: seq<T>)
    requires leafs >= 2 && maxBlocks >= 1 && items != []
    ensures var bs := RunBlocks(hash, leafs, maxBlocks, Pushes(items));
      && bs != [] && Last(bs) != []
      && Depth(leafs, bs) == Min(|items| - 1, maxBlocks * (leafs - 1) + (|items| - 1) % (leafs - 1))
  {
    RunIsExact(hash, leafs, maxBlocks, Pushes(items));
    ReferenceDepthAfterPushes(leafs, maxBlocks, items);
  }

  /** Two blocks of four leaves: not six steps at most, but six at least once seven items are pushed,
      and eight after nine of them. */
  lemma DepthOfTwoBlocksOfFour<T>(hash: (T, T) -> T, items: seq<T>)
    requires |items| >= 7
    ensures var bs := RunBlocks(hash, 4, 2, Pushes(items));
      && bs != [] && Last(bs) != []
      && 6 <= Depth(4, bs) <= 8 && (|items| == 9 ==> Depth(4, bs) == 8)
  {
    hide RunBlocks, Depth;
    DepthAfterPushes(hash, 4, 2, items);
  }

  // ---------- Rolling back and pushing again ----------

  function PushAll<T>(hash: (T, T) -> T, leafs: nat, maxBlocks: nat, bs: seq<seq<T>>, items: seq<T>): (r: seq<seq<T>>)
    requires bs != []
    ensures r != []
    decreases |items|
  {
    if items == [] then bs
    else PushAll(hash, leafs, maxBlocks, PushBlocks(hash, leafs, maxBlocks, bs, items[0]), items[1..])
  }

  lemma RedoLast<T>(hash: (T, T) -> T, leafs: nat, maxBlocks: nat, bs: seq<seq<T>>, items: seq<T>)
    requires leafs >= 2 && |bs| <= maxBlocks + 1 && |items| >= 2 && Keeps(hash, leafs, bs, items)
    requires Shape(leafs, bs) && Last(bs) != [] && 1 <= Depth(leafs, bs)
    ensures PushBlocks(hash, leafs, maxBlocks, RollbackBlocks(leafs, bs, 1), Last(items)) == bs
  {
    var all := AllBlocks(hash, leafs, items);
    var before := AllBlocks(hash, leafs, Front(items));
    AllBlocksEndInCurrentLeaves(hash, leafs, items);
    AllBlocksEndInCurrentLeaves(hash, leafs, Front(items));
    UndoExtend(hash, leafs, before, Last(items));
    var k := |all| - |bs|;
    RollbackSuffix(leafs, all, k, 1);
    assert all[k..] == bs;
    ExtendSuffix(hash, leafs, before, k, Last(items));
  }

  /** Rolling back n steps and pushing the same n items again restores every kept block. */
  lemma {:induction false} RollbackThenRepush<T>(hash: (T, T) -> T, leafs: nat, maxBlocks: nat, bs: seq<seq<T>>,
        items: seq<T>, n: nat)
    requires leafs >= 2 && |bs| <= maxBlocks + 1 && items != [] && Keeps(hash, leafs, bs, items)
    requires Shape(leafs, bs) && |Last(bs)| < leafs && Last(bs) != [] && n <= Depth(leafs, bs) && n <= |items|
    ensures PushAll(hash, leafs, maxBlocks, RollbackBlocks(leafs, bs, n), items[|items| - n..]) == bs
    decreases n
  {
    hide Depth, RollbackBlocks, PushBlocks, Keeps;
    if n == 0 {
      RollbackWithin(leafs, bs, 0);
      assert Last(bs)[..|Last(bs)|] == Last(bs) && Front(bs) + [Last(bs)] == bs;
    } else {
      RollbackKeeps(hash, leafs, bs, items, n - 1);
      RollbackLength(leafs, bs, n - 1);
      RollbackCompose(leafs, bs, n - 1, 1);
      var later := items[..|items| - (n - 1)];
      var b := RollbackBlocks(leafs, bs, n - 1);
      RollbackKeeps(hash, leafs, bs, items, n);
      RedoLast(hash, leafs, maxBlocks, b, later);
      var again := items[|items| - n..];
      assert again[0] == Last(later) && again[1..] == items[|items| - (n - 1)..];
      RollbackThenRepush(hash, leafs, maxBlocks, bs, items, n - 1);
    }
  }
}
