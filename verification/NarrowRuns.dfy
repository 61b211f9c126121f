/** Whole runs of the narrow tree, what a drop can and cannot keep, and the exact layers of runs
    that only add. */
module NarrowRuns {
  import opened Arith
  import opened NarrowSpec
  import opened Wrappers
  import NarrowMerkleTree

  datatype Op<T> = Add(item: T) | Drop(ind: nat)

  function Step<T>(c: nat, hash: (T, T) -> T, empty: T, s: State<T>, op: Op<T>): State<T>
    requires c >= 2 && (op.Drop? ==> op.ind <= s.txs)
  {
    match op
    case Add(t) => NarrowSpec.Add(c, hash, empty, s, t)
    case Drop(ind) => NarrowSpec.Drop(c, s, ind).0
  }

  /** The state after a run, or None when some drop asks for more items than there are. */
  function Run<T>(c: nat, hash: (T, T) -> T, empty: T, ops: seq<Op<T>>): Option<State<T>>
    requires c >= 2
    decreases |ops|
  {
    if ops == [] then Some(Init())
    else
      match Run(c, hash, empty, ops[..|ops| - 1])
      case None => None
      case Some(s) =>
        var op := ops[|ops| - 1];
        if op.Drop? && op.ind > s.txs then None else Some(Step(c, hash, empty, s, op))
  }

  /** The items a run leaves, oldest first, and how many older ones were lost below every
      checkpoint. */
  ghost function Left<T>(c: nat, hash: (T, T) -> T, empty: T, ops: seq<Op<T>>): (nat, seq<T>)
    requires c >= 2 && Run(c, hash, empty, ops).Some?
    decreases |ops|
  {
    if ops == [] then (0, [])
    else
      var s := Run(c, hash, empty, ops[..|ops| - 1]).value;
      var (base, items) := Left(c, hash, empty, ops[..|ops| - 1]);
      match ops[|ops| - 1]
      case Add(t) => (base, items + [t])
      case Drop(ind) => Survivors(c, s, base, items, ind)
  }

  /** Every drop of the run finds a checkpoint, clears the tree, or does nothing. */
  ghost predicate AlwaysCheckpoint<T>(c: nat, hash: (T, T) -> T, empty: T, ops: seq<Op<T>>)
    requires c >= 2 && Run(c, hash, empty, ops).Some?
    decreases |ops|
  {
    ops == [] ||
    (&& AlwaysCheckpoint(c, hash, empty, ops[..|ops| - 1])
     && var s := Run(c, hash, empty, ops[..|ops| - 1]).value;
        var op := ops[|ops| - 1];
        op.Drop? && s.prev < op.ind ==> HasCheckpoint(c, s, op.ind))
  }

  /** After every run the root is the running hash of exactly the items left, and size() counts
      them; while every drop finds a checkpoint nothing is lost below it. */
  lemma {:induction false} RunIsExact<T>(c: nat, hash: (T, T) -> T, empty: T, ops: seq<Op<T>>)
    requires c >= 2 && Run(c, hash, empty, ops).Some?
    ensures var s := Run(c, hash, empty, ops).value;
            var (base, items) := Left(c, hash, empty, ops);
      && Inv(c, hash, empty, s, base, items)
      && RootOf(s.layers, empty) == Prefix(hash, empty, items)
      && s.txs == base + |items|
      && (AlwaysCheckpoint(c, hash, empty, ops) ==> base == 0)
    decreases |ops|
  {
    hide Inv, RootOf, Prefix, HasCheckpoint, NarrowSpec.Add;
    if ops == [] {
      InitInv(c, hash, empty);
    } else {
      var before := ops[..|ops| - 1];
      RunIsExact(c, hash, empty, before);
      var s := Run(c, hash, empty, before).value;
      var (base, items) := Left(c, hash, empty, before);
      match ops[|ops| - 1] {
        case Add(t) => AddKeepsInv(c, hash, empty, s, base, items, t);
        case Drop(ind) =>
          DropKeepsInv(c, hash, empty, s, base, items, ind);
          if s.prev < ind && HasCheckpoint(c, s, ind) {
            SomethingLeft(c, hash, empty, s, base, items, ind);
            DropToCheckpoint(c, hash, empty, s, base, items, ind);
          }
      }
    }
    RootAndSize(c, hash, empty, Run(c, hash, empty, ops).value, Left(c, hash, empty, ops).0, Left(c, hash, empty,
          ops).1);
  }

  lemma RootAndSize<T>(c: nat, hash: (T, T) -> T, empty: T, s: State<T>, base: nat, items: seq<T>)
    requires c >= 2 && Inv(c, hash, empty, s, base, items)
    ensures RootOf(s.layers, empty) == Prefix(hash, empty, items) && s.txs == base + |items|
  {
    RootIsPrefix(c, hash, empty, s, base, items);
  }

  // ---------- One drop ----------

  /** Layer k holds the running hash at position pos. */
  ghost predicate Held<T>(c: nat, s: State<T>, k: nat, pos: nat)
    requires c >= 2
  {
    && k < |s.layers| && pos % Pow(c, k) == 0
    && s.txs / Pow(c, k) - |s.layers[k]| < pos / Pow(c, k) <= s.txs / Pow(c, k)
  }

  /** What a drop keeps: in every layer exactly the positions at or below ind. */
  lemma DropKeepsBelow<T>(c: nat, hash: (T, T) -> T, empty: T, s: State<T>, base: nat, items: seq<T>, ind: nat,
        k: nat, pos: nat)
    requires c >= 2 && Inv(c, hash, empty, s, base, items) && s.prev < ind <= s.txs
    ensures Held(c, NarrowSpec.Drop(c, s, ind).0, k, pos) <==> Held(c, s, k, pos) && pos <= ind
  {
    hide Pow, Target, Inv, RootOf;
    var layers := DropLayers(c, s.layers, s.txs, ind);
    if k < |s.layers| {
      var cap := Pow(c, k);
      DivMonotone(ind, s.txs, cap);
      DivGreatest(ind, cap, pos / cap);
      DivBounds(pos, cap);
      LayerFits(c, hash, empty, s, base, items, k);
      if layers[k] != [] {
        SameQuotientAfterDrop(c, hash, empty, s, base, items, ind, k);
      }
    }
    assert |NarrowSpec.Drop(c, s, ind).0.layers| == |s.layers|;
  }

  lemma LayerFits<T>(c: nat, hash: (T, T) -> T, empty: T, s: State<T>, base: nat, items: seq<T>, k: nat)
    requires c >= 2 && Inv(c, hash, empty, s, base, items) && k < |s.layers|
    ensures |s.layers[k]| <= s.txs / Pow(c, k)
  {
    assert LayerOk(c, hash, empty, base, items, s.txs, Pow(c, k), s.layers[k]);
  }

  lemma SameQuotientAfterDrop<T>(c: nat, hash: (T, T) -> T, empty: T, s: State<T>, base: nat, items: seq<T>,
        ind: nat, k: nat)
    requires c >= 2 && Inv(c, hash, empty, s, base, items) && s.prev < ind <= s.txs
    requires k < |s.layers| && DropLayers(c, s.layers, s.txs, ind)[k] != []
    ensures NarrowSpec.Drop(c, s, ind).0.txs / Pow(c, k) == ind / Pow(c, k)
  {
    hide Pow, Inv, RootOf;
    var layers := DropLayers(c, s.layers, s.txs, ind);
    var low := LowestLayer(layers);
    TargetIs(c, layers, ind, 0, low);
    assert low <= k;
    RoundDownTwice(c, ind, low, k);
  }

  /** What an add keeps, also after drops: layer k takes the new position when its spacing divides it, and
      keeps exactly those of its positions that are among the last c multiples. */
  lemma AddHolds<T>(c: nat, hash: (T, T) -> T, empty: T, s: State<T>, base: nat, items: seq<T>, t: T, k: nat, pos: nat)
    requires c >= 2 && Inv(c, hash, empty, s, base, items)
    ensures Held(c, NarrowSpec.Add(c, hash, empty, s, t), k, pos) <==>
              (pos == s.txs + 1 && pos % Pow(c, k) == 0) ||
              (Held(c, s, k, pos) && (s.txs + 1) / Pow(c, k) - pos / Pow(c, k) < c)
  {
    hide Pow, Inv, NarrowSpec.Add;
    var n, m := s.txs + 1, |s.layers|;
    var r := NarrowSpec.Add(c, hash, empty, s, t).layers;
    AddedSizes(c, hash, empty, s, base, items, t, k);
    if k >= |r| {
      PowMonotone(c, |r|, k);
      DivUnique(n, Pow(c, k), 0, n);
    } else if k == m {
      NewLayerHolds(c, n, k, pos);
    } else if pos % Pow(c, k) == 0 {
      LayersBounded(c, hash, empty, s, base, items);
      LayerFits(c, hash, empty, s, base, items, k);
      PushHolds(c, s.txs, Pow(c, k), |s.layers[k]|, pos);
    }
  }

  /** The size of each layer after an add. */
  lemma AddedSizes<T>(c: nat, hash: (T, T) -> T, empty: T, s: State<T>, base: nat, items: seq<T>, t: T, k: nat)
    requires c >= 2 && Inv(c, hash, empty, s, base, items)
    ensures var s', n, m := NarrowSpec.Add(c, hash, empty, s, t), s.txs + 1, |s.layers|;
      && s'.txs == n < Pow(c, |s'.layers|) && m <= |s'.layers| <= m + 1
      && (k < m ==> |s'.layers[k]| == if n % Pow(c, k) == 0 then Min(c, |s.layers[k]| + 1) else |s.layers[k]|)
      && (k == m < |s'.layers| ==> n == Pow(c, k) && |s'.layers[k]| == 1)
  {
    hide Pow, Grown, RootOf, LayerOk, LowestExact, AllEmpty;
    GrowsAtPower(c, s.layers, s.txs);
    LayersBounded(c, hash, empty, s, base, items);
    if s.txs + 1 == Pow(c, k) {
      DivUnique(s.txs + 1, Pow(c, k), 1, 0);
    }
  }

  lemma NewLayerHolds(c: nat, n: nat, k: nat, pos: nat)
    requires c >= 2 && n == Pow(c, k)
    ensures n % Pow(c, k) == 0 && n / Pow(c, k) == 1
    ensures pos % Pow(c, k) == 0 && pos / Pow(c, k) == 1 <==> pos == n
  {
    hide Pow;
    DivUnique(n, Pow(c, k), 1, 0);
    DivBounds(pos, Pow(c, k));
  }

  /** The window of a layer with `size` positions up to n, before and after the count goes to n + 1. */
  lemma PushHolds(c: nat, n: nat, cap: nat, size: nat, pos: nat)
    requires c >= 2 && cap >= 1 && size <= c && size <= n / cap && pos % cap == 0
    ensures var size' := if (n + 1) % cap == 0 then Min(c, size + 1) else size;
      (n + 1) / cap - size' < pos / cap <= (n + 1) / cap <==>
        pos == n + 1 || (n / cap - size < pos / cap <= n / cap && (n + 1) / cap - pos / cap < c)
  {
    NextQuotient(n, cap);
    DivBounds(pos, cap);
    DivBounds(n + 1, cap);
  }

  /** A drop falls back to the best checkpoint. When some layer holds a position at or below ind, the
      answer is the greatest such position in any layer, the root is the running hash there, and the
      items before it survive. Otherwise every layer is emptied, the answer is ind all the same, and
      the root is that of an empty tree. */
  lemma DropIsOptimal<T>(c: nat, hash: (T, T) -> T, empty: T, s: State<T>, base: nat, items: seq<T>, ind: nat)
    requires c >= 2 && Inv(c, hash, empty, s, base, items) && s.prev < ind <= s.txs
    ensures var (s', r) := NarrowSpec.Drop(c, s, ind);
      && s'.txs == s'.prev == r
      && (HasCheckpoint(c, s, ind) <==> !AllEmpty(s'.layers))
      && (HasCheckpoint(c, s, ind) ==>
            && base < r <= ind && (exists k: nat :: Held(c, s, k, r))
            && (forall k: nat, pos: nat :: Held(c, s, k, pos) && pos <= ind ==> pos <= r)
            && RootOf(s'.layers, empty) == Prefix(hash, empty, items[..r - base]))
      && (!HasCheckpoint(c, s, ind) ==> r == ind && RootOf(s'.layers, empty) == empty)
  {
    hide Pow, Inv, RootOf, Prefix, HasCheckpoint, AllEmpty;
    SomethingLeft(c, hash, empty, s, base, items, ind);
    if HasCheckpoint(c, s, ind) {
      DropToCheckpoint(c, hash, empty, s, base, items, ind);
      var (s', r) := NarrowSpec.Drop(c, s, ind);
      RootIsPrefix(c, hash, empty, s', base, items[..r - base]);
      TargetIsHeld(c, hash, empty, s, base, items, ind);
      forall k: nat, pos: nat | Held(c, s, k, pos) && pos <= ind
        ensures pos <= r
      {
        HeldIsBelowTarget(c, hash, empty, s, base, items, ind, k, pos);
      }
    } else {
      DropEverything(c, hash, empty, s, base, items, ind);
    }
  }

  lemma TargetIsHeld<T>(c: nat, hash: (T, T) -> T, empty: T, s: State<T>, base: nat, items: seq<T>, ind: nat)
    requires c >= 2 && Inv(c, hash, empty, s, base, items) && s.prev < ind <= s.txs
    requires !AllEmpty(DropLayers(c, s.layers, s.txs, ind))
    ensures exists k: nat :: Held(c, s, k, NarrowSpec.Drop(c, s, ind).1)
  {
    hide Pow, Inv, RootOf;
    var layers := DropLayers(c, s.layers, s.txs, ind);
    var low := LowestLayer(layers);
    TargetIs(c, layers, ind, 0, low);
    RoundDownTwice(c, ind, low, low);
    DivMonotone(ind, s.txs, Pow(c, low));
    assert Held(c, s, low, NarrowSpec.Drop(c, s, ind).1);
  }

  lemma HeldIsBelowTarget<T>(c: nat, hash: (T, T) -> T, empty: T, s: State<T>, base: nat, items: seq<T>, ind: nat,
        k: nat, pos: nat)
    requires c >= 2 && Inv(c, hash, empty, s, base, items) && s.prev < ind <= s.txs
    requires Held(c, s, k, pos) && pos <= ind
    ensures pos <= NarrowSpec.Drop(c, s, ind).1
  {
    hide Pow, Inv, RootOf, Target;
    DropKeepsBelow(c, hash, empty, s, base, items, ind, k, pos);
    var s' := NarrowSpec.Drop(c, s, ind).0;
    DivBounds(pos, Pow(c, k));
    DivBounds(s'.txs, Pow(c, k));
    MulMonotone(Pow(c, k), pos / Pow(c, k), s'.txs / Pow(c, k));
  }

  // ---------- The early return ----------

  /** An index that is not above the previous drop is answered without doing anything, so the answer is
      the new size exactly when the index is 0, or above the previous drop, or the size itself. */
  lemma AnswerIsSizeIff<T>(c: nat, s: State<T>, ind: nat)
    requires c >= 1
    ensures NarrowSpec.Drop(c, s, ind).0.txs == NarrowSpec.Drop(c, s, ind).1 <==>
              ind == 0 || s.prev < ind || s.txs == ind
    ensures 0 < ind <= s.prev ==> NarrowSpec.Drop(c, s, ind) == (s, ind)
  {
  }

  function AddMore<T>(c: nat, hash: (T, T) -> T, empty: T, s: State<T>, items: seq<T>): (r: State<T>)
    requires c >= 2
    ensures r.txs == s.txs + |items| && r.prev == s.prev
    decreases |items|
  {
    if items == [] then s
    else AddMore(c, hash, empty, NarrowSpec.Add(c, hash, empty, s, items[0]), items[1..])
  }

  /** After a drop that answers r, and any adds, a drop to an index from 1 to r is ignored: it answers
      the index asked for and leaves all the items. */
  lemma LaterDropsBelowAreIgnored<T>(c: nat, hash: (T, T) -> T, empty: T, s: State<T>, ind: nat, more: seq<T>, j: nat)
    requires c >= 2 && s.prev < ind <= s.txs && 0 < j <= NarrowSpec.Drop(c, s, ind).1
    ensures var later := AddMore(c, hash, empty, NarrowSpec.Drop(c, s, ind).0, more);
      j <= later.txs && NarrowSpec.Drop(c, later, j) == (later, j)
  {
  }

  /** An instance: after four adds with capacity 2 and a drop to 3, a drop to 2 answers 2 and keeps
      three items under the root of all three. */
  lemma SecondDropIsIgnored()
    ensures var plus := (a: int, b: int) => a + b;
            var (s', r) := NarrowSpec.Drop(2, AddAll(2, plus, 0, [1, 2, 3, 4]), 3);
      && r == 3 == s'.txs && NarrowSpec.Drop(2, s', 2) == (s', 2)
      && RootOf(s'.layers, 0) == Prefix(plus, 0, [1, 2, 3]) == 6
  {
    var plus := (a: int, b: int) => a + b;
    var items := [1, 2, 3, 4];
    PowZero(2);
    OvershootBound(2, plus, 0, items, 3, 0);
    assert items[..3] == [1, 2, 3];
    assert [1, 2, 3][..2] == [1, 2] && [1, 2][..1] == [1] && [1][..0] == [];
    assert Prefix(plus, 0, [1]) == 1;
    assert Prefix(plus, 0, [1, 2]) == 3;
  }

  // ---------- Layers and storage in every run ----------

  function NextPeak<T>(peak: nat, op: Op<T>, txs: nat): nat {
    if op == Op<T>.Drop(0) then 0 else if txs > peak then txs else peak
  }

  /** The most items the tree held since it was created or last cleared. */
  ghost function Peak<T>(c: nat, hash: (T, T) -> T, empty: T, ops: seq<Op<T>>): nat
    requires c >= 2 && Run(c, hash, empty, ops).Some?
    decreases |ops|
  {
    if ops == [] then 0
    else NextPeak(Peak(c, hash, empty, ops[..|ops| - 1]), ops[|ops| - 1], Run(c, hash, empty, ops).value.txs)
  }

  ghost predicate WithinPeak<T>(c: nat, s: State<T>, peak: nat)
    requires c >= 2
  {
    && |s.layers| >= 1 && s.txs <= peak
    && Pow(c, |s.layers| - 1) <= (if peak == 0 then 1 else peak) && peak < Pow(c, |s.layers|)
  }

  lemma {:induction false} RunWithinPeak<T>(c: nat, hash: (T, T) -> T, empty: T, ops: seq<Op<T>>)
    requires c >= 2 && Run(c, hash, empty, ops).Some?
    ensures WithinPeak(c, Run(c, hash, empty, ops).value, Peak(c, hash, empty, ops))
    decreases |ops|
  {
    hide RootOf, Prefix, Inv, Step, NextPeak;
    if ops == [] {
      PowZero(c);
    } else {
      var before := ops[..|ops| - 1];
      RunWithinPeak(c, hash, empty, before);
      RunIsExact(c, hash, empty, before);
      var (base, items) := Left(c, hash, empty, before);
      StepWithinPeak(c, hash, empty, Run(c, hash, empty, before).value, base, items, Peak(c, hash, empty, before),
                     ops[|ops| - 1]);
    }
  }

  lemma StepWithinPeak<T>(c: nat, hash: (T, T) -> T, empty: T, s: State<T>, base: nat, items: seq<T>, peak: nat,
        op: Op<T>)
    requires c >= 2 && Inv(c, hash, empty, s, base, items) && WithinPeak(c, s, peak)
    requires op.Drop? ==> op.ind <= s.txs
    ensures var s' := Step(c, hash, empty, s, op);
      WithinPeak(c, s', NextPeak(peak, op, s'.txs))
  {
    hide Inv, Pow, NarrowSpec.Add, NarrowSpec.Drop;
    PowZero(c);
    match op {
      case Add(t) => AddedSizes(c, hash, empty, s, base, items, t, |s.layers|);
      case Drop(ind) => DropShrinks(c, hash, empty, s, base, items, ind);
    }
  }

  lemma DropShrinks<T>(c: nat, hash: (T, T) -> T, empty: T, s: State<T>, base: nat, items: seq<T>, ind: nat)
    requires c >= 2 && Inv(c, hash, empty, s, base, items) && ind <= s.txs
    ensures var s' := NarrowSpec.Drop(c, s, ind).0;
      s'.txs <= s.txs && if ind > 0 then |s'.layers| == |s.layers| else s' == Init()
  {
    hide Inv, RootOf, Prefix, HasCheckpoint, Held, AllEmpty;
    if s.prev < ind {
      DropIsOptimal(c, hash, empty, s, base, items, ind);
    }
  }

  /** In every run, drops included, there are exactly as many layers as the height of the peak, one at
      least, and at most c hashes in each. */
  lemma StorageInEveryRun<T>(c: nat, hash: (T, T) -> T, empty: T, ops: seq<Op<T>>)
    requires c >= 2 && Run(c, hash, empty, ops).Some?
    ensures var s, peak := Run(c, hash, empty, ops).value, Peak(c, hash, empty, ops);
            var h := if peak == 0 then 1 else Height(c, peak);
      |s.layers| == h && Stored(s.layers) <= c * h
  {
    hide Pow, Inv, Run, Peak, Stored, RootOf, Prefix, Height, Left;
    RunWithinPeak(c, hash, empty, ops);
    RunIsExact(c, hash, empty, ops);
    var s, peak := Run(c, hash, empty, ops).value, Peak(c, hash, empty, ops);
    LayersAreHeight(c, |s.layers|, peak);
    LayersBounded(c, hash, empty, s, Left(c, hash, empty, ops).0, Left(c, hash, empty, ops).1);
    StoredBound(s.layers, c);
    MulMonotone(c, |s.layers|, if peak == 0 then 1 else Height(c, peak));
  }

  lemma LayersBounded<T>(c: nat, hash: (T, T) -> T, empty: T, s: State<T>, base: nat, items: seq<T>)
    requires c >= 2 && Inv(c, hash, empty, s, base, items)
    ensures forall k :: 0 <= k < |s.layers| ==> |s.layers[k]| <= c
  {
    forall k | 0 <= k < |s.layers|
      ensures |s.layers[k]| <= c
    {
      assert LayerOk(c, hash, empty, base, items, s.txs, Pow(c, k), s.layers[k]);
    }
  }

  lemma LayersAreHeight(c: nat, m: nat, peak: nat)
    requires c >= 2 && m >= 1 && Pow(c, m - 1) <= (if peak == 0 then 1 else peak) && peak < Pow(c, m)
    ensures m == if peak == 0 then 1 else Height(c, peak)
  {
    PowIncreasing(c, 0, m - 1);
    if peak > 0 {
      HeightIs(c, peak, m);
    }
  }

  /** No spacing overflows a word of w values, and the count of a drop modulo w is the number of
      multiples of cap above ind. */
  ghost predicate CountsRight(c: nat, n: nat, ind: nat, cap: nat, w: nat)
    requires cap >= 1 && w >= 1
  {
    && cap * c < w
    && ((n / cap * cap - ind) % w + cap - 1) % w / cap == n / cap - ind / cap
  }

  /** The counts `drop` computes never suffer from wrap-around: while the capacity and the capacity
      times the peak are below w, this holds of every layer it visits. */
  lemma DropCountsNeverWrap<T>(c: nat, hash: (T, T) -> T, empty: T, ops: seq<Op<T>>, ind: nat, k: nat, w: nat)
    requires c >= 2 && Run(c, hash, empty, ops).Some?
    requires ind <= Run(c, hash, empty, ops).value.txs && k < |Run(c, hash, empty, ops).value.layers|
    requires c < w && c * Peak(c, hash, empty, ops) < w
    ensures CountsRight(c, Run(c, hash, empty, ops).value.txs, ind, Pow(c, k), w)
  {
    hide Run, Peak, Pow, CountsRight;
    RunWithinPeak(c, hash, empty, ops);
    var s := Run(c, hash, empty, ops).value;
    PowMonotone(c, k, |s.layers| - 1);
    CountsFit(c, s.txs, ind, Pow(c, k), Peak(c, hash, empty, ops), w);
  }

  lemma CountsFit(c: nat, n: nat, ind: nat, cap: nat, peak: nat, w: nat)
    requires c >= 2 && 1 <= cap <= (if peak == 0 then 1 else peak) && ind <= n <= peak && c < w && c * peak < w
    ensures CountsRight(c, n, ind, cap, w)
  {
    SpacingFits(c, n, cap, peak, w);
    NarrowMerkleTree.CountWrapped(n, ind, cap, w);
  }

  lemma SpacingFits(c: nat, n: nat, cap: nat, peak: nat, w: nat)
    requires c >= 2 && n <= peak && cap <= (if peak == 0 then 1 else peak) && c < w && c * peak < w
    ensures cap * c < w && n + cap <= w
  {
    MulMonotone(c, cap, if peak == 0 then 1 else peak);
    MulMonotone(peak, 2, c);
  }

  // ---------- Runs that only add ----------

  function AddAll<T>(c: nat, hash: (T, T) -> T, empty: T, items: seq<T>): (s: State<T>)
    requires c >= 2
    ensures s.txs == |items| && s.prev == 0
    decreases |items|
  {
    if items == [] then Init()
    else NarrowSpec.Add(c, hash, empty, AddAll(c, hash, empty, items[..|items| - 1]), items[|items| - 1])
  }

  /** The sizes of the layers after n adds. */
  ghost predicate Exact<T>(c: nat, s: State<T>)
    requires c >= 2
  {
    && |s.layers| == (if s.txs == 0 then 1 else Height(c, s.txs))
    && forall k :: 0 <= k < |s.layers| ==> |s.layers[k]| == Min(c, s.txs / Pow(c, k))
  }

  lemma ExactStep<T>(c: nat, hash: (T, T) -> T, empty: T, s: State<T>, base: nat, items: seq<T>, t: T)
    requires c >= 2 && Inv(c, hash, empty, s, base, items) && Exact(c, s)
    ensures Exact(c, NarrowSpec.Add(c, hash, empty, s, t))
  {
    hide Pow, Inv, RootOf, Height, Grown;
    BottomHeight(c, hash, empty, s, base, items);
    var n, r := s.txs + 1, NarrowSpec.Add(c, hash, empty, s, t);
    var g := Grown(c, s.layers, n);
    forall k | 0 <= k < |g|
      ensures |r.layers[k]| == Min(c, n / Pow(c, k))
    {
      NextQuotient(s.txs, Pow(c, k));
      if k >= |s.layers| {
        assert g[k] == [];
      }
    }
  }

  /** The layer count follows the height, and a layer that is added starts below its first multiple. */
  lemma BottomHeight<T>(c: nat, hash: (T, T) -> T, empty: T, s: State<T>, base: nat, items: seq<T>)
    requires c >= 2 && Inv(c, hash, empty, s, base, items) && Exact(c, s)
    ensures var g := Grown(c, s.layers, s.txs + 1);
      && |g| == Height(c, s.txs + 1)
      && (forall k :: 0 <= k < |s.layers| ==> g[k] == s.layers[k])
      && (forall k :: |s.layers| <= k < |g| ==> g[k] == [] && s.txs / Pow(c, k) == 0)
  {
    hide Pow, Height, Grown, LayerOk, LowestExact, AllEmpty;
    var n, m := s.txs + 1, |s.layers|;
    PowZero(c);
    PowIncreasing(c, 0, 1);
    GrowsAtPower(c, s.layers, s.txs);
    HeightBounds(c, s.txs);
    if n == Pow(c, m) {
      HeightIs(c, n, m + 1);
      PowIncreasing(c, m, m + 1);
      DivUnique(s.txs, Pow(c, m), 0, s.txs);
    } else if s.txs == 0 {
      HeightIs(c, 1, 1);
    } else {
      HeightIs(c, n, m);
    }
  }

  /** With adds alone layer k holds exactly the last min(c, n / c^k) multiples of c^k, and there are as
      many layers as the height, one at least. */
  lemma {:induction false} AddOnlyIsExact<T>(c: nat, hash: (T, T) -> T, empty: T, items: seq<T>)
    requires c >= 2
    ensures var s := AddAll(c, hash, empty, items);
      Inv(c, hash, empty, s, 0, items) && Exact(c, s)
    decreases |items|
  {
    hide Inv, Height, Grown;
    if items == [] {
      InitInv(c, hash, empty);
      DivUnique(0, Pow(c, 0), 0, 0);
    } else {
      var before := items[..|items| - 1];
      AddOnlyIsExact(c, hash, empty, before);
      var s := AddAll(c, hash, empty, before);
      AddKeepsInv(c, hash, empty, s, 0, before, items[|items| - 1]);
      ExactStep(c, hash, empty, s, 0, before, items[|items| - 1]);
      assert before + [items[|items| - 1]] == items;
    }
  }

  function Stored<T>(layers: seq<seq<T>>): nat {
    if layers == [] then 0 else |layers[0]| + Stored(layers[1..])
  }

  lemma {:induction false} StoredBound<T>(layers: seq<seq<T>>, c: nat)
    requires forall k :: 0 <= k < |layers| ==> |layers[k]| <= c
    ensures Stored(layers) <= c * |layers|
  {
    if layers != [] {
      StoredBound(layers[1..], c);
      assert c * |layers| == c + c * |layers[1..]|;
    }
  }

  /** Memory is logarithmic: n adds keep at most c hashes for each of the Height(n) layers, where
      c^(Height(n) - 1) <= n. */
  lemma StorageIsLogarithmic<T>(c: nat, hash: (T, T) -> T, empty: T, items: seq<T>)
    requires c >= 2 && items != []
    ensures var n, s := |items|, AddAll(c, hash, empty, items);
      && Height(c, n) >= 1 && Pow(c, Height(c, n) - 1) <= n < Pow(c, Height(c, n))
      && Stored(s.layers) <= c * Height(c, n)
  {
    hide Inv, AddAll, Pow, Height, Stored;
    AddOnlyIsExact(c, hash, empty, items);
    HeightBounds(c, |items|);
    StoredBound(AddAll(c, hash, empty, items).layers, c);
  }

  // ---------- The least index a drop of an add-only run can serve ----------

  /** The least position held after n adds. The top layer holds one power of the capacity, and up to
      c - 1 multiples of it; the layer below it holds the last c multiples of the power before. */
  function Threshold(c: nat, n: nat): int
    requires c >= 2 && n >= 1
  {
    var top := Height(c, n) - 1;
    if top <= 0 then 1
    else
      var cap := Pow(c, top - 1);
      Min(Pow(c, top), (n / cap - c + 1) * cap)
  }

  /** The oldest position of each layer after adds alone. */
  lemma OldestAt<T>(c: nat, s: State<T>, k: nat)
    requires c >= 2 && Exact(c, s) && s.txs >= 1 && k < |s.layers|
    ensures |s.layers| == Height(c, s.txs) && s.layers[k] != []
    ensures k == |s.layers| - 1 ==> Oldest(c, s, k) == Pow(c, k)
    ensures k < |s.layers| - 1 ==> Oldest(c, s, k) == (s.txs / Pow(c, k) - c + 1) * Pow(c, k)
  {
    hide Height, Pow;
    var n, top := s.txs, |s.layers| - 1;
    HeightBounds(c, n);
    PowMonotone(c, k, top);
    DivGreatest(n, Pow(c, k), 1);
    PowNext(c, k);
    DivGreatest(n, Pow(c, k), c);
    if k < top {
      PowMonotone(c, k + 1, top);
    }
  }

  lemma ThresholdIsOldest<T>(c: nat, s: State<T>) returns (k: nat)
    requires c >= 2 && Exact(c, s) && s.txs >= 1
    ensures k < |s.layers| && Threshold(c, s.txs) == Oldest(c, s, k)
  {
    hide Height, Pow, Oldest, Exact;
    HeightIsLayers(c, s);
    PowZero(c);
    k := |s.layers| - 1;
    OldestAt(c, s, k);
    if k > 0 {
      OldestAt(c, s, k - 1);
      if Oldest(c, s, k - 1) < Oldest(c, s, k) {
        k := k - 1;
      }
    }
  }

  lemma HeightIsLayers<T>(c: nat, s: State<T>)
    requires c >= 2 && Exact(c, s) && s.txs >= 1
    ensures |s.layers| == Height(c, s.txs) >= 1
  {
    HeightBounds(c, s.txs);
  }

  lemma OldestAtLeast<T>(c: nat, s: State<T>, k: nat)
    requires c >= 2 && Exact(c, s) && s.txs >= 1 && k < |s.layers|
    ensures Threshold(c, s.txs) <= Oldest(c, s, k)
  {
    hide Height, Pow, Oldest, Exact;
    HeightIsLayers(c, s);
    PowZero(c);
    var top := |s.layers| - 1;
    OldestAt(c, s, k);
    if k < top - 1 {
      PowNext(c, k);
      PowMonotone(c, k + 1, top - 1);
      OldestOrder(c, s.txs, Pow(c, k), Pow(c, top - 1));
    }
  }

  /** Of two layers that are both cut to c hashes, the coarser one reaches further back. */
  lemma OldestOrder(c: nat, n: nat, small: nat, large: nat)
    requires c >= 2 && small >= 1 && small * c <= large
    ensures (n / large - c + 1) * large <= (n / small - c + 1) * small
  {
    DivBounds(n, large);
    DivBounds(n, small);
    MulMonotone(large, 1, c - 1);
    assert (n / large - c + 1) * large == n / large * large - (c - 1) * large;
    assert (n / small - c + 1) * small == n / small * small - c * small + small;
  }

  /** After adds alone a drop finds a checkpoint exactly when the index is at least the threshold. */
  lemma CheckpointAfterAdds<T>(c: nat, hash: (T, T) -> T, empty: T, items: seq<T>, ind: nat)
    requires c >= 2 && items != []
    ensures HasCheckpoint(c, AddAll(c, hash, empty, items), ind) <==> Threshold(c, |items|) <= ind
  {
    hide AddAll, Inv, Exact, Oldest, Threshold, Pow;
    AddOnlyIsExact(c, hash, empty, items);
    var s := AddAll(c, hash, empty, items);
    var k := ThresholdIsOldest(c, s);
    OldestAt(c, s, k);
    forall j | 0 <= j < |s.layers|
      ensures Threshold(c, s.txs) <= Oldest(c, s, j)
    {
      OldestAtLeast(c, s, j);
    }
  }

  // ---------- How far a drop falls back ----------

  /** How far a drop overshoots: dropping at most (c - 1) * c^k items, down to c^k or above, ends less
      than c^k below the index asked for. With k == 0 the drop is exact. */
  lemma OvershootBound<T>(c: nat, hash: (T, T) -> T, empty: T, items: seq<T>, ind: nat, k: nat)
    requires c >= 2 && ind <= |items| && Pow(c, k) <= ind && |items| - ind <= (c - 1) * Pow(c, k)
    ensures var s := AddAll(c, hash, empty, items);
            var (s', r) := NarrowSpec.Drop(c, s, ind);
      && ind - Pow(c, k) < r <= ind <= |items|
      && RootOf(s'.layers, empty) == Prefix(hash, empty, items[..r])
  {
    hide Inv, RootOf, Prefix, HasCheckpoint, NarrowSpec.Drop, DropLayers, AddAll, Pow, Exact, Held;
    AddOnlyIsExact(c, hash, empty, items);
    var s := AddAll(c, hash, empty, items);
    RoundDownTwice(c, ind, k, k);
    DivBounds(ind, Pow(c, k));
    NearbyMultipleHeld(c, s, ind, k);
    HeldGivesCheckpoint(c, s, ind, k, ind / Pow(c, k) * Pow(c, k));
    DropIsOptimal(c, hash, empty, s, 0, items, ind);
  }

  lemma NearbyMultipleHeld<T>(c: nat, s: State<T>, ind: nat, k: nat)
    requires c >= 2 && Exact(c, s) && ind <= s.txs && Pow(c, k) <= ind && s.txs - ind <= (c - 1) * Pow(c, k)
    ensures Held(c, s, k, ind / Pow(c, k) * Pow(c, k))
  {
    LayerExists(c, s, k);
    hide Pow, Height;
    var cap := Pow(c, k);
    RoundDownTwice(c, ind, k, k);
    DivGreatest(ind, cap, 1);
    DivMonotone(ind, s.txs, cap);
    LessThanCapacityRemoved(s.txs, ind, cap, c);
  }

  lemma LayerExists<T>(c: nat, s: State<T>, k: nat)
    requires c >= 2 && Exact(c, s) && Pow(c, k) <= s.txs
    ensures k < |s.layers|
  {
    HeightBounds(c, s.txs);
    if Height(c, s.txs) <= k {
      PowMonotone(c, Height(c, s.txs), k);
    }
  }

  lemma LessThanCapacityRemoved(n: nat, ind: nat, cap: nat, c: nat)
    requires cap >= 1 && c >= 1 && ind <= n && n - ind <= (c - 1) * cap
    ensures n / cap - ind / cap <= c - 1
  {
    DivBounds(n, cap);
    DivBounds(ind, cap);
    DivGreatest(ind, cap, n / cap - (c - 1));
    assert (n / cap - (c - 1)) * cap == n / cap * cap - (c - 1) * cap;
  }

  lemma HeldGivesCheckpoint<T>(c: nat, s: State<T>, ind: nat, k: nat, pos: nat)
    requires c >= 2 && Held(c, s, k, pos) && pos <= ind
    ensures HasCheckpoint(c, s, ind)
  {
    hide Pow;
    var cap := Pow(c, k);
    DivBounds(pos, cap);
    MulMonotone(cap, s.txs / cap - |s.layers[k]| + 1, pos / cap);
    assert Oldest(c, s, k) <= ind;
  }

  /** The documented promise fails below every checkpoint: after eight adds with capacity 2 and
      addition as the hash, drop(1) answers 1 but leaves the root of an empty tree. */
  lemma DropBelowCheckpoints()
    ensures var plus := (a: int, b: int) => a + b;
            var items := [1, 2, 3, 4, 5, 6, 7, 8];
            var (s', r) := NarrowSpec.Drop(2, AddAll(2, plus, 0, items), 1);
      r == 1 && RootOf(s'.layers, 0) == 0 && Prefix(plus, 0, items[..1]) == 1
  {
    var plus := (a: int, b: int) => a + b;
    var items := [1, 2, 3, 4, 5, 6, 7, 8];
    hide AddAll, Exact, Inv, Oldest, NarrowSpec.Drop, RootOf, Held;
    AddOnlyIsExact(2, plus, 0, items);
    var s := AddAll(2, plus, 0, items);
    forall k | 0 <= k < |s.layers|
      ensures Oldest(2, s, k) > 1
    {
      OldestOfEight(s, k);
    }
    DropIsOptimal(2, plus, 0, s, 0, items, 1);
    assert items[..1] == [1];
    assert Prefix(plus, 0, [1]) == plus(Prefix(plus, 0, []), 1);
  }

  lemma OldestOfEight(s: State<int>, k: nat)
    requires Exact(2, s) && s.txs == 8 && k < |s.layers|
    ensures Oldest(2, s, k) > 1
  {
    assert Pow(2, 1) == 2 && Pow(2, 2) == 4 && Pow(2, 3) == 8 && Pow(2, 4) == 16;
    HeightIs(2, 8, 4);
  }

  /** Beyond the end: after four adds with capacity 2, drop(8) answers 8, the count is then 8, and the
      root is that of an empty tree. */
  lemma DropBeyondForgets()
    ensures var plus := (a: int, b: int) => a + b;
            var (s', r) := NarrowSpec.Drop(2, AddAll(2, plus, 0, [1, 2, 3, 4]), 8);
      r == 8 == s'.txs && RootOf(s'.layers, 0) == 0
  {
    var plus := (a: int, b: int) => a + b;
    var items := [1, 2, 3, 4];
    AddOnlyIsExact(2, plus, 0, items);
    var s := AddAll(2, plus, 0, items);
    assert Pow(2, 1) == 2 && Pow(2, 2) == 4 && Pow(2, 3) == 8;
    HeightIs(2, 4, 3);
    assert |s.layers| == 3;
    forall k | 0 <= k < 3
      ensures 8 / Pow(2, k) != s.txs / Pow(2, k)
    {
      assert k == 0 || k == 1 || k == 2;
    }
    DropBeyond(2, plus, 0, s, 0, items, 8);
  }
}
