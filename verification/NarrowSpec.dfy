/** The checkpoint layers of the narrow tree as values: what one add or drop does to them, and the
    invariant that ties every stored hash to a prefix of the items. */
module NarrowSpec {
  import opened Arith
  import opened CircularStack

  /** The running hash of the items, from the left. */
  function Prefix<T>(hash: (T, T) -> T, empty: T, items: seq<T>): T
    decreases |items|
  {
    if items == [] then empty else hash(Prefix(hash, empty, items[..|items| - 1]), items[|items| - 1])
  }

  /** layers[k] is the ring buffer of layer k; txs counts the items; prev is the last drop. */
  datatype State<T> = State(layers: seq<seq<T>>, txs: nat, prev: nat)

  function Init<T>(): State<T> {
    State([[]], 0, 0)
  }

  /** Smallest h with n < c^h. */
  function Height(c: nat, n: nat): nat
    requires c >= 2
  {
    if n == 0 then 0 else 1 + Height(c, n / c)
  }

  lemma {:induction false} HeightBounds(c: nat, n: nat)
    requires c >= 2
    ensures n < Pow(c, Height(c, n))
    ensures n > 0 ==> Height(c, n) >= 1 && Pow(c, Height(c, n) - 1) <= n
  {
    if n > 0 {
      DivBounds(n, c);
      HeightBounds(c, n / c);
      HeightStep(c, n, n / c, Height(c, n / c));
    }
  }

  lemma HeightStep(c: nat, n: nat, m: nat, h: nat)
    requires c >= 1 && n > 0 && m * c <= n < m * c + c
    requires m < Pow(c, h) && (if m > 0 then h >= 1 && Pow(c, h - 1) <= m else h == 0)
    ensures Pow(c, h) <= n < Pow(c, h + 1)
  {
    hide Pow;
    PowNext(c, h);
    MulMonotone(c, m + 1, Pow(c, h));
    PowZero(c);
    if m > 0 {
      PowNext(c, h - 1);
      MulMonotone(c, Pow(c, h - 1), m);
    }
  }

  /** Height is the only number with those bounds. */
  lemma HeightIs(c: nat, n: nat, h: nat)
    requires c >= 2
    requires n < Pow(c, h) && (h > 0 ==> Pow(c, h - 1) <= n)
    ensures Height(c, n) == h
  {
    HeightBounds(c, n);
    var g := Height(c, n);
    if g < h {
      PowMonotone(c, g, h - 1);
    } else if h < g {
      PowMonotone(c, h, g - 1);
    }
  }

  /** The back of the lowest layer that holds anything. */
  function RootOf<T>(layers: seq<seq<T>>, empty: T): T {
    if layers == [] then empty
    else if layers[0] != [] then layers[0][|layers[0]| - 1]
    else RootOf(layers[1..], empty)
  }

  function Grown<T>(c: nat, layers: seq<seq<T>>, n: nat): (r: seq<seq<T>>)
    requires c >= 1 && n >= 1 && (n > 1 ==> c >= 2)
    ensures |r| >= |layers|
  {
    if n != 1 && Height(c, n) > Height(c, n - 1) && Height(c, n) > |layers| then layers + [[]] else layers
  }

  /** Layer k receives the n-th prefix hash v when c^k divides n. */
  function AddLayers<T>(c: nat, layers: seq<seq<T>>, n: nat, v: T): (r: seq<seq<T>>)
    requires c >= 1 && n >= 1 && (n > 1 ==> c >= 2)
    ensures |r| == |Grown(c, layers, n)|
  {
    var g := Grown(c, layers, n);
    seq(|g|, k requires 0 <= k < |g| => if n % Pow(c, k) == 0 then PushBounded(g[k], v, c) else g[k])
  }

  function Add<T>(c: nat, hash: (T, T) -> T, empty: T, s: State<T>, t: T): State<T>
    requires c >= 1 && (s.txs > 0 ==> c >= 2)
  {
    State(AddLayers(c, s.layers, s.txs + 1, hash(RootOf(s.layers, empty), t)), s.txs + 1, s.prev)
  }

  /** Layer k loses one hash for each multiple of c^k above ind. */
  function DropLayers<T>(c: nat, layers: seq<seq<T>>, n: nat, ind: nat): (r: seq<seq<T>>)
    requires c >= 1
    ensures |r| == |layers|
  {
    if ind > n then LayersBeyond(c, layers, n, ind)
    else seq(|layers|, k requires 0 <= k < |layers| => PopNewest(layers[k], DropCount(c, k, n, ind)))
  }

  /** An index beyond n empties every layer in which it lies in a later interval than n; the others are
      left alone. */
  function LayersBeyond<T>(c: nat, layers: seq<seq<T>>, n: nat, ind: nat): (r: seq<seq<T>>)
    requires c >= 1
    ensures |r| == |layers|
  {
    seq(|layers|, k requires 0 <= k < |layers| => if ind / Pow(c, k) == n / Pow(c, k) then layers[k] else [])
  }

  function DropCount(c: nat, k: nat, n: nat, ind: nat): nat
    requires c >= 1 && ind <= n
  {
    DivMonotone(ind, n, Pow(c, k));
    n / Pow(c, k) - ind / Pow(c, k)
  }

  /** The newest position the lowest nonempty layer (from layer k on) holds; ind when all are empty. */
  function Target<T>(c: nat, layers: seq<seq<T>>, ind: nat, k: nat): nat
    requires c >= 1 && k <= |layers|
    decreases |layers| - k
  {
    if k == |layers| then ind
    else if layers[k] != [] then ind / Pow(c, k) * Pow(c, k)
    else Target(c, layers, ind, k + 1)
  }

  function Drop<T>(c: nat, s: State<T>, ind: nat): (State<T>, nat)
    requires c >= 1
  {
    if ind == 0 then (Init(), 0)
    else if s.prev >= ind then (s, ind)
    else
      var layers := DropLayers(c, s.layers, s.txs, ind);
      var r := Target(c, layers, ind, 0);
      (State(layers, r, r), r)
  }

  // ---------- The invariant ----------

  /** v is the running hash at position m * cap, of the items after `base`. */
  ghost predicate EntryOk<T>(hash: (T, T) -> T, empty: T, base: nat, items: seq<T>, v: T, cap: nat, m: nat) {
    var pos := m * cap;
    base < pos <= base + |items| && v == Prefix(hash, empty, items[..pos - base])
  }

  /** A layer with spacing cap holds the running hashes of a contiguous run of multiples of cap; the
      newest one is the e-th multiple. */
  ghost predicate RunOk<T>(c: nat, hash: (T, T) -> T, empty: T, base: nat, items: seq<T>, cap: nat, e: nat,
        layer: seq<T>) {
    && |layer| <= c && |layer| <= e
    && forall j :: 0 <= j < |layer| ==> EntryOk(hash, empty, base, items, layer[j], cap, e - |layer| + 1 + j)
  }

  /** The run of a layer ends at the last multiple of its spacing that is not above txs. */
  ghost predicate LayerOk<T>(c: nat, hash: (T, T) -> T, empty: T, base: nat, items: seq<T>, txs: nat, cap: nat,
        layer: seq<T>)
    requires cap >= 1
  {
    RunOk(c, hash, empty, base, items, cap, txs / cap, layer)
  }

  ghost predicate LowestExact<T>(c: nat, layers: seq<seq<T>>, txs: nat)
    requires c >= 2
  {
    forall k :: 0 <= k < |layers| && layers[k] != [] && (forall i :: 0 <= i < k ==> layers[i] == []) ==>
      txs % Pow(c, k) == 0
  }

  ghost predicate AllEmpty<T>(layers: seq<seq<T>>) {
    forall k :: 0 <= k < |layers| ==> layers[k] == []
  }

  /** `base` is the number of oldest items whose hash was lost by a drop below every checkpoint; it
      is 0 as long as no such drop happened. `items` are the surviving items after those. */
  ghost predicate Inv<T>(c: nat, hash: (T, T) -> T, empty: T, s: State<T>, base: nat, items: seq<T>)
    requires c >= 2
  {
    && |s.layers| >= 1 && s.txs < Pow(c, |s.layers|)
    && s.txs == base + |items| && s.prev <= s.txs
    && (forall k :: 0 <= k < |s.layers| ==> LayerOk(c, hash, empty, base, items, s.txs, Pow(c, k), s.layers[k]))
    && LowestExact(c, s.layers, s.txs)
    && (AllEmpty(s.layers) ==> items == [])
  }

  lemma LowestLayer<T>(layers: seq<seq<T>>) returns (k: nat)
    requires !AllEmpty(layers)
    ensures k < |layers| && layers[k] != [] && forall i :: 0 <= i < k ==> layers[i] == []
  {
    k := 0;
    while layers[k] == []
      invariant k < |layers| && forall i :: 0 <= i < k ==> layers[i] == []
      decreases |layers| - k
    {
      k := k + 1;
    }
  }

  lemma {:induction false} RootOfLowest<T>(layers: seq<seq<T>>, empty: T, k: nat)
    requires k < |layers| && layers[k] != [] && forall i :: 0 <= i < k ==> layers[i] == []
    ensures RootOf(layers, empty) == layers[k][|layers[k]| - 1]
    decreases |layers|
  {
    if k > 0 {
      RootOfLowest(layers[1..], empty, k - 1);
    }
  }

  lemma {:induction false} RootOfEmpty<T>(layers: seq<seq<T>>, empty: T)
    requires AllEmpty(layers)
    ensures RootOf(layers, empty) == empty
    decreases |layers|
  {
    if layers != [] {
      RootOfEmpty(layers[1..], empty);
    }
  }

  /** The root is the running hash of all surviving items. */
  lemma RootIsPrefix<T>(c: nat, hash: (T, T) -> T, empty: T, s: State<T>, base: nat, items: seq<T>)
    requires c >= 2 && Inv(c, hash, empty, s, base, items)
    ensures RootOf(s.layers, empty) == Prefix(hash, empty, items)
  {
    if AllEmpty(s.layers) {
      RootOfEmpty(s.layers, empty);
    } else {
      var k := LowestLayer(s.layers);
      RootOfLowest(s.layers, empty, k);
      var cap, layer := Pow(c, k), s.layers[k];
      assert LayerOk(c, hash, empty, base, items, s.txs, cap, layer);
      assert s.txs % cap == 0;
      DivBounds(s.txs, cap);
      assert EntryOk(hash, empty, base, items, layer[|layer| - 1], cap, s.txs / cap);
      assert items[..s.txs - base] == items;
    }
  }

  lemma InitInv<T>(c: nat, hash: (T, T) -> T, empty: T)
    requires c >= 2
    ensures Inv(c, hash, empty, Init<T>(), 0, [])
  {
    assert Pow(c, 1) == c * Pow(c, 0);
    DivUnique(0, Pow(c, 0), 0, 0);
  }

  // ---------- Adding keeps the invariant ----------

  lemma EntryLater<T>(hash: (T, T) -> T, empty: T, base: nat, items: seq<T>, t: T, v: T, cap: nat, m: nat)
    requires EntryOk(hash, empty, base, items, v, cap, m)
    ensures EntryOk(hash, empty, base, items + [t], v, cap, m)
  {
    assert (items + [t])[..m * cap - base] == items[..m * cap - base];
  }

  lemma RunLater<T>(c: nat, hash: (T, T) -> T, empty: T, base: nat, items: seq<T>, t: T, cap: nat, e: nat,
        layer: seq<T>)
    requires RunOk(c, hash, empty, base, items, cap, e, layer)
    ensures RunOk(c, hash, empty, base, items + [t], cap, e, layer)
  {
    forall j | 0 <= j < |layer|
      ensures EntryOk(hash, empty, base, items + [t], layer[j], cap, e - |layer| + 1 + j)
    {
      EntryLater(hash, empty, base, items, t, layer[j], cap, e - |layer| + 1 + j);
    }
  }

  lemma RunPush<T>(c: nat, hash: (T, T) -> T, empty: T, base: nat, items: seq<T>, cap: nat, e: nat, layer: seq<T>, v: T)
    requires c >= 2 && RunOk(c, hash, empty, base, items, cap, e, layer)
    requires EntryOk(hash, empty, base, items, v, cap, e + 1)
    ensures RunOk(c, hash, empty, base, items, cap, e + 1, PushBounded(layer, v, c))
  {
    var r := PushBounded(layer, v, c);
    forall j | 0 <= j < |r|
      ensures EntryOk(hash, empty, base, items, r[j], cap, e + 1 - |r| + 1 + j)
    {
      if j < |r| - 1 {
        var i := if |layer| < c then j else j + 1;
        assert r[j] == layer[i] && e - |layer| + 1 + i == e + 1 - |r| + 1 + j;
        assert EntryOk(hash, empty, base, items, layer[i], cap, e - |layer| + 1 + i);
      }
    }
  }

  lemma EntryForAll<T>(hash: (T, T) -> T, empty: T, base: nat, items: seq<T>, cap: nat, m: nat)
    requires items != [] && m * cap == base + |items|
    ensures EntryOk(hash, empty, base, items, Prefix(hash, empty, items), cap, m)
  {
    assert items[..m * cap - base] == items;
  }

  /** A layer whose spacing divides the new count takes the new hash; the others stay right. */
  lemma LayerStep<T>(c: nat, hash: (T, T) -> T, empty: T, base: nat, items: seq<T>, t: T, cap: nat, layer: seq<T>)
    requires c >= 2 && cap >= 1 && LayerOk(c, hash, empty, base, items, base + |items|, cap, layer)
    ensures var n, v := base + |items| + 1, Prefix(hash, empty, items + [t]);
            LayerOk(c, hash, empty, base, items + [t], n, cap, if n % cap == 0 then PushBounded(layer, v, c) else layer)
  {
    hide RunOk, Prefix, PushBounded;
    NextQuotient(base + |items|, cap);
    RunStep(c, hash, empty, base, items, t, cap, (base + |items|) / cap, layer);
  }

  lemma RunStep<T>(c: nat, hash: (T, T) -> T, empty: T, base: nat, items: seq<T>, t: T, cap: nat, e: nat, layer: seq<T>)
    requires c >= 2 && RunOk(c, hash, empty, base, items, cap, e, layer)
    ensures RunOk(c, hash, empty, base, items + [t], cap, e, layer)
    ensures (e + 1) * cap == base + |items| + 1 ==>
              RunOk(c, hash, empty, base, items + [t], cap, e + 1, PushBounded(layer, Prefix(hash, empty,
                    items + [t]), c))
  {
    hide RunOk, EntryOk, Prefix, PushBounded;
    RunLater(c, hash, empty, base, items, t, cap, e, layer);
    if (e + 1) * cap == base + |items| + 1 {
      EntryForAll(hash, empty, base, items + [t], cap, e + 1);
      RunPush(c, hash, empty, base, items + [t], cap, e, layer, Prefix(hash, empty, items + [t]));
    }
  }

  /** A layer is added exactly when the new count reaches the next power of the capacity. */
  lemma GrowsAtPower<T>(c: nat, layers: seq<seq<T>>, n: nat)
    requires c >= 2 && |layers| >= 1 && n < Pow(c, |layers|)
    ensures Grown(c, layers, n + 1) == if n + 1 == Pow(c, |layers|) then layers + [[]] else layers
    ensures n + 1 < Pow(c, |Grown(c, layers, n + 1)|)
  {
    hide Pow, Height;
    var m := |layers|;
    PowZero(c);
    HeightBounds(c, n + 1);
    HeightBounds(c, n);
    PowIncreasing(c, 0, m);
    PowIncreasing(c, m, m + 1);
    if n + 1 == Pow(c, m) {
      HeightIs(c, n + 1, m + 1);
      if Height(c, n) > m {
        PowMonotone(c, m, Height(c, n) - 1);
      }
    } else if Height(c, n + 1) > m {
      PowMonotone(c, m, Height(c, n + 1) - 1);
    }
  }

  lemma AddLayersOk<T>(c: nat, hash: (T, T) -> T, empty: T, s: State<T>, base: nat, items: seq<T>, t: T)
    requires c >= 2 && Inv(c, hash, empty, s, base, items)
    ensures var n, v := s.txs + 1, Prefix(hash, empty, items + [t]);
            var r := AddLayers(c, s.layers, n, v);
      forall k :: 0 <= k < |r| ==> LayerOk(c, hash, empty, base, items + [t], n, Pow(c, k), r[k])
  {
    hide LayerOk, LowestExact, AllEmpty, Prefix, Pow, Grown;
    var n, v := s.txs + 1, Prefix(hash, empty, items + [t]);
    var g, r := Grown(c, s.layers, n), AddLayers(c, s.layers, n, v);
    forall k | 0 <= k < |r|
      ensures LayerOk(c, hash, empty, base, items + [t], n, Pow(c, k), r[k])
    {
      GrownLayerOk(c, hash, empty, s, base, items, k);
      LayerStep(c, hash, empty, base, items, t, Pow(c, k), g[k]);
    }
  }

  lemma AddKeepsInv<T>(c: nat, hash: (T, T) -> T, empty: T, s: State<T>, base: nat, items: seq<T>, t: T)
    requires c >= 2 && Inv(c, hash, empty, s, base, items)
    ensures Inv(c, hash, empty, Add(c, hash, empty, s, t), base, items + [t])
  {
    hide LayerOk, LowestExact, Pow, Grown, AddLayers, RootOf;
    RootIsPrefix(c, hash, empty, s, base, items);
    var v := hash(RootOf(s.layers, empty), t);
    assert (items + [t])[..|items|] == items;
    assert v == Prefix(hash, empty, items + [t]);
    AddLayersOk(c, hash, empty, s, base, items, t);
    GrowsAtPower(c, s.layers, s.txs);
    BottomTakesAll(c, s.layers, s.txs + 1, v);
  }

  lemma EmptyLayerOk<T>(c: nat, hash: (T, T) -> T, empty: T, base: nat, items: seq<T>, txs: nat, cap: nat)
    requires cap >= 1
    ensures LayerOk(c, hash, empty, base, items, txs, cap, [])
  {
    DivGreatest(txs, cap, 0);
  }

  lemma GrownLayerOk<T>(c: nat, hash: (T, T) -> T, empty: T, s: State<T>, base: nat, items: seq<T>, k: nat)
    requires c >= 2 && Inv(c, hash, empty, s, base, items) && k < |Grown(c, s.layers, s.txs + 1)|
    ensures LayerOk(c, hash, empty, base, items, s.txs, Pow(c, k), Grown(c, s.layers, s.txs + 1)[k])
  {
    EmptyLayerOk(c, hash, empty, base, items, s.txs, Pow(c, k));
  }

  lemma BottomTakesAll<T>(c: nat, layers: seq<seq<T>>, n: nat, v: T)
    requires c >= 2 && n >= 1 && |layers| >= 1
    ensures AddLayers(c, layers, n, v)[0] == PushBounded(layers[0], v, c)
    ensures AddLayers(c, layers, n, v)[0] != []
    ensures LowestExact(c, AddLayers(c, layers, n, v), n)
  {
    assert Pow(c, 0) == 1 && n % 1 == 0;
    assert Grown(c, layers, n)[0] == layers[0];
  }

  // ---------- Dropping keeps the invariant ----------

  lemma {:induction false} TargetIs<T>(c: nat, layers: seq<seq<T>>, ind: nat, from: nat, k: nat)
    requires c >= 2 && from <= k < |layers| && layers[k] != [] && forall i :: from <= i < k ==> layers[i] == []
    ensures Target(c, layers, ind, from) == ind / Pow(c, k) * Pow(c, k)
    decreases k - from
  {
    if from < k {
      TargetIs(c, layers, ind, from + 1, k);
    }
  }

  lemma {:induction false} TargetOfEmpty<T>(c: nat, layers: seq<seq<T>>, ind: nat, from: nat)
    requires c >= 2 && from <= |layers| && AllEmpty(layers)
    ensures Target(c, layers, ind, from) == ind
    decreases |layers| - from
  {
    if from < |layers| {
      TargetOfEmpty(c, layers, ind, from + 1);
    }
  }

  /** Rounding down to a multiple of a lower power first changes no higher quotient. */
  lemma RoundDownTwice(c: nat, ind: nat, k: nat, l: nat)
    requires c >= 2 && k <= l
    ensures var r := ind / Pow(c, k) * Pow(c, k);
      r <= ind && r % Pow(c, k) == 0 && r / Pow(c, l) == ind / Pow(c, l)
  {
    var q := ind / Pow(c, k);
    DivBounds(ind, Pow(c, k));
    DivUnique(q * Pow(c, k), Pow(c, k), q, 0);
    PowAdd(c, k, l - k);
    DivDiv(ind, Pow(c, k), Pow(c, l - k));
    DivDiv(q * Pow(c, k), Pow(c, k), Pow(c, l - k));
  }

  lemma EntryEarlier<T>(hash: (T, T) -> T, empty: T, base: nat, items: seq<T>, v: T, cap: nat, m: nat, r: nat)
    requires EntryOk(hash, empty, base, items, v, cap, m) && m * cap <= r <= base + |items|
    ensures EntryOk(hash, empty, base, items[..r - base], v, cap, m)
  {
    assert items[..r - base][..m * cap - base] == items[..m * cap - base];
  }

  lemma RunPop<T>(c: nat, hash: (T, T) -> T, empty: T, base: nat, items: seq<T>, cap: nat, e: nat, layer: seq<T>,
        e': nat, r: nat)
    requires RunOk(c, hash, empty, base, items, cap, e, layer)
    requires base <= r <= base + |items| && e' <= e && e' * cap <= r
    ensures RunOk(c, hash, empty, base, items[..r - base], cap, e', PopNewest(layer, e - e'))
  {
    var l := PopNewest(layer, e - e');
    forall j | 0 <= j < |l|
      ensures EntryOk(hash, empty, base, items[..r - base], l[j], cap, e' - |l| + 1 + j)
    {
      var m := e - |layer| + 1 + j;
      assert EntryOk(hash, empty, base, items, layer[j], cap, m);
      assert m == e' - |l| + 1 + j;
      MulMonotone(cap, m, e');
      EntryEarlier(hash, empty, base, items, layer[j], cap, m, r);
    }
  }

  lemma LayerPop<T>(c: nat, hash: (T, T) -> T, empty: T, base: nat, items: seq<T>, cap: nat, layer: seq<T>,
        ind: nat, r: nat)
    requires cap >= 1 && LayerOk(c, hash, empty, base, items, base + |items|, cap, layer)
    requires base <= r <= ind <= base + |items| && r / cap == ind / cap
    requires ind / cap <= (base + |items|) / cap
    ensures LayerOk(c, hash, empty, base, items[..r - base], r, cap, PopNewest(layer,
          (base + |items|) / cap - ind / cap))
  {
    DivBounds(r, cap);
    RunPop(c, hash, empty, base, items, cap, (base + |items|) / cap, layer, ind / cap, r);
  }

  /** The oldest position a layer holds. */
  function Oldest<T>(c: nat, s: State<T>, k: nat): int
    requires c >= 2 && k < |s.layers|
  {
    (s.txs / Pow(c, k) - |s.layers[k]| + 1) * Pow(c, k)
  }

  /** Some layer holds a position at or below ind. */
  ghost predicate HasCheckpoint<T>(c: nat, s: State<T>, ind: nat)
    requires c >= 2
  {
    exists k :: 0 <= k < |s.layers| && s.layers[k] != [] && Oldest(c, s, k) <= ind
  }

  /** A drop leaves a layer with a hash exactly when that layer's oldest position is not above ind. */
  lemma KeptIffOldest<T>(c: nat, s: State<T>, ind: nat, k: nat)
    requires c >= 2 && ind <= s.txs && k < |s.layers| && s.layers[k] != [] && |s.layers[k]| <= s.txs / Pow(c, k)
    ensures DropLayers(c, s.layers, s.txs, ind)[k] != [] <==> Oldest(c, s, k) <= ind
  {
    var cap, e := Pow(c, k), s.txs / Pow(c, k);
    DivMonotone(ind, s.txs, cap);
    DivGreatest(ind, cap, e - |s.layers[k]| + 1);
  }

  /** What is left of (base, items) after a drop: everything up to the checkpoint, or, when every
      layer was emptied, nothing at all. */
  ghost function Survivors<T>(c: nat, s: State<T>, base: nat, items: seq<T>, ind: nat): (nat, seq<T>)
    requires c >= 2 && ind <= s.txs
  {
    var (s', r) := Drop(c, s, ind);
    if ind == 0 then (0, [])
    else if s.prev >= ind then (base, items)
    else if HasCheckpoint(c, s, ind) && base <= r <= base + |items| then (base, items[..r - base])
    else (ind, [])
  }

  /** Some layer keeps a hash exactly when there was a checkpoint at or below ind. */
  lemma SomethingLeft<T>(c: nat, hash: (T, T) -> T, empty: T, s: State<T>, base: nat, items: seq<T>, ind: nat)
    requires c >= 2 && Inv(c, hash, empty, s, base, items) && ind <= s.txs
    ensures HasCheckpoint(c, s, ind) <==> !AllEmpty(DropLayers(c, s.layers, s.txs, ind))
  {
    var layers := DropLayers(c, s.layers, s.txs, ind);
    forall k | 0 <= k < |s.layers| && s.layers[k] != []
      ensures layers[k] != [] <==> Oldest(c, s, k) <= ind
    {
      assert LayerOk(c, hash, empty, base, items, s.txs, Pow(c, k), s.layers[k]);
      KeptIffOldest(c, s, ind, k);
    }
  }

  lemma DropKeepsInv<T>(c: nat, hash: (T, T) -> T, empty: T, s: State<T>, base: nat, items: seq<T>, ind: nat)
    requires c >= 2 && Inv(c, hash, empty, s, base, items) && ind <= s.txs
    ensures var (s', r) := Drop(c, s, ind);
            var (base', items') := Survivors(c, s, base, items, ind);
      Inv(c, hash, empty, s', base', items')
  {
    hide Inv, Pow, Prefix, AllEmpty, HasCheckpoint, DropLayers, Target;
    if ind == 0 {
      InitInv(c, hash, empty);
    } else if s.prev < ind {
      SomethingLeft(c, hash, empty, s, base, items, ind);
      if HasCheckpoint(c, s, ind) {
        DropToCheckpoint(c, hash, empty, s, base, items, ind);
      } else {
        DropEverything(c, hash, empty, s, base, items, ind);
      }
    }
  }

  /** Below every checkpoint the drop empties all layers but still counts ind items. */
  lemma DropEverything<T>(c: nat, hash: (T, T) -> T, empty: T, s: State<T>, base: nat, items: seq<T>, ind: nat)
    requires c >= 2 && Inv(c, hash, empty, s, base, items) && s.prev < ind <= s.txs
    requires AllEmpty(DropLayers(c, s.layers, s.txs, ind))
    ensures var (s', r) := Drop(c, s, ind);
      r == ind && RootOf(s'.layers, empty) == empty && Inv(c, hash, empty, s', ind, [])
  {
    var layers := DropLayers(c, s.layers, s.txs, ind);
    TargetOfEmpty(c, layers, ind, 0);
    RootOfEmpty(layers, empty);
    forall k | 0 <= k < |layers|
      ensures LayerOk<T>(c, hash, empty, ind, [], ind, Pow(c, k), layers[k])
    {
      EmptyLayerOk<T>(c, hash, empty, ind, [], ind, Pow(c, k));
    }
  }

  lemma DropToCheckpoint<T>(c: nat, hash: (T, T) -> T, empty: T, s: State<T>, base: nat, items: seq<T>, ind: nat)
    requires c >= 2 && Inv(c, hash, empty, s, base, items) && s.prev < ind <= s.txs
    requires !AllEmpty(DropLayers(c, s.layers, s.txs, ind))
    ensures var (s', r) := Drop(c, s, ind);
      base < r <= ind <= base + |items| && Inv(c, hash, empty, s', base, items[..r - base])
  {
    hide LayerOk, Pow, Prefix;
    var layers := DropLayers(c, s.layers, s.txs, ind);
    var k := LowestLayer(layers);
    TargetIs(c, layers, ind, 0, k);
    RoundDownTwice(c, ind, k, k);
    LowestEntry(c, hash, empty, s, base, items, ind, k);
    DroppedLayersOk(c, hash, empty, s, base, items, ind, k);
    forall l | 0 <= l < |layers| && layers[l] != [] && forall i :: 0 <= i < l ==> layers[i] == []
      ensures l == k
    {
    }
  }

  lemma DroppedLayersOk<T>(c: nat, hash: (T, T) -> T, empty: T, s: State<T>, base: nat, items: seq<T>, ind: nat, k: nat)
    requires c >= 2 && Inv(c, hash, empty, s, base, items) && ind <= s.txs
    requires var layers := DropLayers(c, s.layers, s.txs, ind);
      k < |layers| && layers[k] != [] && forall i :: 0 <= i < k ==> layers[i] == []
    ensures var layers := DropLayers(c, s.layers, s.txs, ind);
            var r := ind / Pow(c, k) * Pow(c, k);
      && base < r <= ind
      && forall l :: 0 <= l < |layers| ==> LayerOk(c, hash, empty, base, items[..r - base], r, Pow(c, l), layers[l])
  {
    hide LayerOk, Pow, Prefix, LowestExact;
    var layers := DropLayers(c, s.layers, s.txs, ind);
    var r := ind / Pow(c, k) * Pow(c, k);
    RoundDownTwice(c, ind, k, k);
    LowestEntry(c, hash, empty, s, base, items, ind, k);
    forall l | 0 <= l < |layers|
      ensures LayerOk(c, hash, empty, base, items[..r - base], r, Pow(c, l), layers[l])
    {
      DivMonotone(ind, s.txs, Pow(c, l));
      if k <= l {
        RoundDownTwice(c, ind, k, l);
        assert LayerOk(c, hash, empty, base, items, s.txs, Pow(c, l), s.layers[l]);
        LayerPop(c, hash, empty, base, items, Pow(c, l), s.layers[l], ind, r);
      } else {
        EmptyLayerOk(c, hash, empty, base, items[..r - base], r, Pow(c, l));
      }
    }
  }

  lemma LowestEntry<T>(c: nat, hash: (T, T) -> T, empty: T, s: State<T>, base: nat, items: seq<T>, ind: nat, k: nat)
    requires c >= 2 && Inv(c, hash, empty, s, base, items) && ind <= s.txs
    requires k < |s.layers| && DropLayers(c, s.layers, s.txs, ind)[k] != []
    ensures base < ind / Pow(c, k) * Pow(c, k)
  {
    hide Pow, Prefix, LowestExact, AllEmpty;
    var cap, layer := Pow(c, k), s.layers[k];
    DivMonotone(ind, s.txs, cap);
    var j := |DropLayers(c, s.layers, s.txs, ind)[k]| - 1;
    assert LayerOk(c, hash, empty, base, items, s.txs, cap, layer);
    assert EntryOk(hash, empty, base, items, layer[j], cap, s.txs / cap - |layer| + 1 + j);
    assert s.txs / cap - |layer| + 1 + j == ind / cap;
  }

  // ---------- Dropping beyond the end ----------

  lemma {:induction false} LowerQuotients(c: nat, n: nat, ind: nat, k: nat, l: nat)
    requires c >= 2 && k <= l && n / Pow(c, k) == ind / Pow(c, k)
    ensures n / Pow(c, l) == ind / Pow(c, l)
  {
    PowAdd(c, k, l - k);
    DivDiv(n, Pow(c, k), Pow(c, l - k));
    DivDiv(ind, Pow(c, k), Pow(c, l - k));
  }

  /** An index beyond the end is not refused. If some nonempty layer has it in the same interval as the
      end, the tree falls back to the start of that interval in the lowest such layer; if none has, all
      hashes are lost and the index becomes the count, which has then grown. */
  lemma DropBeyond<T>(c: nat, hash: (T, T) -> T, empty: T, s: State<T>, base: nat, items: seq<T>, ind: nat)
    requires c >= 2 && Inv(c, hash, empty, s, base, items) && s.txs < ind
    ensures var (s', r) := Drop(c, s, ind);
      && s'.txs == s'.prev == r
      && (AllEmpty(s'.layers) <==> Apart(c, s, ind))
      && (Apart(c, s, ind) ==> r == ind && RootOf(s'.layers, empty) == empty)
      && (!Apart(c, s, ind) ==>
            && base < r <= s.txs && Inv(c, hash, empty, s', base, items[..r - base])
            && RootOf(s'.layers, empty) == Prefix(hash, empty, items[..r - base])
            && exists low :: LowestTogether(c, s, ind, low) && r == s.txs / Pow(c, low) * Pow(c, low))
      && |s'.layers| == |s.layers|
      && (forall k :: 0 <= k < |s.layers| ==>
            s'.layers[k] == if ind / Pow(c, k) == s.txs / Pow(c, k) then s.layers[k] else [])
  {
    hide LayersBeyond, Inv, Target, Prefix, RootOf, Apart, AllEmpty;
    BeyondEmpties(c, s, ind);
    var layers := LayersBeyond(c, s.layers, s.txs, ind);
    assert DropLayers(c, s.layers, s.txs, ind) == layers;
    BeyondLayers(c, s, ind);
    TotalsFit(c, hash, empty, s, base, items);
    if AllEmpty(layers) {
      TargetOfEmpty(c, layers, ind, 0);
      RootOfEmpty(layers, empty);
    } else {
      var low := LowestLayer(layers);
      TargetIs(c, layers, ind, 0, low);
      BeyondKeepsInv(c, hash, empty, s, base, items, ind, low);
      LowestIsTogether(c, s, ind, low);
      var r := ind / Pow(c, low) * Pow(c, low);
      RootIsPrefix(c, hash, empty, State(layers, r, r), base, items[..r - base]);
    }
  }

  /** The lowest layer that holds a hash and has ind in the same interval as the end. */
  ghost predicate LowestTogether<T>(c: nat, s: State<T>, ind: nat, low: nat)
    requires c >= 2
  {
    && low < |s.layers| && s.layers[low] != [] && ind / Pow(c, low) == s.txs / Pow(c, low)
    && forall k :: 0 <= k < low && s.layers[k] != [] ==> ind / Pow(c, k) != s.txs / Pow(c, k)
  }

  lemma LowestIsTogether<T>(c: nat, s: State<T>, ind: nat, low: nat)
    requires c >= 2
    requires var layers := LayersBeyond(c, s.layers, s.txs, ind);
      low < |layers| && layers[low] != [] && forall i :: 0 <= i < low ==> layers[i] == []
    ensures LowestTogether(c, s, ind, low)
  {
    hide Pow, LayersBeyond;
    BeyondLayers(c, s, ind);
  }

  lemma BeyondLayers<T>(c: nat, s: State<T>, ind: nat)
    requires c >= 2
    ensures var layers := LayersBeyond(c, s.layers, s.txs, ind);
      forall k :: 0 <= k < |s.layers| ==>
        layers[k] == if ind / Pow(c, k) == s.txs / Pow(c, k) then s.layers[k] else []
  {
    hide Pow;
  }

  lemma TotalsFit<T>(c: nat, hash: (T, T) -> T, empty: T, s: State<T>, base: nat, items: seq<T>)
    requires c >= 2 && Inv(c, hash, empty, s, base, items)
    ensures s.prev <= s.txs == base + |items| && s.txs < Pow(c, |s.layers|)
  {
  }

  /** Every layer that holds a hash has ind in a later interval than the end. */
  ghost predicate Apart<T>(c: nat, s: State<T>, ind: nat)
    requires c >= 2
  {
    forall k :: 0 <= k < |s.layers| && s.layers[k] != [] ==> ind / Pow(c, k) != s.txs / Pow(c, k)
  }

  lemma BeyondEmpties<T>(c: nat, s: State<T>, ind: nat)
    requires c >= 2
    ensures AllEmpty(LayersBeyond(c, s.layers, s.txs, ind)) <==> Apart(c, s, ind)
  {
    hide Pow;
    var layers := LayersBeyond(c, s.layers, s.txs, ind);
    forall k | 0 <= k < |s.layers|
      ensures layers[k] == [] <==> s.layers[k] == [] || ind / Pow(c, k) != s.txs / Pow(c, k)
    {
    }
  }

  lemma BeyondKeepsInv<T>(c: nat, hash: (T, T) -> T, empty: T, s: State<T>, base: nat, items: seq<T>, ind: nat,
        low: nat)
    requires c >= 2 && Inv(c, hash, empty, s, base, items) && s.txs < ind
    requires var layers := LayersBeyond(c, s.layers, s.txs, ind);
      low < |layers| && layers[low] != [] && forall i :: 0 <= i < low ==> layers[i] == []
    ensures var r := ind / Pow(c, low) * Pow(c, low);
      && base < r <= s.txs
      && Inv(c, hash, empty, State(LayersBeyond(c, s.layers, s.txs, ind), r, r), base, items[..r - base])
  {
    hide LayerOk, Pow, Prefix, LayersBeyond;
    var layers := LayersBeyond(c, s.layers, s.txs, ind);
    BeyondLayer(c, s, ind, low);
    var r := ind / Pow(c, low) * Pow(c, low);
    RoundDownTwice(c, s.txs, low, low);
    NewestEntry(c, hash, empty, s, base, items, low);
    forall l | 0 <= l < |layers|
      ensures LayerOk(c, hash, empty, base, items[..r - base], r, Pow(c, l), layers[l])
    {
      BeyondLayerOk(c, hash, empty, s, base, items, ind, low, l);
    }
    forall l | 0 <= l < |layers| && layers[l] != [] && forall i :: 0 <= i < l ==> layers[i] == []
      ensures l == low
    {
    }
  }

  lemma BeyondLayer<T>(c: nat, s: State<T>, ind: nat, k: nat)
    requires c >= 2 && k < |s.layers|
    ensures LayersBeyond(c, s.layers, s.txs, ind)[k] != [] ==>
              ind / Pow(c, k) == s.txs / Pow(c, k) && s.layers[k] != []
    ensures ind / Pow(c, k) == s.txs / Pow(c, k) ==> LayersBeyond(c, s.layers, s.txs, ind)[k] == s.layers[k]
  {
  }

  lemma BeyondLayerOk<T>(c: nat, hash: (T, T) -> T, empty: T, s: State<T>, base: nat, items: seq<T>, ind: nat,
        low: nat, l: nat)
    requires c >= 2 && Inv(c, hash, empty, s, base, items)
    requires low < |s.layers| && l < |s.layers| && ind / Pow(c, low) == s.txs / Pow(c, low)
    requires l < low ==> LayersBeyond(c, s.layers, s.txs, ind)[l] == []
    requires base < s.txs / Pow(c, low) * Pow(c, low)
    ensures var r := s.txs / Pow(c, low) * Pow(c, low);
      r <= s.txs &&
      LayerOk(c, hash, empty, base, items[..r - base], r, Pow(c, l), LayersBeyond(c, s.layers, s.txs, ind)[l])
  {
    hide Pow, LayersBeyond, RunOk, LowestExact, AllEmpty;
    var r := s.txs / Pow(c, low) * Pow(c, low);
    RoundDownTwice(c, s.txs, low, low);
    if low <= l {
      LowerQuotients(c, s.txs, ind, low, l);
      BeyondLayer(c, s, ind, l);
      RoundDownTwice(c, s.txs, low, l);
      assert LayerOk(c, hash, empty, base, items, s.txs, Pow(c, l), s.layers[l]);
      LayerPop(c, hash, empty, base, items, Pow(c, l), s.layers[l], r, r);
      assert PopNewest(s.layers[l], 0) == s.layers[l];
    } else {
      EmptyLayerOk(c, hash, empty, base, items[..r - base], r, Pow(c, l));
    }
  }

  lemma NewestEntry<T>(c: nat, hash: (T, T) -> T, empty: T, s: State<T>, base: nat, items: seq<T>, k: nat)
    requires c >= 2 && Inv(c, hash, empty, s, base, items) && k < |s.layers| && s.layers[k] != []
    ensures base < s.txs / Pow(c, k) * Pow(c, k)
  {
    var cap, layer := Pow(c, k), s.layers[k];
    assert LayerOk(c, hash, empty, base, items, s.txs, cap, layer);
    assert EntryOk(hash, empty, base, items, layer[|layer| - 1], cap, s.txs / cap);
  }

  // ---------- Capacity 1 ----------

  /** All that a tree of capacity 1 can do: take one add, keep it or lose it in a drop. */
  lemma CapacityOne<T>(hash: (T, T) -> T, empty: T, t: T, v: T, prev: nat, ind: nat)
    requires prev <= 1
    ensures Add(1, hash, empty, Init(), t) == State([[hash(empty, t)]], 1, 0)
    ensures Drop(1, Init<T>(), ind) == (State([[]], ind, ind), ind)
    ensures var s := State([[v]], 1, prev);
      Drop(1, s, ind) ==
        if ind == 0 then (Init(), 0)
        else if ind <= prev then (s, ind)
        else if ind == 1 then (State([[v]], 1, 1), 1)
        else (State([[]], ind, ind), ind)
  {
    PowZero(1);
    assert RootOf([[]], empty) == RootOf([], empty);
    var added := AddLayers(1, [[]], 1, hash(empty, t));
    assert added[0] == [hash(empty, t)];
    assert added == [[hash(empty, t)]];
    var s := State([[v]], 1, prev);
    if prev < ind {
      OneLayer(v, ind);
      var layers := DropLayers(1, s.layers, 1, ind);
      assert Target(1, layers, ind, 0) == ind;
    }
    if ind > 0 {
      var layers := DropLayers(1, Init<T>().layers, 0, ind);
      assert layers[0] == [];
      assert layers == [[]];
      assert Target(1, layers, ind, 0) == Target(1, layers, ind, 1) == ind;
    }
  }

  lemma OneLayer<T>(v: T, ind: nat)
    requires ind >= 1
    ensures DropLayers(1, [[v]], 1, ind) == if ind == 1 then [[v]] else [[]]
  {
    PowZero(1);
    var layers := DropLayers(1, [[v]], 1, ind);
    assert layers[0] == if ind == 1 then [v] else [];
  }
}
