/** The narrow Merkle tree: a vector of ring buffers updated in place. */
module NarrowMerkleTree {
  import opened Arith
  import opened CircularStack
  import opened NarrowSpec
  import opened Wrappers

  lemma PredecessorDigit(q: nat, c: nat)
    requires q >= 1 && c >= 1
    ensures (q - 1) % c == c - 1 <==> q % c == 0
  {
    DivBounds(q, c);
    if q % c == 0 {
      OneLess(q / c, c);
      DivUnique(q - 1, c, q / c - 1, c - 1);
    } else {
      DivUnique(q - 1, c, q / c, q % c - 1);
    }
  }

  lemma MultipleOfProduct(q: nat, p: nat, c: nat)
    requires p >= 1 && c >= 1
    ensures p * c >= 1 && (q * p % (p * c) == 0 <==> q % c == 0)
  {
    var t := q % c;
    DivBounds(q, c);
    MulAssociates(q / c, c, p);
    MulBounds(t, c, p);
    assert q * p == (q / c * c + t) * p == q / c * c * p + t * p;
    DivUnique(q * p, p * c, q / c, t * p);
    if t > 0 {
      MulMonotone(p, 1, t);
    }
  }

  /** Dividing out one more power: the test made on the way up the layers. */
  lemma CarryStep(c: nat, n: nat, k: nat)
    requires c >= 1 && n >= 1 && n % Pow(c, k) == 0
    ensures (n - 1) / Pow(c, k) / c == (n - 1) / Pow(c, k + 1)
    ensures (n - 1) / Pow(c, k) % c == c - 1 <==> n % Pow(c, k + 1) == 0
  {
    hide Pow;
    var p, q := Pow(c, k), n / Pow(c, k);
    PowNext(c, k);
    DivBounds(n, p);
    DivDiv(n - 1, p, c);
    OneLess(q, p);
    DivUnique(n - 1, p, q - 1, p - 1);
    PredecessorDigit(q, c);
    MultipleOfProduct(q, p, c);
  }

  lemma {:induction false} HigherPowerDivides(c: nat, n: nat, k: nat, l: nat)
    requires c >= 1 && k <= l && n % Pow(c, l) == 0
    ensures n % Pow(c, k) == 0
  {
    PowAdd(c, l - k, k);
    DivBounds(n, Pow(c, l));
    var q := n / Pow(c, l);
    assert q * (Pow(c, l - k) * Pow(c, k)) == (q * Pow(c, l - k)) * Pow(c, k);
    DivUnique(n, Pow(c, k), q * Pow(c, l - k), 0);
  }

  /** The number of multiples of cap above ind and up to n, as `drop` computes it from the last
      multiple not above n. The intermediate difference may be negative; the sum never is. */
  lemma CountAbove(n: nat, ind: nat, cap: nat)
    requires cap >= 1 && ind <= n
    ensures var id := n / cap * cap;
            id - ind + cap - 1 >= 0 && (id - ind + cap - 1) / cap == n / cap - ind / cap
  {
    DivBounds(n, cap);
    DivBounds(ind, cap);
    var id, e, e' := n / cap * cap, n / cap, ind / cap;
    assert (e - e') * cap == id - e' * cap;
    DivUnique(id - ind + cap - 1, cap, e - e', cap - 1 - ind % cap);
    DivMonotone(ind, n, cap);
  }

  /** Beyond the end the difference is negative exactly when ind lies in a later interval; it then wraps
      to more than the size of the layer. */
  lemma CountBeyond(n: nat, ind: nat, cap: nat, size: nat)
    requires cap >= 1 && n < ind && ind + size * cap <= TWO_TO_THE_64
    ensures var d := n / cap * cap - ind + cap - 1;
      && (d >= 0 <==> ind / cap == n / cap)
      && (d >= 0 ==> d / cap == 0)
      && (d < 0 ==> d + TWO_TO_THE_64 >= 0 && (d + TWO_TO_THE_64) / cap >= size)
  {
    var d := n / cap * cap - ind + cap - 1;
    DivBounds(n, cap);
    DivBounds(ind, cap);
    DivMonotone(n, ind, cap);
    if d >= 0 {
      DivUnique(ind, cap, n / cap, ind - n / cap * cap);
      DivUnique(d, cap, 0, d);
    } else {
      DivGreatest(d + TWO_TO_THE_64, cap, size);
    }
  }

  /** In unsigned arithmetic modulo w the difference may wrap, but the count does not. */
  lemma CountSurvivesWrap(n: nat, ind: nat, cap: nat, w: nat)
    requires cap >= 1 && ind <= n && n + cap <= w
    ensures var id := n / cap * cap;
            ((id - ind) % w + cap - 1) % w == id - ind + cap - 1
  {
    CountAbove(n, ind, cap);
    DivBounds(n, cap);
    var d := n / cap * cap - ind;
    if d >= 0 {
      DivUnique(d, w, 0, d);
      DivUnique(d + cap - 1, w, 0, d + cap - 1);
    } else {
      DivUnique(d, w, -1, d + w);
      DivUnique(d + w + cap - 1, w, 1, d + cap - 1);
    }
  }

  lemma CountWrapped(n: nat, ind: nat, cap: nat, w: nat)
    requires cap >= 1 && ind <= n && n + cap <= w
    ensures ((n / cap * cap - ind) % w + cap - 1) % w / cap == n / cap - ind / cap
  {
    CountAbove(n, ind, cap);
    CountSurvivesWrap(n, ind, cap, w);
  }

  lemma DigitOfMultiple(e: nat, cap: nat, c: nat)
    requires cap >= 1 && c >= 1
    ensures cap * c >= 1 && e * cap % (cap * c) / cap == e % c
    ensures e * cap - e % c * cap == e / c * (cap * c)
  {
    var t := e % c;
    DivBounds(e, c);
    MulAssociates(e / c, c, cap);
    MulBounds(t, c, cap);
    assert e * cap == (e / c * c + t) * cap == e / c * c * cap + t * cap;
    DivUnique(e * cap, cap * c, e / c, t * cap);
    DivUnique(t * cap, cap, t, 0);
  }

  /** The digit that `drop` subtracts moves the position to the last multiple of the next power. */
  lemma NextMultiple(c: nat, n: nat, k: nat)
    requires c >= 1
    ensures var cap := Pow(c, k);
            var id := n / cap * cap;
      id - id % (cap * c) / cap * cap == n / Pow(c, k + 1) * Pow(c, k + 1) >= 0
  {
    hide Pow;
    MulNonNegative(n / Pow(c, k + 1), Pow(c, k + 1));
    PowNext(c, k);
    DivDiv(n, Pow(c, k), c);
    DigitOfMultiple(n / Pow(c, k), Pow(c, k), c);
  }

  /** The layers up to `child` took v; the layers above still hold what they held in g. */
  ghost predicate Carried<T>(c: nat, g: seq<seq<T>>, layers: seq<seq<T>>, n: nat, v: T, child: nat)
    requires c >= 1
  {
    && |layers| == |g| && child < |g| && n % Pow(c, child) == 0
    && (forall k :: 0 <= k <= child ==> layers[k] == PushBounded(g[k], v, c))
    && (forall k :: child < k < |g| ==> layers[k] == g[k])
  }

  /** Growing after the push on the bottom layer is growing before it. */
  lemma BottomCarried<T>(c: nat, was: seq<seq<T>>, n: nat, v: T)
    requires c >= 1 && n >= 1 && (n > 1 ==> c >= 2) && was != []
    ensures Carried(c, Grown(c, was, n), Grown(c, was[0 := PushBounded(was[0], v, c)], n), n, v, 0)
  {
    hide Height, PushBounded;
    PowZero(c);
  }

  lemma CarriedAll<T>(c: nat, was: seq<seq<T>>, layers: seq<seq<T>>, n: nat, v: T, child: nat)
    requires c >= 1 && n >= 1 && (n > 1 ==> c >= 2) && Carried(c, Grown(c, was, n), layers, n, v, child)
    requires child + 1 < |layers| ==> n % Pow(c, child + 1) != 0
    ensures layers == AddLayers(c, was, n, v)
  {
    hide Pow, Grown;
    var r := AddLayers(c, was, n, v);
    forall k | 0 <= k < |layers|
      ensures layers[k] == r[k]
    {
      if k <= child {
        HigherPowerDivides(c, n, k, child);
      } else if n % Pow(c, k) == 0 {
        HigherPowerDivides(c, n, child + 1, k);
      }
    }
  }

  lemma TargetStep<T>(c: nat, layers: seq<seq<T>>, ind: nat, k: nat)
    requires c >= 1 && k < |layers|
    ensures Target(c, layers, ind, k)
         == if layers[k] != [] then ind / Pow(c, k) * Pow(c, k) else Target(c, layers, ind, k + 1)
  {
  }

  lemma TargetEnd<T>(c: nat, layers: seq<seq<T>>, ind: nat)
    requires c >= 1
    ensures Target(c, layers, ind, |layers|) == ind
  {
  }

  /** Removing no more than the layer holds, when that is all, is what a drop asks for. */
  lemma DroppedIs<T>(c: nat, layers: seq<seq<T>>, n: nat, ind: nat, k: nat, removed: nat)
    requires c >= 1 && k < |layers| && removed <= |layers[k]|
    requires ind <= n ==> removed == Min(|layers[k]|, n / Pow(c, k) - ind / Pow(c, k))
    requires ind > n ==> removed == if ind / Pow(c, k) == n / Pow(c, k) then 0 else |layers[k]|
    ensures DropLayers(c, layers, n, ind)[k] == PopNewest(layers[k], removed)
  {
  }

  lemma LayerRoom(c: nat, k: nat, m: nat, size: nat)
    requires c >= 1 && k < m && size <= c
    ensures size * Pow(c, k) <= c * Pow(c, m - 1)
  {
    PowMonotone(c, k, m - 1);
    MulMonotone(Pow(c, k), size, c);
    MulMonotone(c, Pow(c, k), Pow(c, m - 1));
  }

  lemma KeptMultiple(e: int, e': int, cap: int)
    ensures e * cap - (e - e') * cap == e' * cap
  {
  }

  class NarrowMerkleTree<T(0)> {
    const hash: (T, T) -> T
    const empty: T               // T()
    const capacity: nat
    var data: seq<CircularStack<T>>
    var txs: nat
    var previousDrop: nat

    ghost var layers: seq<seq<T>>   // the contents of the ring buffers

    ghost function Footprint(): set<object>
      reads this`data
      ensures this in Footprint()
    {
      {this} + (set k | 0 <= k < |data| :: data[k]) + (set k | 0 <= k < |data| :: data[k].ring)
    }

    ghost predicate Valid()
      reads this`data, this`layers, Footprint() - {this}
      ensures Valid() ==> capacity >= 1 && |data| == |layers| >= 1
    {
      && capacity >= 1
      && |data| == |layers| >= 1
      && (forall k :: 0 <= k < |data| ==> data[k].Valid() && data[k].cap == capacity && data[k].Contents() == layers[k])
      && (forall i, k :: 0 <= i < k < |data| ==> data[i] != data[k] && data[i].ring != data[k].ring)
    }

    ghost function Abstract(): State<T>
      reads this
    {
      State(layers, txs, previousDrop)
    }

    /** For capacity 0 see NewNarrowMerkleTree. A tree of capacity 1 can be built, but its second `add`
        does not end, so only the first one accepts it. */
    constructor (hash: (T, T) -> T, empty: T, capacity: nat)
      requires capacity >= 1
      ensures Valid() && this.hash == hash && this.empty == empty && this.capacity == capacity
      ensures fresh(Footprint())
      ensures Abstract() == Init()
    {
      var first := new CircularStack<T>(capacity);
      this.hash, this.empty, this.capacity := hash, empty, capacity;
      data, layers := [first], [[]];
      txs, previousDrop := 0, 0;
    }

    method HeightOf(n: nat) returns (num: nat)
      requires capacity >= 2
      ensures num == Height(capacity, n)
    {
      hide Pow;
      PowZero(capacity);
      num := 0;
      var cap := 1;
      while n >= cap
        invariant cap == Pow(capacity, num)
        invariant num > 0 ==> Pow(capacity, num - 1) <= n
        decreases n - cap
      {
        MulMonotone(cap, 2, capacity);
        PowNext(capacity, num);
        cap := cap * capacity;
        num := num + 1;
      }
      HeightIs(capacity, n, num);
    }

    method GetRoot() returns (r: T)
      requires Valid()
      ensures r == RootOf(layers, empty)
    {
      for layer := 0 to |data|
        invariant RootOf(layers, empty) == RootOf(layers[layer..], empty)
      {
        if data[layer].size != 0 {
          var b := data[layer].Back();
          return b.value;
        }
      }
      return empty;
    }

    method PushLayer(k: nat, v: T)
      requires Valid() && k < |data|
      modifies this`layers, Footprint() - {this}
      ensures Valid() && layers == old(layers)[k := PushBounded(old(layers)[k], v, capacity)]
    {
      data[k].Push(v);
      layers := layers[k := PushBounded(layers[k], v, capacity)];
    }

    method PopLayer(k: nat, n: nat)
      requires Valid() && k < |data|
      modifies this`layers, Footprint() - {this}
      ensures Valid() && layers == old(layers)[k := PopNewest(old(layers)[k], n)]
    {
      data[k].Pop(n);
      layers := layers[k := PopNewest(layers[k], n)];
    }

    method Grow()
      requires Valid()
      modifies this`data, this`layers
      ensures Valid() && layers == old(layers) + [[]]
      ensures |data| == |old(data)| + 1 && data[..|old(data)|] == old(data)
      ensures fresh(Footprint() - old(Footprint()))
    {
      var layer := new CircularStack<T>(capacity);
      data := data + [layer];
      layers := layers + [[]];
    }

    /** `parent->push(child->back())` */
    method PassUp(child: nat)
      requires Valid() && child + 1 < |data| && layers[child] != []
      modifies this`layers, Footprint() - {this}
      ensures Valid()
      ensures var child' := old(layers)[child];
        layers == old(layers)[child + 1 := PushBounded(old(layers)[child + 1], child'[|child'| - 1], capacity)]
    {
      var b := data[child].Back();
      PushLayer(child + 1, b.value);
    }

    /** The loop of `add`: hands the new hash up while the count is a multiple of the spacing. */
    method CarryUp(ghost v: T, ghost g: seq<seq<T>>)
      requires Valid() && Carried(capacity, g, layers, txs, v, 0) && txs >= 1
      modifies this`layers, Footprint() - {this}
      ensures Valid()
      ensures exists child: nat :: Carried(capacity, g, layers, txs, v, child)
                && (child + 1 < |layers| ==> txs % Pow(capacity, child + 1) != 0)
    {
      hide Pow, PushBounded, Valid;
      PowZero(capacity);
      var layerIdx := txs - 1;
      var child := 0;
      while child + 1 < |data|
        invariant Valid() && child < |data| && data == old(data)
        invariant Carried(capacity, g, layers, txs, v, child)
        invariant layerIdx == (txs - 1) / Pow(capacity, child)
      {
        CarryStep(capacity, txs, child);
        if layerIdx % capacity == capacity - 1 {
          PassUp(child);
        } else {
          break;
        }
        child := child + 1;
        layerIdx := layerIdx / capacity;
      }
    }

    method Add(t: T)
      requires Valid() && (txs > 0 ==> capacity >= 2)
      modifies Footprint()
      ensures Valid() && fresh(Footprint() - old(Footprint()))
      ensures Abstract() == NarrowSpec.Add(capacity, hash, empty, old(Abstract()), t)
    {
      hide Pow, Grown, RootOf, Valid, Carried, AddLayers, Footprint;
      ghost var g := Grown(capacity, layers, txs + 1);
      var v := AddBottom(t);
      CarryUp(v, g);
      ghost var child: nat :| Carried(capacity, g, layers, txs, v, child)
                && (child + 1 < |layers| ==> txs % Pow(capacity, child + 1) != 0);
      CarriedAll(capacity, old(layers), layers, txs, v, child);
    }

    /** The first part of `add`: hash, push onto the bottom layer, and grow when it is time to. */
    method AddBottom(t: T) returns (v: T)
      requires Valid() && (txs > 0 ==> capacity >= 2)
      modifies this`txs, this`data, this`layers, Footprint() - {this}
      ensures Valid() && fresh(Footprint() - old(Footprint()))
      ensures txs == old(txs) + 1 && v == hash(RootOf(old(layers), empty), t)
      ensures Carried(capacity, Grown(capacity, old(layers), txs), layers, txs, v, 0)
    {
      hide Pow, Height, RootOf, PushBounded, Carried, Grown;
      txs := txs + 1;
      var root := GetRoot();
      v := hash(root, t);
      PushLayer(0, v);
      GrowIfHigher();
      BottomCarried(capacity, old(layers), txs, v);
    }

    method GrowIfHigher()
      requires Valid() && txs >= 1 && (txs > 1 ==> capacity >= 2)
      modifies this`data, this`layers
      ensures Valid() && fresh(Footprint() - old(Footprint()))
      ensures layers == Grown(capacity, old(layers), txs)
    {
      hide Height;
      if txs != 1 {
        var now := HeightOf(txs);
        var before := HeightOf(txs - 1);
        if now > before && now > |data| {
          Grow();
        }
      }
    }

    /** For an index beyond the count the subtractions of the loop wrap; it must be that far below 2^64. */
    method Drop(ind: nat) returns (r: nat)
      requires Valid() && InWord(ind)
      modifies Footprint()
      ensures Valid() && fresh(Footprint() - old(Footprint()))
      ensures (Abstract(), r) == NarrowSpec.Drop(capacity, old(Abstract()), ind)
    {
      hide Pow, Valid, Target, DropCount;
      if ind == 0 {
        Clear();
        return 0;
      }
      if previousDrop >= ind {
        return ind;
      }
      DropLoop(ind);
      previousDrop := txs;
      return txs;
    }

    /** `drop(0)` starts over with one empty layer. */
    method Clear()
      requires Valid()
      modifies this
      ensures Valid() && fresh(Footprint() - {this})
      ensures Abstract() == Init()
    {
      var first := new CircularStack<T>(capacity);
      data, layers := [first], [[]];
      txs, previousDrop := 0, 0;
    }

    /** An index beyond the count leaves room for a whole layer below 2^64. */
    ghost predicate InWord(ind: nat)
      reads this
    {
      ind <= txs || (layers != [] && ind + capacity * Pow(capacity, |layers| - 1) <= TWO_TO_THE_64)
    }

    method DropLoop(ind: nat)
      requires Valid() && InWord(ind) && ind > 0
      modifies this`layers, this`txs, Footprint() - {this}
      ensures Valid()
      ensures layers == DropLayers(capacity, old(layers), old(txs), ind)
      ensures txs == Target(capacity, layers, ind, 0)
    {
      hide Pow, Valid, Target, DropLayers;
      PowZero(capacity);
      ghost var n, was, goal := txs, layers, DropLayers(capacity, layers, txs, ind);
      var idTx, cap, xcap := txs, 1, capacity;
      var updated := false;
      txs := ind;
      for layer := 0 to |data|
        invariant Valid() && data == old(data) && |layers| == |data|
        invariant cap == Pow(capacity, layer) && idTx == n / cap * cap
        invariant forall k :: 0 <= k < layer ==> layers[k] == goal[k]
        invariant forall k :: layer <= k < |data| ==> layers[k] == was[k]
        invariant Target(capacity, goal, ind, 0) == if updated then txs else Target(capacity, goal, ind, layer)
        invariant !updated ==> txs == ind
      {
        var num := idTx % (cap * xcap) / cap;
        var removed := DropFromLayer(layer, n, was, idTx, ind, cap);
        TargetStep(capacity, goal, ind, layer);
        if !updated && SizeOf(layer) != 0 {
          txs := idTx - removed * cap;
          updated := true;
        }
        NextMultiple(capacity, n, layer);
        PowNext(capacity, layer);
        idTx := idTx - num * cap;
        cap := cap * xcap;
      }
      TargetEnd(capacity, goal, ind);
    }

    /** One turn of the loop: removes from a layer its positions above ind. When a hash is left, its
        position is that many spacings below the last one. */
    method DropFromLayer(k: nat, ghost n: nat, ghost was: seq<seq<T>>, idTx: nat, ind: nat, cap: nat)
      returns (removed: nat)
      requires Valid() && k < |data| && |was| == |data| && layers[k] == was[k]
      requires cap == Pow(capacity, k) && idTx == n / cap * cap
      requires ind <= n || ind + capacity * Pow(capacity, |data| - 1) <= TWO_TO_THE_64
      modifies this`layers, Footprint() - {this}
      ensures Valid() && layers == old(layers)[k := DropLayers(capacity, was, n, ind)[k]]
      ensures layers[k] != [] ==> idTx - removed * cap == ind / cap * cap
    {
      hide Pow, Valid, DropLayers;
      if ind > n {
        LayerRoom(capacity, k, |data|, SizeOf(k));
      }
      removed := Removed(n, idTx, ind, cap, SizeOf(k));
      PopLayer(k, removed);
      DroppedIs(capacity, was, n, ind, k, removed);
      KeptMultiple(n / cap, ind / cap, cap);
    }

    /** The smaller of the size of the layer and the number of its positions above ind, as unsigned
        arithmetic computes it. */
    method Removed(ghost n: nat, idTx: nat, ind: nat, cap: nat, size: nat) returns (r: nat)
      requires cap >= 1 && idTx == n / cap * cap && (ind <= n || ind + size * cap <= TWO_TO_THE_64)
      ensures r <= size
      ensures ind <= n ==> n / cap >= ind / cap && r == Min(size, n / cap - ind / cap)
      ensures ind > n ==> r == if ind / cap == n / cap then 0 else size
    {
      var d := idTx - ind + cap - 1;
      if ind <= n {
        CountAbove(n, ind, cap);
        DivMonotone(ind, n, cap);
      } else {
        CountBeyond(n, ind, cap, size);
      }
      if d < 0 {
        d := d + TWO_TO_THE_64;
      }
      r := Min(size, d / cap);
    }

    function SizeOf(k: nat): (r: nat)
      requires Valid() && k < |data|
      reads Footprint()
      ensures r == |layers[k]| <= capacity
    {
      data[k].size
    }
  }

  /** The constructor of the source, which throws for capacity 0. */
  method NewNarrowMerkleTree<T(0)>(hash: (T, T) -> T, empty: T, capacity: nat) returns (r: Option<NarrowMerkleTree<T>>)
    ensures r.None? <==> capacity == 0
    ensures r.Some? ==>
              && r.value.Valid() && fresh(r.value.Footprint())
              && r.value.hash == hash && r.value.empty == empty && r.value.capacity == capacity
              && r.value.Abstract() == Init()
  {
    if capacity == 0 {
      return None;
    }
    var t := new NarrowMerkleTree<T>(hash, empty, capacity);
    return Some(t);
  }
}
