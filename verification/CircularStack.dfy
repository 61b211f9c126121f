/** A ring buffer used as a bounded stack: pushing onto a full one forgets the oldest element. */
module CircularStack {
  import opened Arith
  import opened Wrappers

  function PushBounded<T>(s: seq<T>, t: T, cap: nat): (r: seq<T>)
    requires cap >= 1
    ensures |s| <= cap ==> |r| <= cap
    ensures r != [] && r[|r| - 1] == t
  {
    if |s| < cap then s + [t] else s[1..] + [t]
  }

  /** Without its newest min(n, |s|) elements. */
  function PopNewest<T>(s: seq<T>, n: nat): seq<T> {
    if n < |s| then s[..|s| - n] else []
  }

  /** A push keeps the newest cap elements, a pop the oldest ones, as many as there are. */
  lemma KeptEnds<T>(s: seq<T>, t: T, cap: nat, n: nat)
    requires cap >= 1 && |s| <= cap
    ensures var r := PushBounded(s, t, cap);
      |r| == Min(|s| + 1, cap) && r == (s + [t])[|s| + 1 - |r|..]
    ensures PopNewest(s, n) <= s && |PopNewest(s, n)| == |s| - Min(n, |s|)
  {
  }

  // ---------- Runs ----------

  datatype StackOp<T> = Push(t: T) | Pop(n: nat)

  /** The elements held after a run. */
  function RunBounded<T>(cap: nat, ops: seq<StackOp<T>>): (s: seq<T>)
    requires cap >= 1
    ensures |s| <= cap
    decreases |ops|
  {
    if ops == [] then []
    else
      var s := RunBounded(cap, ops[..|ops| - 1]);
      match ops[|ops| - 1]
      case Push(t) => PushBounded(s, t, cap)
      case Pop(n) => PopNewest(s, n)
  }

  /** What a stack without a bound would hold. */
  function RunUnbounded<T>(ops: seq<StackOp<T>>): seq<T>
    decreases |ops|
  {
    if ops == [] then []
    else
      var s := RunUnbounded(ops[..|ops| - 1]);
      match ops[|ops| - 1]
      case Push(t) => s + [t]
      case Pop(n) => PopNewest(s, n)
  }

  /** Forgetting only ever loses elements at the old end: after any run the bounded stack holds the
      newest elements of the unbounded one, so its back is right whenever it has one. */
  lemma {:induction false} BoundedHoldsNewest<T>(cap: nat, ops: seq<StackOp<T>>)
    requires cap >= 1
    ensures var b, u := RunBounded(cap, ops), RunUnbounded(ops);
            |b| <= |u| && b == u[|u| - |b|..]
    decreases |ops|
  {
    if ops != [] {
      BoundedHoldsNewest(cap, ops[..|ops| - 1]);
    }
  }

  // ---------- The ring ----------

  /** The position n before p in a ring of cap cells. */
  function StepBack(cap: nat, p: nat, n: nat): (r: nat)
    requires n <= cap
    ensures p < cap && 1 <= n ==> r < cap
  {
    if p < n then p + cap - n else p - n
  }

  /** The size cells that end before position `end`, oldest first. */
  function Window<T>(cells: seq<T>, end: nat, size: nat): (s: seq<T>)
    requires size <= |cells| && end < |cells|
    ensures |s| == size
  {
    seq(size, k requires 0 <= k < size => cells[StepBack(|cells|, end, size - k)])
  }

  lemma WindowPush<T>(cells: seq<T>, end: nat, size: nat, t: T)
    requires size <= |cells| && end < |cells|
    ensures var cap := |cells|;
            var next := (end + 1) % cap;
      && next < cap
      && Window(cells[end := t], next, if size < cap then size + 1 else size)
           == PushBounded(Window(cells, end, size), t, cap)
  {
    var cap, w := |cells|, Window(cells, end, size);
    WrapOnce(end + 1, cap);
    var r := Window(cells[end := t], (end + 1) % cap, if size < cap then size + 1 else size);
    forall k | 0 <= k < |r|
      ensures r[k] == PushBounded(w, t, cap)[k]
    {
      assert StepBack(cap, (end + 1) % cap, |r| - k) == if k == |r| - 1 then end else StepBack(cap, end, |r| - k - 1);
    }
  }

  lemma WindowPop<T>(cells: seq<T>, end: nat, size: nat, m: nat)
    requires m <= size <= |cells| && end < |cells|
    ensures var next := (end + |cells| - m) % |cells|;
      next < |cells| && Window(cells, next, size - m) == Window(cells, end, size)[..size - m]
  {
    var cap := |cells|;
    WrapOnce(end + cap - m, cap);
    var next := (end + cap - m) % cap;
    forall k | 0 <= k < size - m
      ensures Window(cells, next, size - m)[k] == Window(cells, end, size)[k]
    {
      assert StepBack(cap, next, size - m - k) == StepBack(cap, end, size - k);
    }
  }

  class CircularStack<T(0)> {
    const ring: array<T>
    const cap: nat
    var size: nat
    var end: nat     // index after the newest element

    ghost predicate Valid()
      reads this
    {
      cap >= 1 && ring.Length == cap && size <= cap && end < cap
    }

    /** The elements, oldest first. */
    ghost function Contents(): (s: seq<T>)
      requires Valid()
      reads this, ring
      ensures |s| == size
    {
      Window(ring[..], end, size)
    }

    /** The cells are not initialised. */
    constructor (s: nat)
      requires s >= 1
      ensures Valid() && fresh(ring) && cap == s && Contents() == []
    {
      ring := new T[s];
      cap, size, end := s, 0, 0;
    }

    function Diff(p: nat, n: nat): nat
      requires n <= cap
    {
      StepBack(cap, p, n)
    }

    method Push(t: T)
      requires Valid()
      modifies this`size, this`end, ring
      ensures Valid() && Contents() == PushBounded(old(Contents()), t, cap)
    {
      WindowPush(ring[..], end, size, t);
      ghost var cells := ring[..];
      ring[end] := t;
      assert ring[..] == cells[end := t];
      end := (end + 1) % cap;
      if size < cap {
        size := size + 1;
      }
    }

    method Pop(n: nat)
      requires Valid()
      modifies this`size, this`end
      ensures Valid() && Contents() == PopNewest(old(Contents()), n)
    {
      var m := if size <= n then size else n;
      WindowPop(ring[..], end, size, m);
      size := size - m;
      end := (end + cap - m) % cap;
    }

    /** The source throws where these answer None. */
    method Front() returns (r: Option<T>)
      requires Valid()
      ensures r == if Contents() == [] then None else Some(Contents()[0])
    {
      if size == 0 {
        return None;
      }
      return Some(ring[Diff(end, size)]);
    }

    method Back() returns (r: Option<T>)
      requires Valid()
      ensures r == if Contents() == [] then None else Some(Contents()[size - 1])
    {
      if size == 0 {
        return None;
      }
      return Some(ring[Diff(end, 1)]);
    }

    method At(s: nat) returns (r: Option<T>)
      requires Valid()
      ensures r == if s < |Contents()| then Some(Contents()[s]) else None
    {
      if s >= size {
        return None;
      }
      return Some(ring[Diff(end, size - s)]);
    }
  }

  /** The constructor of the source, which throws for size 0. */
  method NewCircularStack<T(0)>(s: nat) returns (r: Option<CircularStack<T>>)
    ensures r.None? <==> s == 0
    ensures r.Some? ==> fresh(r.value) && r.value.Valid() && r.value.cap == s && r.value.Contents() == []
  {
    if s == 0 {
      return None;
    }
    var t := new CircularStack<T>(s);
    return Some(t);
  }
}
