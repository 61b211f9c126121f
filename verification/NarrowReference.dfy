/** The narrow tree without layers: a machine that knows only which positions are held, and the proof
    that every run of the tree follows it. */
module NarrowReference {
  import opened Arith
  import opened NarrowSpec
  import opened NarrowRuns
  import opened Wrappers

  /** The count, the last drop, the items left after the first `base` ones, and which positions are held
      at which spacing c^k. */
  datatype Reference<T> = Reference(count: nat, prev: nat, base: nat, items: seq<T>, held: iset<(nat, nat)>)

  /** The greatest position held at any spacing that is not above ind. */
  ghost function Best(held: iset<(nat, nat)>, ind: nat): Option<nat> {
    if exists k: nat :: (k, ind) in held then Some(ind)
    else if ind == 0 then None
    else Best(held, ind - 1)
  }

  lemma {:induction false} BestIsGreatest(held: iset<(nat, nat)>, ind: nat)
    ensures Best(held, ind).None? <==> forall k: nat, pos: nat :: (k, pos) in held ==> pos > ind
    ensures Best(held, ind).Some? ==>
              Best(held, ind).value <= ind && exists k: nat :: (k, Best(held, ind).value) in held
    ensures Best(held, ind).Some? ==>
              forall k: nat, pos: nat :: (k, pos) in held && pos <= ind ==> pos <= Best(held, ind).value
  {
    if ind > 0 {
      BestIsGreatest(held, ind - 1);
    }
  }

  /** What a drop answers. */
  ghost function Answer<T>(r: Reference<T>, ind: nat): nat {
    if ind == 0 || ind <= r.prev then ind
    else
      match Best(r.held, ind)
      case Some(pos) => pos
      case None => ind
  }

  /** An add is held at every spacing that divides it, and pushes out what is c multiples behind. A drop
      falls back to its answer: nothing above the index is held any more, and without an answer below
      the index nothing is. */
  ghost function RefStep<T>(c: nat, r: Reference<T>, op: Op<T>): Reference<T>
    requires c >= 2
  {
    match op
    case Add(t) =>
      var n := r.count + 1;
      Reference(n, r.prev, r.base, r.items + [t],
        iset k: nat, pos: nat | (pos == n && pos % Pow(c, k) == 0) ||
          ((k, pos) in r.held && n / Pow(c, k) - pos / Pow(c, k) < c) :: (k, pos))
    case Drop(ind) =>
      if ind == 0 then Reference(0, 0, 0, [], iset{})
      else if ind <= r.prev then r
      else
        var answer := Answer(r, ind);
        if Best(r.held, ind).Some? && r.base <= answer <= r.base + |r.items| then
          Reference(answer, answer, r.base, r.items[..answer - r.base],
            iset k: nat, pos: nat | (k, pos) in r.held && pos <= ind :: (k, pos))
        else
          Reference(ind, ind, ind, [], iset{})
  }

  /** None when some drop asks for more items than there are. */
  ghost function RefRun<T>(c: nat, ops: seq<Op<T>>): Option<Reference<T>>
    requires c >= 2
    decreases |ops|
  {
    if ops == [] then Some(Reference(0, 0, 0, [], iset{}))
    else
      match RefRun(c, ops[..|ops| - 1])
      case None => None
      case Some(r) =>
        var op := ops[|ops| - 1];
        if op.Drop? && op.ind > r.count then None else Some(RefStep(c, r, op))
  }

  /** The tree shows what the reference says, and holds exactly its positions. */
  ghost predicate Follows<T>(c: nat, s: State<T>, base: nat, items: seq<T>, r: Reference<T>)
    requires c >= 2
  {
    && s.txs == r.count && s.prev == r.prev && base == r.base && items == r.items
    && forall k: nat, pos: nat :: Held(c, s, k, pos) <==> (k, pos) in r.held
  }

  lemma AddFollows<T>(c: nat, hash: (T, T) -> T, empty: T, s: State<T>, base: nat, items: seq<T>, r: Reference<T>, t: T)
    requires c >= 2 && Inv(c, hash, empty, s, base, items) && Follows(c, s, base, items, r)
    ensures Follows(c, NarrowSpec.Add(c, hash, empty, s, t), base, items + [t], RefStep(c, r, Add(t)))
  {
    hide Inv, Held, Pow, AddLayers, RootOf;
    forall k: nat, pos: nat
      ensures Held(c, NarrowSpec.Add(c, hash, empty, s, t), k, pos) <==> (k, pos) in RefStep(c, r, Add(t)).held
    {
      AddHolds(c, hash, empty, s, base, items, t, k, pos);
    }
  }

  /** A drop answers the greatest position held at or below the index, or the index itself. */
  lemma DropAnswers<T>(c: nat, hash: (T, T) -> T, empty: T, s: State<T>, base: nat, items: seq<T>, r: Reference<T>,
        ind: nat)
    requires c >= 2 && Inv(c, hash, empty, s, base, items) && Follows(c, s, base, items, r) && ind <= s.txs
    ensures NarrowSpec.Drop(c, s, ind).1 == Answer(r, ind)
    ensures s.prev < ind ==> (HasCheckpoint(c, s, ind) <==> Best(r.held, ind).Some?)
  {
    hide Inv, Held, Pow, HasCheckpoint, RootOf, Prefix, DropLayers, Target, AllEmpty, Best;
    if s.prev < ind {
      DropIsOptimal(c, hash, empty, s, base, items, ind);
      BestIsGreatest(r.held, ind);
      var answer := NarrowSpec.Drop(c, s, ind).1;
      if HasCheckpoint(c, s, ind) {
        var k: nat :| Held(c, s, k, answer);
        assert (k, answer) in r.held;
      } else if Best(r.held, ind).Some? {
        var pos := Best(r.held, ind).value;
        var k: nat :| (k, pos) in r.held;
        HeldGivesCheckpoint(c, s, ind, k, pos);
      }
    }
  }

  lemma DropFollows<T>(c: nat, hash: (T, T) -> T, empty: T, s: State<T>, base: nat, items: seq<T>, r: Reference<T>,
        ind: nat)
    requires c >= 2 && Inv(c, hash, empty, s, base, items) && Follows(c, s, base, items, r) && ind <= s.txs
    ensures var (base', items') := Survivors(c, s, base, items, ind);
      Follows(c, NarrowSpec.Drop(c, s, ind).0, base', items', RefStep(c, r, Drop(ind)))
  {
    hide Inv, Pow, HasCheckpoint, RootOf, Prefix, DropLayers, Target, AllEmpty, Best, Held, Answer;
    DropAnswers(c, hash, empty, s, base, items, r, ind);
    if ind == 0 {
      NothingHeld<T>(c);
    } else if s.prev < ind {
      TotalsFit(c, hash, empty, s, base, items);
      DropIsOptimal(c, hash, empty, s, base, items, ind);
      BestIsGreatest(r.held, ind);
      forall k: nat, pos: nat
        ensures Held(c, NarrowSpec.Drop(c, s, ind).0, k, pos) <==> (k, pos) in r.held && pos <= ind
      {
        DropKeepsBelow(c, hash, empty, s, base, items, ind, k, pos);
      }
    }
  }

  lemma NothingHeld<T>(c: nat)
    requires c >= 2
    ensures forall k: nat, pos: nat :: !Held(c, Init<T>(), k, pos)
  {
  }

  /** Every run of the narrow tree, adds and drops in any order, follows the reference: the count, the
      items left and the positions held are its own, the root is the running hash of its items, and
      every drop answers what it answers. */
  lemma {:induction false} RunFollows<T>(c: nat, hash: (T, T) -> T, empty: T, ops: seq<Op<T>>)
    requires c >= 2
    ensures Run(c, hash, empty, ops).Some? <==> RefRun(c, ops).Some?
    ensures Run(c, hash, empty, ops).Some? ==>
              var s, r := Run(c, hash, empty, ops).value, RefRun(c, ops).value;
              var (base, items) := Left(c, hash, empty, ops);
              && Follows(c, s, base, items, r)
              && RootOf(s.layers, empty) == Prefix(hash, empty, r.items)
              && forall ind: nat :: ind <= r.count ==> NarrowSpec.Drop(c, s, ind).1 == Answer(r, ind)
    decreases |ops|
  {
    hide Inv, RootOf, Prefix, Held, NarrowSpec.Add, NarrowSpec.Drop, Survivors, RefStep, Answer, AlwaysCheckpoint;
    if ops == [] {
      NothingHeld<T>(c);
    } else {
      var before := ops[..|ops| - 1];
      RunFollows(c, hash, empty, before);
      if Run(c, hash, empty, ops).Some? {
        RunIsExact(c, hash, empty, before);
        var s, r := Run(c, hash, empty, before).value, RefRun(c, before).value;
        var (base, items) := Left(c, hash, empty, before);
        match ops[|ops| - 1] {
          case Add(t) => AddFollows(c, hash, empty, s, base, items, r, t);
          case Drop(ind) => DropFollows(c, hash, empty, s, base, items, r, ind);
        }
      }
    }
    if Run(c, hash, empty, ops).Some? {
      RunIsExact(c, hash, empty, ops);
      var s, r := Run(c, hash, empty, ops).value, RefRun(c, ops).value;
      var (base, items) := Left(c, hash, empty, ops);
      forall ind: nat | ind <= r.count
        ensures NarrowSpec.Drop(c, s, ind).1 == Answer(r, ind)
      {
        DropAnswers(c, hash, empty, s, base, items, r, ind);
      }
    }
  }
}
