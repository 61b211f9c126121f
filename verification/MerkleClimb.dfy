/** What one push writes into the flat array, for any leaf count, and what that means: with a power of
    two the array stays right, and with an odd count the first leaf is never read. */
module MerkleClimb {
  import opened Arith
  import opened MerkleCells

  function Left(parent: nat): nat { parent * 2 + 1 }

  function Right(parent: nat): nat { parent * 2 + 2 }

  function Parent(node: nat): nat { if node == 0 then 0 else (node - 1) / 2 }

  /** One turn: the parent of `current` takes the value of a left child, or the hash of both. */
  function Turn<T>(hash: (T, T) -> T, cells: seq<T>, current: nat): (r: seq<T>)
    requires 0 < current < |cells|
    ensures |r| == |cells|
  {
    var up := Parent(current);
    cells[up := if current == Left(up) then cells[Left(up)] else hash(cells[Left(up)], cells[Right(up)])]
  }

  /** n turns, and the cell where they end. */
  function Turns<T>(hash: (T, T) -> T, cells: seq<T>, current: nat, n: nat): (r: (seq<T>, nat))
    requires current < |cells| && Pow(2, n) <= current + 1
    ensures |r.0| == |cells| && r.1 < |cells|
    decreases n
  {
    if n == 0 then (cells, current) else Turns(hash, Turn(hash, cells, current), Parent(current), n - 1)
  }

  /** As many turns as there are levels up to the common ancestor of this leaf and the first. */
  function TurnsFrom(leafs: nat, next: nat): (n: nat)
    requires leafs <= next < 2 * leafs - 1
    ensures Pow(2, n) <= next + 1
  {
    1 + FloorLog2(next - (leafs - 1))
  }

  /** The array after a push into cell `next`, and the cell of the root. */
  function Written<T>(hash: (T, T) -> T, leafs: nat, cells: seq<T>, next: nat, item: T): (r: (seq<T>, nat))
    requires |cells| == 2 * leafs - 1 && leafs - 1 <= next < |cells|
    ensures |r.0| == |cells| && r.1 < |cells|
  {
    if next == leafs - 1 then (cells[next := item], next)
    else Turns(hash, cells[next := item], next, TurnsFrom(leafs, next))
  }

  // ---------- Any leaf count ----------

  /** The node i levels above. */
  function Ancestor(node: nat, i: nat): int {
    (node + 1) / Pow(2, i) - 1
  }

  /** After a push into cell `next`, whose climb makes n turns: the leaf is in its cell, each cell on the
      way up has the value of the cell below it when that is a left child, and the hash of both children
      otherwise, and all other cells are untouched. */
  ghost predicate WritesPath<T>(hash: (T, T) -> T, cells: seq<T>, next: nat, item: T, n: nat, r: seq<T>) {
    && |r| == |cells| && next < |cells| && Pow(2, n) <= next + 1 && r[next] == item
    && (forall i: nat :: i < n ==> OnPath(hash, next, i, r))
    && (forall x: nat :: x < |r| && (forall i: nat :: i <= n ==> x != Ancestor(next, i)) ==> r[x] == cells[x])
  }

  ghost predicate OnPath<T>(hash: (T, T) -> T, next: nat, i: nat, r: seq<T>) {
    var a, up := Ancestor(next, i), Ancestor(next, i + 1);
    && 0 < a < |r| && 0 <= up < a && up == (a - 1) / 2
    && r[up] == if a % 2 == 1 then r[a] else hash(r[a - 1], r[a])
  }

  lemma AncestorOfParent(node: nat, i: nat)
    requires node > 0
    ensures Ancestor(Parent(node), i) == Ancestor(node, i + 1)
    ensures Ancestor(node, 0) == node
  {
    PowNext(2, i);
    DivDiv(node + 1, 2, Pow(2, i));
    PowZero(2);
  }

  lemma AncestorStep(node: nat, i: nat)
    requires Pow(2, i + 1) <= node + 1
    ensures 0 < Ancestor(node, i) <= node && Ancestor(node, i + 1) == (Ancestor(node, i) - 1) / 2
  {
    hide Pow;
    PowNext(2, i);
    DivDiv(node + 1, Pow(2, i), 2);
    DivGreatest(node + 1, Pow(2, i), 2);
    DivBounds(node + 1, Pow(2, i));
    MulMonotone((node + 1) / Pow(2, i), 1, Pow(2, i));
  }

  /** The turns write the path and nothing else. */
  lemma {:induction false} TurnsWritePath<T>(hash: (T, T) -> T, cells: seq<T>, current: nat, n: nat)
    requires current < |cells| && Pow(2, n) <= current + 1
    ensures var (r, top) := Turns(hash, cells, current, n);
      WritesPath(hash, cells, current, cells[current], n, r) && top == Ancestor(current, n)
    decreases n
  {
    hide Ancestor, Pow;
    AncestorZero(current);
    PowZero(2);
    if n > 0 {
      PowNext(2, n - 1);
      var up, cells' := Parent(current), Turn(hash, cells, current);
      TurnsWritePath(hash, cells', up, n - 1);
      forall i: nat
        ensures Ancestor(up, i) == Ancestor(current, i + 1) <= up
      {
        AncestorOfParent(current, i);
        AncestorBelow(up, i);
      }
      PathGoesOn(hash, cells, current, n, Turns(hash, cells', up, n - 1).0);
    }
  }

  lemma AncestorZero(node: nat)
    ensures Ancestor(node, 0) == node
  {
    PowZero(2);
  }

  lemma AncestorBelow(node: nat, i: nat)
    ensures Ancestor(node, i) <= node
  {
    DivBounds(node + 1, Pow(2, i));
    MulMonotone((node + 1) / Pow(2, i), 1, Pow(2, i));
  }

  /** The first turn together with the path that the others write. */
  lemma PathGoesOn<T>(hash: (T, T) -> T, cells: seq<T>, current: nat, n: nat, r: seq<T>)
    requires 0 < current < |cells| && n >= 1 && Pow(2, n) <= current + 1
    requires var up, cells' := Parent(current), Turn(hash, cells, current);
      WritesPath(hash, cells', up, cells'[up], n - 1, r)
    requires Ancestor(current, 0) == current
    requires forall i: nat :: Ancestor(Parent(current), i) == Ancestor(current, i + 1) <= Parent(current)
    ensures WritesPath(hash, cells, current, cells[current], n, r)
  {
    hide Ancestor, Pow;
    var up := Parent(current);
    AncestorZero(up);
    forall i: nat | i < n
      ensures OnPath(hash, current, i, r)
    {
      if i > 0 {
        assert OnPath(hash, up, i - 1, r);
      }
    }
    forall x: nat | x < |r| && forall i: nat :: i <= n ==> x != Ancestor(current, i)
      ensures r[x] == cells[x]
    {
      forall i: nat | i <= n - 1
        ensures x != Ancestor(up, i)
      {
      }
      assert x != Ancestor(current, 1);
    }
  }

  /** x has n binary digits. */
  ghost predicate Digits(x: nat, n: nat) {
    if x == 0 then n == 0 else n > 0 && Pow(2, n - 1) <= x < Pow(2, n)
  }

  /** What a push writes, whatever the leaf count. The number of turns is that of the binary digits of
      the number of leaves before it. */
  lemma WrittenIsPushed<T>(hash: (T, T) -> T, leafs: nat, cells: seq<T>, next: nat, item: T)
    requires |cells| == 2 * leafs - 1 && leafs - 1 <= next < |cells|
    ensures var (r, top) := Written(hash, leafs, cells, next, item);
      exists n: nat ::
        && Digits(next - (leafs - 1), n)
        && WritesPath(hash, cells, next, item, n, r) && top == Ancestor(next, n)
  {
    hide Pow, Ancestor, Turns, WritesPath;
    var (r, top) := Written(hash, leafs, cells, next, item);
    var n := if next == leafs - 1 then 0 else TurnsFrom(leafs, next);
    var stored := cells[next := item];
    PowZero(2);
    NoTurns(hash, stored, next);
    TurnsWritePath(hash, stored, next, n);
    StoredFirst(hash, cells, next, item, n, r);
    assert Digits(next - (leafs - 1), n);
    assert WritesPath(hash, cells, next, item, n, r) && top == Ancestor(next, n);
  }

  lemma NoTurns<T>(hash: (T, T) -> T, cells: seq<T>, current: nat)
    requires current < |cells|
    ensures Pow(2, 0) <= current + 1 && Turns(hash, cells, current, 0) == (cells, current)
  {
  }

  lemma StoredFirst<T>(hash: (T, T) -> T, cells: seq<T>, next: nat, item: T, n: nat, r: seq<T>)
    requires next < |cells| && WritesPath(hash, cells[next := item], next, item, n, r)
    ensures WritesPath(hash, cells, next, item, n, r)
  {
    hide Ancestor, Pow;
    AncestorZero(next);
  }

  // ---------- A power of two ----------

  lemma {:induction false} TurnsClimb<T>(hash: (T, T) -> T, h: nat, cells: seq<T>, s: seq<T>, x: T, i: nat,
        current: nat, n: nat)
    requires Climbing(hash, h, cells, s, x, i, current) && i + n <= h
    requires current < |cells| && Pow(2, n) <= current + 1
    ensures var (r, top) := Turns(hash, cells, current, n);
      Climbing(hash, h, r, s, x, i + n, top)
    decreases n
  {
    hide Climbing, Pow;
    if n > 0 {
      PowNext(2, n - 1);
      ClimbStep(hash, h, cells, s, x, i, current);
      TurnsClimb(hash, h, Turn(hash, cells, current), s, x, i + 1, Parent(current), n - 1);
    }
  }

  /** Whatever the cells that are not settled hold, a push settles the tree for the longer list, rights
      the path to the root, and ends in the root cell. */
  lemma WrittenSettles<T>(hash: (T, T) -> T, h: nat, cells: seq<T>, s: seq<T>, item: T)
    requires Settled(hash, h, cells, s) && |s| < Pow(2, h) && |cells| == 2 * Pow(2, h) - 1
    ensures var (r, top) := Written(hash, Pow(2, h), cells, Pow(2, h) - 1 + |s|, item);
      && Settled(hash, h, r, s + [item])
      && PathTo(hash, h, r, s + [item], RootLevel(|s| + 1))
      && top == Slot(h, RootLevel(|s| + 1), 0)
  {
    hide Climbing, Settled, PathTo, Slot, Pow;
    if s == [] {
      FirstLeaf(hash, h, cells, item);
      assert s + [item] == [item];
    } else {
      var next := Pow(2, h) - 1 + |s|;
      ClimbStart(hash, h, cells, s, item);
      RootLevelInTree(h, |s| + 1);
      TurnsClimb(hash, h, cells[next := item], s, item, 0, next, TurnsFrom(Pow(2, h), next));
      var (r, top) := Written(hash, Pow(2, h), cells, next, item);
      ClimbEnd(hash, h, r, s, item, top);
    }
  }

  // ---------- An odd leaf count ----------

  /** The array after the items are pushed, one after the other, and the cell of the root. */
  function Filled<T>(hash: (T, T) -> T, leafs: nat, cells: seq<T>, items: seq<T>): (r: (seq<T>, nat))
    requires leafs >= 1 && |cells| == 2 * leafs - 1 && |items| <= leafs
    ensures |r.0| == |cells| && r.1 < |cells|
    decreases |items|
  {
    if items == [] then (cells, leafs - 1)
    else
      var n := |items| - 1;
      Written(hash, leafs, Filled(hash, leafs, cells, items[..n]).0, leafs - 1 + n, items[n])
  }

  /** From any leaf but the first the climb neither reads nor writes the cell of the first. */
  lemma {:induction false} TurnsSkipFirst<T>(hash: (T, T) -> T, leafs: nat, cells: seq<T>, current: nat, n: nat, v: T)
    requires leafs >= 3 && leafs % 2 == 1 && |cells| == 2 * leafs - 1
    requires current < |cells| && current != leafs - 1 && Pow(2, n) <= current + 1
    ensures var (r, top) := Turns(hash, cells, current, n);
      && Turns(hash, cells[leafs - 1 := v], current, n) == (r[leafs - 1 := v], top)
      && (n > 0 ==> top < leafs - 1)
    decreases n
  {
    if n > 0 {
      var up := Parent(current);
      assert up < leafs - 1;
      assert current != Left(up) ==> Left(up) != leafs - 1 && Right(up) == current;
      assert Turn(hash, cells[leafs - 1 := v], current) == Turn(hash, cells, current)[leafs - 1 := v];
      TurnsSkipFirst(hash, leafs, Turn(hash, cells, current), up, n - 1, v);
    }
  }

  lemma WrittenSkipsFirst<T>(hash: (T, T) -> T, leafs: nat, cells: seq<T>, next: nat, item: T, v: T)
    requires leafs >= 3 && leafs % 2 == 1 && |cells| == 2 * leafs - 1 && leafs <= next < |cells|
    ensures var (r, top) := Written(hash, leafs, cells, next, item);
      && Written(hash, leafs, cells[leafs - 1 := v], next, item) == (r[leafs - 1 := v], top)
      && top < leafs - 1
  {
    hide Turns;
    assert cells[leafs - 1 := v][next := item] == cells[next := item][leafs - 1 := v];
    TurnsSkipFirst(hash, leafs, cells[next := item], next, TurnsFrom(leafs, next), v);
  }

  lemma OneItem<T>(hash: (T, T) -> T, leafs: nat, cells: seq<T>, a: T)
    requires leafs >= 1 && |cells| == 2 * leafs - 1
    ensures Filled(hash, leafs, cells, [a]) == (cells[leafs - 1 := a], leafs - 1)
  {
    assert [a][..0] == [];
    assert Filled(hash, leafs, cells, []) == (cells, leafs - 1);
  }

  /** With an odd leaf count of at least 3 the first leaf of a block, which is also the root of the block
      before it, is lost: however many items follow, no other cell depends on it, and the root does
      not. */
  lemma {:induction false} FirstItemIsLost<T>(hash: (T, T) -> T, leafs: nat, cells: seq<T>, a: T, b: T, rest: seq<T>)
    requires leafs >= 3 && leafs % 2 == 1 && |cells| == 2 * leafs - 1 && 1 + |rest| <= leafs
    ensures var (r, top) := Filled(hash, leafs, cells, [a] + rest);
            var (r', top') := Filled(hash, leafs, cells, [b] + rest);
      && top == top' && r' == r[leafs - 1 := b]
      && (rest != [] ==> top < leafs - 1 && r[top] == r'[top'])
    decreases |rest|
  {
    hide Written;
    var n := |rest|;
    if n == 0 {
      assert [a] + rest == [a] && [b] + rest == [b];
      OneItem(hash, leafs, cells, a);
      OneItem(hash, leafs, cells, b);
    } else {
      assert ([a] + rest)[..n] == [a] + rest[..n - 1] && ([b] + rest)[..n] == [b] + rest[..n - 1];
      FirstItemIsLost(hash, leafs, cells, a, b, rest[..n - 1]);
      var before := Filled(hash, leafs, cells, [a] + rest[..n - 1]).0;
      WrittenSkipsFirst(hash, leafs, before, leafs - 1 + n, rest[n - 1], b);
    }
  }

  /** The root of two items: of both when the leaf count is even, the second item alone when it is odd. */
  lemma RootOfTwo<T>(hash: (T, T) -> T, leafs: nat, cells: seq<T>, a: T, b: T)
    requires leafs >= 2 && |cells| == 2 * leafs - 1
    ensures var (r, top) := Filled(hash, leafs, cells, [a, b]);
      r[top] == if leafs % 2 == 0 then hash(a, b) else b
  {
    assert [a, b][..1] == [a];
    OneItem(hash, leafs, cells, a);
    var two := cells[leafs - 1 := a][leafs := b];
    assert TurnsFrom(leafs, leafs) == 1;
    assert Pow(2, 1) == 2 && Pow(2, 0) == 1;
    assert Turns(hash, two, leafs, 1) == (Turn(hash, two, leafs), Parent(leafs));
  }
}
