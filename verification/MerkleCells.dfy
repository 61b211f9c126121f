/** The flat array of a perfect binary tree with 2^h leaves: which cells hold true subtree values,
    and why a push that only rewrites the path above the new leaf reads none of the others. */
module MerkleCells {
  import opened Arith
  import opened MerkleSpec

  function FloorLog2(x: nat): (y: nat)
    requires x >= 1
    ensures Pow(2, y) <= x < Pow(2, y + 1)
  {
    if x == 1 then 0 else 1 + FloorLog2(x / 2)
  }

  /** Levels between the leaves and the lowest node above the first n leaves. */
  function RootLevel(n: nat): (r: nat)
    ensures n <= Pow(2, r)
    ensures n >= 2 ==> r >= 1 && Pow(2, r - 1) < n
  {
    if n <= 1 then 0 else 1 + FloorLog2(n - 1)
  }

  /** Array index of the p-th node of level l; level 0 holds the leaves. */
  function Slot(h: nat, l: nat, p: nat): nat
    requires l <= h
  {
    Pow(2, h - l) - 1 + p
  }

  /** The node of level l above leaf j. */
  function Above(j: nat, l: nat): nat {
    j / Pow(2, l)
  }

  lemma AboveStep(j: nat, l: nat)
    ensures Above(j, l + 1) == Above(j, l) / 2
  {
    DivDiv(j, Pow(2, l), 2);
  }

  lemma AboveInRange(h: nat, j: nat, l: nat)
    requires l <= h && j < Pow(2, h)
    ensures Above(j, l) < Pow(2, h - l)
    ensures Slot(h, l, Above(j, l)) < 2 * Pow(2, h) - 1
  {
    PowAdd(2, h - l, l);
    DivGreatest(j, Pow(2, l), Pow(2, h - l));
    PowMonotone(2, h - l, h);
  }

  /** left, right and parent of the flat layout, in terms of levels. */
  lemma Family(h: nat, l: nat, q: nat)
    requires l < h
    ensures 2 * Slot(h, l + 1, q) + 1 == Slot(h, l, 2 * q)
    ensures 2 * Slot(h, l + 1, q) + 2 == Slot(h, l, 2 * q + 1)
    ensures Slot(h, l, 2 * q) > 0 && (Slot(h, l, 2 * q) - 1) / 2 == Slot(h, l + 1, q)
    ensures (Slot(h, l, 2 * q + 1) - 1) / 2 == Slot(h, l + 1, q)
  {
    assert Pow(2, h - l) == 2 * Pow(2, h - (l + 1));
  }

  lemma SlotInjective(h: nat, l: nat, p: nat, l': nat, p': nat)
    requires l <= h && l' <= h && p < Pow(2, h - l) && p' < Pow(2, h - l')
    ensures Slot(h, l, p) == Slot(h, l', p') <==> l == l' && p == p'
  {
    if l < l' {
      PowMonotone(2, h - l' + 1, h - l);
    } else if l' < l {
      PowMonotone(2, h - l + 1, h - l');
    }
  }

  // ---------- Cells that hold their true value ----------

  ghost predicate CellIs<T>(hash: (T, T) -> T, h: nat, cells: seq<T>, s: seq<T>, l: nat, p: nat) {
    && l <= h && p * Pow(2, l) < |s| && Slot(h, l, p) < |cells|
    && cells[Slot(h, l, p)] == Node(hash, s, l, p)
  }

  /** Every cell all of whose leaves are present holds its value; other cells may be stale. */
  ghost predicate Settled<T>(hash: (T, T) -> T, h: nat, cells: seq<T>, s: seq<T>) {
    && |s| <= Pow(2, h) && |cells| == 2 * Pow(2, h) - 1
    && forall l: nat, p: nat :: l <= h && (p + 1) * Pow(2, l) <= |s| ==> CellIs(hash, h, cells, s, l, p)
  }

  lemma SettledSize<T>(hash: (T, T) -> T, h: nat, cells: seq<T>, s: seq<T>)
    requires Settled(hash, h, cells, s)
    ensures |cells| == 2 * Pow(2, h) - 1
  {
  }

  /** The cell of level l above the last leaf holds its value. */
  ghost predicate PathCell<T>(hash: (T, T) -> T, h: nat, cells: seq<T>, s: seq<T>, l: nat)
    requires s != []
  {
    CellIs(hash, h, cells, s, l, Above(|s| - 1, l))
  }

  /** The path from the last leaf up to level n holds its values. */
  ghost predicate PathTo<T>(hash: (T, T) -> T, h: nat, cells: seq<T>, s: seq<T>, n: nat)
    requires s != []
  {
    n <= h && forall l: nat :: l <= n ==> PathCell(hash, h, cells, s, l)
  }

  lemma LeafCell<T>(hash: (T, T) -> T, h: nat, cells: seq<T>, s: seq<T>, p: nat)
    requires Settled(hash, h, cells, s) && p < |s|
    ensures Pow(2, h) - 1 + p < |cells| && cells[Pow(2, h) - 1 + p] == s[p]
  {
    assert CellIs(hash, h, cells, s, 0, p);
  }

  lemma SettledPrefix<T>(hash: (T, T) -> T, h: nat, cells: seq<T>, s: seq<T>, m: nat)
    requires Settled(hash, h, cells, s) && m <= |s|
    ensures Settled(hash, h, cells, s[..m])
  {
    forall l: nat, p: nat | l <= h && (p + 1) * Pow(2, l) <= m
      ensures CellIs(hash, h, cells, s[..m], l, p)
    {
      assert CellIs(hash, h, cells, s, l, p);
      NodeOfPrefix(hash, s, m, l, p);
    }
  }

  /** Cells with all leaves among the first j lie strictly left of the path above leaf j. */
  lemma LeftOfPath(h: nat, j: nat, l: nat, p: nat, i: nat)
    requires j < Pow(2, h) && l <= h && i <= h && (p + 1) * Pow(2, l) <= j
    ensures p < Above(j, l) && Slot(h, l, p) != Slot(h, i, Above(j, i))
  {
    DivGreatest(j, Pow(2, l), p + 1);
    AboveInRange(h, j, l);
    AboveInRange(h, j, i);
    SlotInjective(h, l, p, i, Above(j, i));
  }

  lemma SettledUpdate<T>(hash: (T, T) -> T, h: nat, cells: seq<T>, s: seq<T>, i: nat, v: T)
    requires Settled(hash, h, cells, s) && |s| < Pow(2, h) && i <= h
    ensures var slot := Slot(h, i, Above(|s|, i));
            slot < |cells| && Settled(hash, h, cells[slot := v], s)
  {
    AboveInRange(h, |s|, i);
    var slot := Slot(h, i, Above(|s|, i));
    var after := cells[slot := v];
    forall l: nat, p: nat | l <= h && (p + 1) * Pow(2, l) <= |s|
      ensures CellIs(hash, h, after, s, l, p)
    {
      assert CellIs(hash, h, cells, s, l, p);
      LeftOfPath(h, |s|, l, p, i);
    }
  }

  lemma PathUpdate<T>(hash: (T, T) -> T, h: nat, cells: seq<T>, s: seq<T>, n: nat, v: T)
    requires s != [] && |s| <= Pow(2, h) && |cells| == 2 * Pow(2, h) - 1
    requires PathTo(hash, h, cells, s, n) && n < h
    requires Above(|s| - 1, n + 1) * Pow(2, n + 1) < |s| && v == Node(hash, s, n + 1, Above(|s| - 1, n + 1))
    ensures var slot := Slot(h, n + 1, Above(|s| - 1, n + 1));
            slot < |cells| && PathTo(hash, h, cells[slot := v], s, n + 1)
  {
    var j := |s| - 1;
    AboveInRange(h, j, n + 1);
    var slot := Slot(h, n + 1, Above(j, n + 1));
    var after := cells[slot := v];
    forall l: nat | l <= n + 1
      ensures PathCell(hash, h, after, s, l)
    {
      if l <= n {
        assert PathCell(hash, h, cells, s, l);
        AboveInRange(h, j, l);
        SlotInjective(h, l, Above(j, l), n + 1, Above(j, n + 1));
      }
    }
  }

  /** What the climb writes at level i + 1 is the value of that cell. It reads the path cell below
      and, when that one is a right child, its settled left sibling. */
  lemma ClimbValue<T>(hash: (T, T) -> T, h: nat, cells: seq<T>, s: seq<T>, x: T, i: nat)
    requires Settled(hash, h, cells, s) && |s| < Pow(2, h) && i < h
    requires PathTo(hash, h, cells, s + [x], i)
    ensures var a, up := Above(|s|, i), Above(|s|, i + 1);
      && up == a / 2 && up * Pow(2, i + 1) < |s + [x]|
      && Slot(h, i, a) < |cells|
      && (a % 2 == 0 ==> Node(hash, s + [x], i + 1, up) == cells[Slot(h, i, a)])
      && (a % 2 == 1 ==> Node(hash, s + [x], i + 1, up) == hash(cells[Slot(h, i, a - 1)], cells[Slot(h, i, a)]))
  {
    var j, a, up, half := |s|, Above(|s|, i), Above(|s|, i + 1), Pow(2, i);
    AboveStep(j, i);
    assert PathCell(hash, h, cells, s + [x], i);
    DivBounds(j, half);
    DivBounds(j, Pow(2, i + 1));
    DivGreatest(j, half, 2 * up + 1);
    if a % 2 == 1 {
      assert 2 * up == a - 1;
      assert CellIs(hash, h, cells, s, i, a - 1);
      assert (s + [x])[..j] == s;
      NodeOfPrefix(hash, s + [x], j, i, a - 1);
    }
  }

  /** What a push has established after i turns of its loop: `current` is the cell of level i above
      the new leaf x, the path up to it is right, and everything settled before still is. */
  ghost predicate Climbing<T>(hash: (T, T) -> T, h: nat, cells: seq<T>, s: seq<T>, x: T, i: nat, current: nat) {
    && Settled(hash, h, cells, s) && |s| < Pow(2, h) && i <= h
    && PathTo(hash, h, cells, s + [x], i)
    && current == Slot(h, i, Above(|s|, i))
  }

  /** One turn of the climb, in terms of array indices. */
  lemma ClimbStep<T>(hash: (T, T) -> T, h: nat, cells: seq<T>, s: seq<T>, x: T, i: nat, current: nat)
    requires Climbing(hash, h, cells, s, x, i, current) && i < h
    ensures 0 < current < |cells|
    ensures var up := (current - 1) / 2;
      && (current == 2 * up + 1 || current == 2 * up + 2)
      && var v := if current == 2 * up + 1 then cells[2 * up + 1] else hash(cells[2 * up + 1], cells[2 * up + 2]);
         Climbing(hash, h, cells[up := v], s, x, i + 1, up)
  {
    ClimbValue(hash, h, cells, s, x, i);
    var v := Node(hash, s + [x], i + 1, Above(|s|, i + 1));
    Family(h, i, Above(|s|, i + 1));
    SettledUpdate(hash, h, cells, s, i + 1, v);
    PathUpdate(hash, h, cells, s + [x], i, v);
  }

  /** Storing the new leaf starts the climb. */
  lemma ClimbStart<T>(hash: (T, T) -> T, h: nat, cells: seq<T>, s: seq<T>, x: T)
    requires Settled(hash, h, cells, s) && |s| < Pow(2, h)
    ensures var leaf := Pow(2, h) - 1 + |s|;
            leaf < |cells| && Climbing(hash, h, cells[leaf := x], s, x, 0, leaf)
  {
    assert Above(|s|, 0) == |s|;
    SettledUpdate(hash, h, cells, s, 0, x);
    assert PathCell(hash, h, cells[Pow(2, h) - 1 + |s| := x], s + [x], 0);
  }

  /** The very first leaf of a tree needs no climb. */
  lemma FirstLeaf<T>(hash: (T, T) -> T, h: nat, cells: seq<T>, x: T)
    requires |cells| == 2 * Pow(2, h) - 1
    ensures var leaf := Pow(2, h) - 1;
      && Settled(hash, h, cells[leaf := x], [x]) && PathTo(hash, h, cells[leaf := x], [x], 0)
      && RootLevel(1) == 0 && Slot(h, 0, 0) == leaf
  {
    SettledEmpty(hash, h, cells);
    ClimbStart(hash, h, cells, [], x);
    assert [] + [x] == [x];
    ClimbEnd(hash, h, cells[Pow(2, h) - 1 := x], [], x, Pow(2, h) - 1);
  }

  lemma ClimbEnd<T>(hash: (T, T) -> T, h: nat, cells: seq<T>, s: seq<T>, x: T, current: nat)
    requires Climbing(hash, h, cells, s, x, RootLevel(|s| + 1), current)
    ensures Settled(hash, h, cells, s + [x])
    ensures PathTo(hash, h, cells, s + [x], RootLevel(|s| + 1))
    ensures current == Slot(h, RootLevel(|s| + 1), 0)
  {
    SettledExtend(hash, h, cells, s, x);
    ClimbStopsAtCommonAncestor(|s|, RootLevel(|s| + 1));
    DivUnique(0, Pow(2, RootLevel(|s| + 1)), 0, 0);
  }

  lemma SettledEmpty<T>(hash: (T, T) -> T, h: nat, cells: seq<T>)
    requires |cells| == 2 * Pow(2, h) - 1
    ensures Settled(hash, h, cells, [])
  {
    forall l: nat, p: nat | l <= h
      ensures (p + 1) * Pow(2, l) <= 0 ==> CellIs(hash, h, cells, [], l, p)
    {
      assert (p + 1) * Pow(2, l) == p * Pow(2, l) + Pow(2, l);
    }
  }

  lemma PathLevels<T>(hash: (T, T) -> T, h: nat, cells: seq<T>, s: seq<T>, n: nat)
    requires s != [] && PathTo(hash, h, cells, s, n)
    ensures forall l: nat :: l <= n ==> PathCell(hash, h, cells, s, l)
  {
  }

  /** A node whose last leaf is leaf j is the one above it, and not above the root of the first j + 1. */
  lemma EndsWithLeaf(j: nat, l: nat, p: nat)
    requires (p + 1) * Pow(2, l) == j + 1
    ensures Above(j, l) == p && l <= RootLevel(j + 1)
  {
    hide Pow;
    OneLess(p + 1, Pow(2, l));
    MulNonNegative(p, Pow(2, l));
    DivUnique(j, Pow(2, l), p, Pow(2, l) - 1);
    if l > RootLevel(j + 1) {
      PowIncreasing(2, RootLevel(j + 1), l);
    }
  }

  /** Once the path is rewritten up to the root level, the tree is settled for the longer list. */
  lemma SettledExtend<T>(hash: (T, T) -> T, h: nat, cells: seq<T>, s: seq<T>, x: T)
    requires Settled(hash, h, cells, s) && |s| < Pow(2, h)
    requires PathTo(hash, h, cells, s + [x], RootLevel(|s| + 1))
    ensures Settled(hash, h, cells, s + [x])
  {
    hide Pow, RootLevel;
    var j := |s|;
    PathLevels(hash, h, cells, s + [x], RootLevel(j + 1));
    forall l: nat, p: nat | l <= h && (p + 1) * Pow(2, l) <= j + 1
      ensures CellIs(hash, h, cells, s + [x], l, p)
    {
      if (p + 1) * Pow(2, l) <= j {
        assert CellIs(hash, h, cells, s, l, p);
        assert (s + [x])[..j] == s;
        NodeOfPrefix(hash, s + [x], j, l, p);
      } else {
        EndsWithLeaf(j, l, p);
        assert PathCell(hash, h, cells, s + [x], l);
      }
    }
  }

  lemma TopNode<T>(hash: (T, T) -> T, s: seq<T>, r: nat)
    requires 1 <= |s| <= Pow(2, r)
    ensures Above(|s| - 1, r) == 0 && Node(hash, s, r, 0) == Root(hash, s)
  {
    DivUnique(|s| - 1, Pow(2, r), 0, |s| - 1);
    NodeIsRoot(hash, s, r, 0);
    assert Below(s, r, 0) == s;
  }

  /** The cell where the climb stops holds the reference root of all leaves present. */
  lemma RootCell<T>(hash: (T, T) -> T, h: nat, cells: seq<T>, s: seq<T>)
    requires s != [] && PathTo(hash, h, cells, s, RootLevel(|s|))
    ensures var r := RootLevel(|s|);
      r <= h && Slot(h, r, 0) < |cells| && cells[Slot(h, r, 0)] == Root(hash, s)
  {
    assert PathCell(hash, h, cells, s, RootLevel(|s|));
    TopNode(hash, s, RootLevel(|s|));
  }

  /** The root of a complete tree is in cell 0. */
  lemma RootOfCompleteTree(h: nat)
    ensures RootLevel(Pow(2, h)) == h && Slot(h, h, 0) == 0
  {
    RootLevelInTree(h, Pow(2, h));
    PowIncreasing(2, RootLevel(Pow(2, h)), h);
  }

  lemma RootLevelInTree(h: nat, n: nat)
    requires 1 <= n <= Pow(2, h)
    ensures RootLevel(n) <= h
  {
    if RootLevel(n) > h {
      PowMonotone(2, h, RootLevel(n) - 1);
      assert false;
    }
  }

  /** The climb from leaf j stops at the lowest node that is also above the leftmost leaf. */
  lemma ClimbStopsAtCommonAncestor(j: nat, l: nat)
    ensures Above(j, l) == Above(0, l) <==> RootLevel(j + 1) <= l
  {
    DivUnique(0, Pow(2, l), 0, 0);
    DivGreatest(j, Pow(2, l), 1);
    if j > 0 {
      if RootLevel(j + 1) <= l {
        PowMonotone(2, RootLevel(j + 1), l);
      } else {
        PowMonotone(2, l, RootLevel(j + 1) - 1);
      }
    }
  }
}
