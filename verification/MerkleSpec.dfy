/** What a Merkle root is, independently of the array that stores the tree. */
module MerkleSpec {
  import opened Arith

  /** The largest power of two strictly below n. */
  function Split(n: nat): (k: nat)
    requires n >= 2
    ensures 1 <= k < n <= 2 * k
  {
    if n == 2 then 1 else 2 * Split((n + 1) / 2)
  }

  lemma {:induction false} SplitIsPower(n: nat, l: nat)
    requires Pow(2, l) < n <= Pow(2, l + 1)
    ensures n >= 2 && Split(n) == Pow(2, l)
  {
    if l > 0 {
      assert Pow(2, l + 1) == 2 * Pow(2, l) == 4 * Pow(2, l - 1);
      SplitIsPower((n + 1) / 2, l - 1);
    }
  }

  /** The reference root: split at the largest power of two below the leaf count. */
  function Root<T>(hash: (T, T) -> T, s: seq<T>): T
    requires |s| > 0
    decreases |s|
  {
    if |s| == 1 then s[0]
    else
      var k := Split(|s|);
      hash(Root(hash, s[..k]), Root(hash, s[k..]))
  }

  /** The reference root on a few leaves: pairs from the left, a rest on its own. */
  lemma SmallRoots<T>(hash: (T, T) -> T, a: T, b: T, c: T, d: T, e: T)
    ensures Root(hash, [a]) == a
    ensures Root(hash, [a, b]) == hash(a, b)
    ensures Root(hash, [a, b, c]) == hash(hash(a, b), c)
    ensures Root(hash, [a, b, c, d]) == hash(hash(a, b), hash(c, d))
    ensures Root(hash, [a, b, c, d, e]) == hash(hash(hash(a, b), hash(c, d)), e)
  {
    assert Split(3) == 2 && Split(4) == 2 && Split(5) == 4;
    assert [a, b][..1] == [a] && [a, b][1..] == [b];
    assert Root(hash, [a, b]) == hash(a, b);
    assert [c, d][..1] == [c] && [c, d][1..] == [d];
    assert Root(hash, [c, d]) == hash(c, d);
    assert [a, b, c][..2] == [a, b] && [a, b, c][2..] == [c];
    assert [a, b, c, d][..2] == [a, b] && [a, b, c, d][2..] == [c, d];
    assert Root(hash, [a, b, c, d]) == hash(hash(a, b), hash(c, d));
    assert [a, b, c, d, e][..4] == [a, b, c, d] && [a, b, c, d, e][4..] == [e];
  }

  /** The value that belongs in the p-th cell of level l above the leaves s. A cell with no
      right child takes the value of its left child. */
  function Node<T>(hash: (T, T) -> T, s: seq<T>, l: nat, p: nat): T
    requires p * Pow(2, l) < |s|
    decreases l
  {
    if l == 0 then s[p]
    else
      assert (2 * p) * Pow(2, l - 1) == p * Pow(2, l);
      if (2 * p + 1) * Pow(2, l - 1) < |s| then
        hash(Node(hash, s, l - 1, 2 * p), Node(hash, s, l - 1, 2 * p + 1))
      else
        Node(hash, s, l - 1, 2 * p)
  }

  /** The leaves below cell p of level l. */
  function Below<T>(s: seq<T>, l: nat, p: nat): seq<T>
    requires p * Pow(2, l) < |s|
  {
    var hi := (p + 1) * Pow(2, l);
    assert hi == p * Pow(2, l) + Pow(2, l);
    s[p * Pow(2, l)..if hi <= |s| then hi else |s|]
  }

  lemma BelowSplits<T>(s: seq<T>, l: nat, p: nat)
    requires l > 0 && p * Pow(2, l) < |s|
    ensures (2 * p) * Pow(2, l - 1) < |s|
    ensures (2 * p + 1) * Pow(2, l - 1) >= |s| ==> Below(s, l, p) == Below(s, l - 1, 2 * p)
    ensures (2 * p + 1) * Pow(2, l - 1) < |s| ==>
              var half := Pow(2, l - 1);
              && half < |Below(s, l, p)| <= 2 * half
              && Below(s, l, p)[..half] == Below(s, l - 1, 2 * p)
              && Below(s, l, p)[half..] == Below(s, l - 1, 2 * p + 1)
  {
    var half := Pow(2, l - 1);
    var lo := p * Pow(2, l);
    assert lo == (2 * p) * half;
    assert (2 * p + 1) * half == lo + half;
    assert (2 * p + 2) * half == lo + 2 * half;
    assert (p + 1) * Pow(2, l) == lo + 2 * half;
  }

  lemma NodeStep<T>(hash: (T, T) -> T, s: seq<T>, l: nat, p: nat)
    requires l > 0 && p * Pow(2, l) < |s| && (2 * p) * Pow(2, l - 1) < |s|
    ensures Node(hash, s, l, p) == if (2 * p + 1) * Pow(2, l - 1) < |s|
              then hash(Node(hash, s, l - 1, 2 * p), Node(hash, s, l - 1, 2 * p + 1))
              else Node(hash, s, l - 1, 2 * p)
  {
  }

  lemma RootStep<T>(hash: (T, T) -> T, s: seq<T>, l: nat)
    requires l > 0 && Pow(2, l - 1) < |s| <= 2 * Pow(2, l - 1)
    ensures Root(hash, s) == hash(Root(hash, s[..Pow(2, l - 1)]), Root(hash, s[Pow(2, l - 1)..]))
  {
    PowNext(2, l - 1);
    SplitIsPower(|s|, l - 1);
  }

  lemma LeafRoot<T>(hash: (T, T) -> T, s: seq<T>, p: nat)
    requires p * Pow(2, 0) < |s|
    ensures Below(s, 0, p) != [] && Node(hash, s, 0, p) == Root(hash, Below(s, 0, p))
  {
  }

  /** Every cell value is the reference root of the leaves below that cell. */
  lemma {:induction false} NodeIsRoot<T>(hash: (T, T) -> T, s: seq<T>, l: nat, p: nat)
    requires p * Pow(2, l) < |s|
    ensures Below(s, l, p) != [] && Node(hash, s, l, p) == Root(hash, Below(s, l, p))
    decreases l
  {
    hide Node, Root, Below, Pow;
    if l == 0 {
      LeafRoot(hash, s, p);
    } else {
      BelowSplits(s, l, p);
      NodeStep(hash, s, l, p);
      NodeIsRoot(hash, s, l - 1, 2 * p);
      if (2 * p + 1) * Pow(2, l - 1) < |s| {
        NodeIsRoot(hash, s, l - 1, 2 * p + 1);
        RootStep(hash, Below(s, l, p), l);
      }
    }
  }

  lemma LeafNode<T>(hash: (T, T) -> T, s: seq<T>, p: nat)
    requires p < |s|
    ensures p * Pow(2, 0) < |s| && Node(hash, s, 0, p) == s[p]
  {
  }

  /** A cell with all its leaves present has two such children. */
  lemma WholeNode<T>(hash: (T, T) -> T, s: seq<T>, l: nat, p: nat)
    requires l > 0 && (p + 1) * Pow(2, l) <= |s|
    ensures (2 * p + 1) * Pow(2, l - 1) <= (2 * p + 2) * Pow(2, l - 1) == (p + 1) * Pow(2, l)
    ensures p * Pow(2, l) < |s| && (2 * p) * Pow(2, l - 1) < (2 * p + 1) * Pow(2, l - 1) < |s|
    ensures Node(hash, s, l, p) == hash(Node(hash, s, l - 1, 2 * p), Node(hash, s, l - 1, 2 * p + 1))
  {
    var half := Pow(2, l - 1);
    assert (2 * p) * half == p * Pow(2, l) && (2 * p + 2) * half == (p + 1) * Pow(2, l);
    assert (2 * p + 1) * half == (2 * p) * half + half;
  }

  /** A cell with all its leaves present does not depend on leaves further right. */
  lemma {:induction false} NodeOfPrefix<T>(hash: (T, T) -> T, s: seq<T>, m: nat, l: nat, p: nat)
    requires m <= |s| && (p + 1) * Pow(2, l) <= m
    ensures p * Pow(2, l) < m
    ensures Node(hash, s[..m], l, p) == Node(hash, s, l, p)
    decreases l
  {
    hide Node, Pow;
    assert (p + 1) * Pow(2, l) == p * Pow(2, l) + Pow(2, l);
    if l == 0 {
      PowZero(2);
      LeafNode(hash, s, p);
      LeafNode(hash, s[..m], p);
    } else {
      WholeNode(hash, s, l, p);
      WholeNode(hash, s[..m], l, p);
      NodeOfPrefix(hash, s, m, l - 1, 2 * p);
      NodeOfPrefix(hash, s, m, l - 1, 2 * p + 1);
    }
  }
}
