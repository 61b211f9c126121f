/** Powers and the few facts about division that both trees rely on. */
module Arith {

  const TWO_TO_THE_64: nat := 0x1_0000_0000_0000_0000

  function Pow(b: nat, k: nat): (p: nat)
    ensures b >= 1 ==> p >= 1
  {
    if k == 0 then 1 else b * Pow(b, k - 1)
  }

  function Min(a: int, b: int): int {
    if a <= b then a else b
  }

  lemma DivUnique(a: int, d: int, q: int, r: int)
    requires 0 <= r < d && a == q * d + r
    ensures a / d == q && a % d == r
  {
    var q', r' := a / d, a % d;
    assert q - q' >= 1 ==> (q - q') * d >= d;
    assert q - q' <= -1 ==> (q - q') * d <= -d;
    assert (q - q') * d == r' - r;
  }

  lemma WrapOnce(x: int, d: int)
    requires 0 <= x < 2 * d
    ensures x % d == if x < d then x else x - d
  {
    if x < d {
      DivUnique(x, d, 0, x);
    } else {
      DivUnique(x, d, 1, x - d);
    }
  }

  lemma DivBounds(a: int, d: int)
    requires d > 0
    ensures (a / d) * d <= a < (a / d) * d + d
    ensures a == (a / d) * d + a % d
  {
  }

  /** a / d is the greatest q with q * d <= a. */
  lemma DivGreatest(a: int, d: int, q: int)
    requires d > 0
    ensures q * d <= a <==> q <= a / d
  {
    DivBounds(a, d);
    if q <= a / d {
      assert q * d <= (a / d) * d;
    } else {
      assert q * d >= (a / d + 1) * d;
    }
  }

  lemma DivMonotone(a: int, b: int, d: int)
    requires d > 0 && a <= b
    ensures a / d <= b / d
  {
    DivBounds(a, d);
    DivGreatest(b, d, a / d);
  }

  lemma MulNonNegative(x: int, y: int)
    requires x >= 0 && y >= 0
    ensures x * y >= 0
  {
  }

  lemma MulMonotone(a: int, x: int, y: int)
    requires a >= 0 && x <= y
    ensures a * x <= a * y
  {
    MulNonNegative(a, y - x);
    assert a * (y - x) == a * y - a * x;
  }

  lemma OneLess(a: int, d: int)
    ensures (a - 1) * d == a * d - d
  {
  }

  lemma MulBounds(t: int, n: int, b: int)
    requires b > 0 && 0 <= t < n
    ensures 0 <= t * b <= n * b - b
  {
    MulNonNegative(t, b);
    MulNonNegative(n - 1 - t, b);
    assert (n - 1 - t) * b == n * b - b - t * b;
  }

  lemma MulStrict(q: int, q': int, d: int)
    requires d > 0 && q < q'
    ensures q * d + d <= q' * d
  {
    MulNonNegative(q' - q - 1, d);
    assert (q' - q - 1) * d == q' * d - q * d - d;
  }

  /** Comparing quotients first and remainders second is comparing the numbers. */
  lemma QuotientOrder(x: int, y: int, d: int)
    requires d > 0
    ensures x / d < y / d || (x / d == y / d && x % d < y % d) <==> x < y
  {
    DivBounds(x, d);
    DivBounds(y, d);
    if x / d < y / d {
      MulStrict(x / d, y / d, d);
    } else if y / d < x / d {
      MulStrict(y / d, x / d, d);
    }
  }

  lemma NextRemainder(n: nat, d: nat)
    requires d >= 1
    ensures (n + 1) % d == if n % d + 1 == d then 0 else n % d + 1
  {
    DivBounds(n, d);
    if n % d + 1 == d {
      DivUnique(n + 1, d, n / d + 1, 0);
    } else {
      DivUnique(n + 1, d, n / d, n % d + 1);
    }
  }

  lemma NextQuotient(n: nat, d: nat)
    requires d >= 1
    ensures (n + 1) / d == if (n + 1) % d == 0 then n / d + 1 else n / d
    ensures (n + 1) % d == 0 ==> (n / d + 1) * d == n + 1
  {
    DivBounds(n, d);
    if n % d + 1 == d {
      DivUnique(n + 1, d, n / d + 1, 0);
    } else {
      DivUnique(n + 1, d, n / d, n % d + 1);
    }
  }

  lemma SameRemainder(n: nat, d: nat)
    requires 1 <= d <= n
    ensures (n - d) % d == n % d
  {
    DivBounds(n, d);
    OneLess(n / d, d);
    DivUnique(n - d, d, n / d - 1, n % d);
  }

  lemma DifferentRemainders(x: nat, y: nat, d: nat)
    requires d >= 1 && (y - x) % d != 0
    ensures x % d != y % d
  {
    DivBounds(x, d);
    DivBounds(y, d);
    var k := y / d - x / d;
    assert y - x == k * d + (y % d - x % d);
    if x % d == y % d {
      DivUnique(y - x, d, k, 0);
      assert false;
    }
  }

  lemma DivDiv(a: int, b: int, c: int)
    requires b > 0 && c > 0
    ensures b * c > 0
    ensures a / (b * c) == a / b / c
  {
    var t, q := a / b % c, a / b / c;
    DivBounds(a, b);
    DivBounds(a / b, c);
    MulBounds(t, c, b);
    var m := a % b;
    calc {
      a;
      (a / b) * b + m;
      (q * c + t) * b + m;
      (q * c) * b + t * b + m;
      { MulAssociates(q, c, b); }
      q * (c * b) + (t * b + m);
    }
    DivUnique(a, b * c, q, t * b + m);
  }

  lemma PowZero(b: nat)
    ensures Pow(b, 0) == 1
    ensures forall n: int :: n % Pow(b, 0) == 0 && n / Pow(b, 0) == n
  {
  }

  lemma PowNext(b: nat, k: nat)
    ensures Pow(b, k + 1) == Pow(b, k) * b
  {
  }

  lemma MulAssociates(a: int, b: int, c: int)
    ensures a * (b * c) == (a * b) * c
  {
  }

  lemma {:induction false} PowAdd(b: nat, i: nat, j: nat)
    ensures Pow(b, i + j) == Pow(b, i) * Pow(b, j)
  {
    if i > 0 {
      PowAdd(b, i - 1, j);
      MulAssociates(b, Pow(b, i - 1), Pow(b, j));
    }
  }

  lemma {:induction false} PowMonotone(b: nat, i: nat, j: nat)
    requires b >= 1 && i <= j
    ensures Pow(b, i) <= Pow(b, j)
    decreases j - i
  {
    if i < j {
      PowMonotone(b, i, j - 1);
      assert Pow(b, j) == b * Pow(b, j - 1) >= Pow(b, j - 1);
    }
  }

  lemma {:induction false} PowIncreasing(b: nat, i: nat, j: nat)
    requires b >= 2
    ensures i < j <==> Pow(b, i) < Pow(b, j)
  {
    if i < j {
      PowMonotone(b, i, j - 1);
      assert Pow(b, j) == b * Pow(b, j - 1);
    } else {
      PowMonotone(b, j, i);
    }
  }
}
