/** Fixed-precision amounts held in 64 bits. */
module Currency {
  import opened Arith

  const MAX_PRECISION: nat := 18

  type U64 = x: nat | x < TWO_TO_THE_64

  datatype Currency = Currency(amount: U64, precision: nat, div: nat, integer: nat, fractional: nat)

  lemma {:induction false} PowerOfTenBound(p: nat)
    requires p <= MAX_PRECISION
    ensures Pow(10, p) < TWO_TO_THE_64
  {
    PowMonotone(10, p, MAX_PRECISION);
    assert Pow(10, 6) == 1_000_000 by {
      assert Pow(10, 3) == 1000;
    }
    PowAdd(10, 6, 6);
    PowAdd(10, 12, 6);
  }

  /** The value the constructor builds; precision above 18 is refused. */
  function Of(amount: U64, precision: nat): (c: Currency)
    requires precision <= MAX_PRECISION
    ensures c.amount == amount && c.precision == precision
  {
    var div := Pow(10, precision);
    Currency(amount, precision, div, amount / div, amount % div)
  }

  /** The two parts make up the amount. */
  lemma PartsOfAmount(amount: U64, precision: nat)
    requires precision <= MAX_PRECISION
    ensures var c := Of(amount, precision); c.integer * c.div + c.fractional == amount && c.fractional < c.div
  {
    DivBounds(amount, Pow(10, precision));
  }

  /** The loop of the constructor; the divisor fits in 64 bits. */
  method Divisor(precision: nat) returns (div: nat)
    requires precision <= MAX_PRECISION
    ensures div == Pow(10, precision) < TWO_TO_THE_64
  {
    hide Pow;
    PowZero(10);
    div := 1;
    for i := 0 to precision
      invariant div == Pow(10, i)
    {
      PowNext(10, i);
      div := div * 10;
    }
    PowerOfTenBound(precision);
  }

  /** The constructor, which throws for a precision above 18. */
  method Make(amount: U64, precision: nat) returns (ok: bool, c: Currency)
    ensures ok <==> precision <= MAX_PRECISION
    ensures ok ==> c == Of(amount, precision)
  {
    hide Pow;
    if precision > MAX_PRECISION {
      return false, Currency(0, 0, 1, 0, 0);
    }
    var div := Divisor(precision);
    var integer, fractional := amount / div, amount % div;
    ok, c := true, Currency(amount, precision, div, integer, fractional);
  }

  /** Sums and differences are taken modulo 2^64 and keep the precision of the left operand. */
  function Plus(a: Currency, b: Currency): Currency
    requires a.precision <= MAX_PRECISION
  {
    Of((a.amount + b.amount) % TWO_TO_THE_64, a.precision)
  }

  function Minus(a: Currency, b: Currency): Currency
    requires a.precision <= MAX_PRECISION
  {
    Of((a.amount - b.amount) % TWO_TO_THE_64, a.precision)
  }

  predicate Less(a: Currency, b: Currency) {
    a.integer < b.integer || (a.integer == b.integer && a.fractional < b.fractional)
  }

  predicate Greater(a: Currency, b: Currency) {
    a.integer > b.integer || (a.integer == b.integer && a.fractional > b.fractional)
  }

  predicate Equal(a: Currency, b: Currency) {
    a.integer == b.integer && a.fractional == b.fractional
  }

  /** With one precision, comparing integer parts and then fractional parts is comparing amounts. */
  lemma OrderIsAmountOrder(x: U64, y: U64, precision: nat)
    requires precision <= MAX_PRECISION
    ensures Less(Of(x, precision), Of(y, precision)) <==> x < y
    ensures Greater(Of(x, precision), Of(y, precision)) <==> x > y
    ensures Equal(Of(x, precision), Of(y, precision)) <==> x == y
  {
    hide Pow;
    QuotientOrder(x, y, Pow(10, precision));
    QuotientOrder(y, x, Pow(10, precision));
  }

  // ---------- Two precisions ----------

  /** amounts x at precision p and y at precision q compare as x / 10^p and y / 10^q do. */
  ghost predicate ComparesValues(p: nat, q: nat)
    requires p <= MAX_PRECISION && q <= MAX_PRECISION
  {
    forall x: U64, y: U64 :: Less(Of(x, p), Of(y, q)) <==> x * Pow(10, q) < y * Pow(10, p)
  }

  lemma MulOrder(x: int, y: int, d: int)
    requires d > 0
    ensures x * d < y * d <==> x < y
  {
    if x < y {
      MulStrict(x, y, d);
    } else if y < x {
      MulStrict(y, x, d);
    }
  }

  lemma SamePrecisionCompares(p: nat)
    requires p <= MAX_PRECISION
    ensures ComparesValues(p, p)
  {
    hide Pow, Less, Of;
    forall x: U64, y: U64
      ensures Less(Of(x, p), Of(y, p)) <==> x * Pow(10, p) < y * Pow(10, p)
    {
      OrderIsAmountOrder(x, y, p);
      MulOrder(x, y, Pow(10, p));
    }
  }

  lemma WholeOnTheRightCompares(p: nat)
    requires p <= MAX_PRECISION
    ensures ComparesValues(p, 0)
  {
    hide Pow;
    PowZero(10);
    forall x: U64, y: U64
      ensures Less(Of(x, p), Of(y, 0)) <==> x * Pow(10, 0) < y * Pow(10, p)
    {
      DivGreatest(x, Pow(10, p), y);
    }
  }

  lemma WholeOnTheLeftCompares(q: nat)
    requires q <= MAX_PRECISION
    ensures ComparesValues(0, q)
  {
    hide Pow;
    PowZero(10);
    forall x: U64, y: U64
      ensures Less(Of(x, 0), Of(y, q)) <==> x * Pow(10, q) < y * Pow(10, 0)
    {
      DivGreatest(y, Pow(10, q), x);
      DivBounds(y, Pow(10, q));
    }
  }

  lemma SmallParts(x: U64, p: nat)
    requires 1 <= p <= MAX_PRECISION && x < 10
    ensures Of(x, p).integer == 0 && Of(x, p).fractional == x
  {
    PowMonotone(10, 1, p);
    DivUnique(x, Pow(10, p), 0, x);
  }

  lemma TenTimes(p: nat, q: nat)
    requires p < q
    ensures 10 * Pow(10, p) <= Pow(10, q)
  {
    PowMonotone(10, p + 1, q);
  }

  /** One unit and two units of the last place are ordered by their number, whatever the place. */
  lemma OneAndTwoMisorder(p: nat, q: nat)
    requires 1 <= p <= MAX_PRECISION && 1 <= q <= MAX_PRECISION && p != q
    ensures !ComparesValues(p, q)
  {
    hide Pow;
    var one: U64, two: U64 := 1, 2;
    if p < q {
      SmallParts(one, p);
      SmallParts(two, q);
      TenTimes(p, q);
      assert Less(Of(one, p), Of(two, q)) && !(one * Pow(10, q) < two * Pow(10, p));
    } else {
      SmallParts(two, p);
      SmallParts(one, q);
      TenTimes(q, p);
      assert !Less(Of(two, p), Of(one, q)) && two * Pow(10, q) < one * Pow(10, p);
    }
  }

  /** The order by parts is the order of the values exactly when both precisions are the same or one
      of them is 0. */
  lemma MixedPrecisionCompares(p: nat, q: nat)
    requires p <= MAX_PRECISION && q <= MAX_PRECISION
    ensures p == q || p == 0 || q == 0 <==>
              forall x: U64, y: U64 :: Less(Of(x, p), Of(y, q)) <==> x * Pow(10, q) < y * Pow(10, p)
  {
    assert ComparesValues(p, q) <==> p == q || p == 0 || q == 0 by {
      hide ComparesValues;
      if p == q {
        SamePrecisionCompares(p);
      } else if q == 0 {
        WholeOnTheRightCompares(p);
      } else if p == 0 {
        WholeOnTheLeftCompares(q);
      } else {
        OneAndTwoMisorder(p, q);
      }
    }
  }

  /** Equality of the parts is equality of the values under the same condition. */
  lemma MixedPrecisionEquals(p: nat, q: nat)
    requires p <= MAX_PRECISION && q <= MAX_PRECISION
    ensures p == q || p == 0 || q == 0 <==>
              forall x: U64, y: U64 :: Equal(Of(x, p), Of(y, q)) <==> x * Pow(10, q) == y * Pow(10, p)
  {
    MixedPrecisionCompares(p, q);
    MixedPrecisionCompares(q, p);
    if p == q || p == 0 || q == 0 {
      forall x: U64, y: U64
        ensures Equal(Of(x, p), Of(y, q)) <==> x * Pow(10, q) == y * Pow(10, p)
      {
        hide Of, Pow;
        assert Less(Of(x, p), Of(y, q)) <==> x * Pow(10, q) < y * Pow(10, p);
        assert Less(Of(y, q), Of(x, p)) <==> y * Pow(10, p) < x * Pow(10, q);
      }
    } else {
      hide Pow;
      var one: U64 := 1;
      SmallParts(one, p);
      SmallParts(one, q);
      PowIncreasing(10, p, q);
      PowIncreasing(10, q, p);
      assert Equal(Of(one, p), Of(one, q)) && one * Pow(10, q) != one * Pow(10, p);
    }
  }

  /** An instance: 1.5 is taken to be less than 1.25. */
  lemma MixedPrecisionMisorders()
    ensures Less(Of(15, 1), Of(125, 2)) && !(15 * Pow(10, 2) < 125 * Pow(10, 1))
  {
    assert Pow(10, 1) == 10 && Pow(10, 2) == 100;
  }
}
