/** crates/kova-types/src/money.rs: amounts kept to four decimal places by banker's
    rounding. An amount of money is a decimal that Money.New has produced. */
module Money {
  import opened Decimals
  import Arithmetic

  // ---- Rounding a quotient --------------------------------------------------

  /** m / d to the nearest integer, ties to even. */
  function RoundHalfEven(m: int, d: nat): (r: int)
    requires d > 0
  {
    var q := m / d;
    var twice := 2 * (m % d);
    if twice < d || (twice == d && q % 2 == 0) then q else q + 1
  }

  /** k is an integer nearest to m / d, and the even one if there are two. */
  ghost predicate IsNearest(m: int, d: nat, k: int) {
    2 * Abs(k * d - m) <= d && (2 * Abs(k * d - m) == d ==> k % 2 == 0)
  }

  lemma RoundIsNearest(m: int, d: nat)
    requires d > 0
    ensures IsNearest(m, d, RoundHalfEven(m, d))
  {
    var q := m / d;
    assert m == q * d + m % d;
    assert (q + 1) * d == q * d + d;
  }

  /** It is the only one. */
  lemma NearestUnique(m: int, d: nat, k: int, k': int)
    requires d > 0 && IsNearest(m, d, k) && IsNearest(m, d, k')
    ensures k == k'
  {
    Arithmetic.MulStep(k, k', d);
    Arithmetic.MulStep(k', k, d);
    Arithmetic.MulStep(k + 1, k', d);
    Arithmetic.MulStep(k' + 1, k, d);
    assert (k + 1) * d == k * d + d && (k' + 1) * d == k' * d + d;
  }

  /** No integer is nearer. */
  lemma NoneNearer(m: int, d: nat, k: int)
    requires d > 0
    ensures Abs(RoundHalfEven(m, d) * d - m) <= Abs(k * d - m)
  {
    var r := RoundHalfEven(m, d);
    RoundIsNearest(m, d);
    Arithmetic.MulStep(k, r, d);
    Arithmetic.MulStep(r, k, d);
  }

  lemma RoundMonotone(m: int, m': int, d: nat)
    requires d > 0 && m <= m'
    ensures RoundHalfEven(m, d) <= RoundHalfEven(m', d)
  {
    var r, r' := RoundHalfEven(m, d), RoundHalfEven(m', d);
    RoundIsNearest(m, d);
    RoundIsNearest(m', d);
    Arithmetic.MulStep(r', r, d);
  }

  lemma RoundOdd(m: int, d: nat)
    requires d > 0
    ensures RoundHalfEven(-m, d) == -RoundHalfEven(m, d)
  {
    var r := RoundHalfEven(m, d);
    RoundIsNearest(m, d);
    RoundIsNearest(-m, d);
    Arithmetic.MulMinus(d, r, 0);
    NearestUnique(-m, d, RoundHalfEven(-m, d), -r);
  }

  /** Widening the fraction does not change the result. */
  lemma RoundWidened(m: int, d: nat, c: nat)
    requires d > 0 && c > 0
    ensures c * d > 0 && RoundHalfEven(c * m, c * d) == RoundHalfEven(m, d)
  {
    var r := RoundHalfEven(m, d);
    RoundIsNearest(m, d);
    assert c * d > 0 by { Arithmetic.MulStep(0, c, d); }
    RoundIsNearest(c * m, c * d);
    Widen(m, d, r, c);
    NearestUnique(c * m, c * d, RoundHalfEven(c * m, c * d), r);
  }

  lemma Widen(m: int, d: nat, k: int, c: nat)
    requires c > 0 && IsNearest(m, d, k)
    ensures IsNearest(c * m, c * d, k)
  {
    var e := k * d - m;
    Arithmetic.MulSwap(c, k, d);
    Arithmetic.MulMinus(c, k * d, m);
    AbsProduct(c, e);
    MulOrder(c, 2 * Abs(e), d);
  }

  lemma AbsProduct(c: nat, e: int)
    ensures Abs(c * e) == c * Abs(e) && 2 * Abs(c * e) == c * (2 * Abs(e))
  {
  }

  lemma MulOrder(c: nat, a: nat, b: nat)
    requires c > 0 && a <= b
    ensures c * a <= c * b && (c * a == c * b ==> a == b)
  {
    Arithmetic.MulStep(a, b, c);
  }

  // ---- Money::new -----------------------------------------------------------

  /** round_dp_with_strategy(4, MidpointNearestEven): fewer decimals are left as they are. */
  function New(x: Decimal): (r: Decimal)
    ensures r.scale <= 4
  {
    if x.scale <= 4 then x else Decimal(RoundHalfEven(x.mantissa, Pow10(x.scale - 4)), 4)
  }

  /** The number of 10^-places in x, exact when x has at most that many places. */
  function Units(x: Decimal, places: nat): int
    requires x.scale <= places
  {
    Pow10(places - x.scale) * x.mantissa
  }

  /** The unit fraction of x: as many 10^-places as x is worth. */
  lemma UnitsMeans(x: Decimal, places: nat)
    requires x.scale <= places
    ensures Units(x, places) * Pow10(x.scale) == x.mantissa * Pow10(places)
  {
    Pow10Product(places - x.scale, x.scale);
    Arithmetic.MulSwap(Pow10(places - x.scale), x.mantissa, Pow10(x.scale));
  }

  lemma UnitsWidened(x: Decimal, places: nat, places': nat)
    requires x.scale <= places <= places'
    ensures Units(x, places') == Pow10(places' - places) * Units(x, places)
  {
    Pow10Product(places' - places, places - x.scale);
  }

  /** Whatever number of places x is written with, New rounds its value to the nearest
      ten-thousandth, ties to even. */
  lemma NewRoundsValue(x: Decimal, places: nat)
    requires x.scale <= places && 4 <= places
    ensures Units(New(x), 4) == RoundHalfEven(Units(x, places), Pow10(places - 4))
  {
    var d := Pow10(places - 4);
    if x.scale <= 4 {
      UnitsWidened(x, 4, places);
      var k := Units(x, 4);
      assert Units(x, places) == k * d;
      RoundIsNearest(k * d, d);
      NearestUnique(k * d, d, RoundHalfEven(k * d, d), k);
    } else {
      var c := Pow10(places - x.scale);
      Pow10Product(places - x.scale, x.scale - 4);
      RoundWidened(x.mantissa, Pow10(x.scale - 4), c);
      assert Units(New(x), 4) == 1 * RoundHalfEven(x.mantissa, Pow10(x.scale - 4));
    }
  }

  /** So no multiple of 10^-4 is nearer to x than New(x), and of two equally near ones it
      is the even one. */
  lemma NewIsNearest(x: Decimal, places: nat, k: int)
    requires x.scale <= places && 4 <= places
    ensures var r, d, u := Units(New(x), 4), Pow10(places - 4), Units(x, places);
      && Abs(r * d - u) <= Abs(k * d - u)
      && (Abs(r * d - u) == Abs(k * d - u) && k != r ==> r % 2 == 0)
      && 2 * Abs(r * d - u) <= d
  {
    var r, d, u := Units(New(x), 4), Pow10(places - 4), Units(x, places);
    NewRoundsValue(x, places);
    RoundIsNearest(u, d);
    NoneNearer(u, d, k);
    if Abs(r * d - u) == Abs(k * d - u) && k != r {
      Arithmetic.MulStep(k, r, d);
      Arithmetic.MulStep(r, k, d);
    }
  }

  /** An amount with at most four places is left as it is, its trailing zeros included. */
  lemma NewIdempotent(x: Decimal)
    ensures x.scale <= 4 ==> New(x) == x
    ensures New(New(x)) == New(x)
  {
  }

  /** Numeric order, as Decimal compares. */
  predicate Leq(x: Decimal, y: Decimal) {
    var places := if x.scale < y.scale then y.scale else x.scale;
    Units(x, places) <= Units(y, places)
  }

  lemma OrderScaled(a: int, b: int, c: nat)
    requires c > 0
    ensures a <= b <==> c * a <= c * b
  {
    Arithmetic.MulStep(a, b, c);
    Arithmetic.MulStep(b, a, c);
  }

  /** x / 10^a is at most y / 10^b. */
  lemma LeqMeans(x: Decimal, y: Decimal)
    ensures Leq(x, y) <==> x.mantissa * Pow10(y.scale) <= y.mantissa * Pow10(x.scale)
  {
    var places := if x.scale < y.scale then y.scale else x.scale;
    var a, b := Pow10(x.scale), Pow10(y.scale);
    UnitsMeans(x, places);
    UnitsMeans(y, places);
    CrossMultiplied(Units(x, places), Units(y, places), x.mantissa, y.mantissa, a, b, Pow10(places));
  }

  /** u / p is m / a and v / p is n / b. */
  lemma CrossMultiplied(u: int, v: int, m: int, n: int, a: nat, b: nat, p: nat)
    requires a > 0 && b > 0 && p > 0 && u * a == m * p && v * b == n * p
    ensures u <= v <==> m * b <= n * a
  {
    OrderScaled(u, v, a * b);
    OrderScaled(m * b, n * a, p);
    assert a * b * u == b * (u * a) == p * (m * b);
    assert a * b * v == a * (v * b) == p * (n * a);
  }

  lemma LeqAt(x: Decimal, y: Decimal, places: nat)
    requires x.scale <= places && y.scale <= places
    ensures Leq(x, y) <==> Units(x, places) <= Units(y, places)
  {
    var m := if x.scale < y.scale then y.scale else x.scale;
    var c := Pow10(places - m);
    UnitsWidened(x, m, places);
    UnitsWidened(y, m, places);
    OrderScaled(Units(x, m), Units(y, m), c);
  }

  /** Rounding never swaps two amounts. */
  lemma NewMonotone(x: Decimal, y: Decimal)
    requires Leq(x, y)
    ensures Leq(New(x), New(y))
  {
    var m := if x.scale < y.scale then y.scale else x.scale;
    var places := if m < 4 then 4 else m;
    LeqAt(x, y, places);
    NewRoundsValue(x, places);
    NewRoundsValue(y, places);
    RoundMonotone(Units(x, places), Units(y, places), Pow10(places - 4));
    LeqAt(New(x), New(y), 4);
  }

  // ---- Arithmetic -----------------------------------------------------------

  function Negate(x: Decimal): Decimal {
    New(Decimal(-x.mantissa, x.scale))
  }

  /** Rounding a negated amount negates the rounded one, so a credit and its debit round
      alike, and negating money is exact. */
  lemma NewOdd(x: Decimal)
    ensures New(Decimal(-x.mantissa, x.scale)) == Decimal(-New(x).mantissa, New(x).scale)
    ensures Units(Negate(New(x)), 4) == -Units(New(x), 4)
    ensures Negate(Negate(New(x))) == New(x)
  {
    if x.scale > 4 {
      RoundOdd(x.mantissa, Pow10(x.scale - 4));
    }
  }

  /** 96 bits of mantissa and 28 places. */
  const MANTISSA_LIMIT: int := 79_228_162_514_264_337_593_543_950_336

  predicate Representable(x: Decimal) {
    -MANTISSA_LIMIT < x.mantissa < MANTISSA_LIMIT && x.scale <= 28
  }

  /** The exact sum, with the places of the longer operand. */
  function Sum(x: Decimal, y: Decimal): Decimal {
    var places := if x.scale < y.scale then y.scale else x.scale;
    Decimal(Units(x, places) + Units(y, places), places)
  }

  /** The exact product. */
  function Product(x: Decimal, y: Decimal): Decimal {
    Decimal(x.mantissa * y.mantissa, x.scale + y.scale)
  }

  /** What the checked operations return when the exact result is representable. Otherwise
      the library rounds to what it can hold or gives up, which is not modelled. */
  function CheckedAdd(x: Decimal, y: Decimal): Decimal
    requires Representable(Sum(x, y))
  {
    New(Sum(x, y))
  }

  function CheckedSub(x: Decimal, y: Decimal): Decimal
    requires Representable(Sum(x, Decimal(-y.mantissa, y.scale)))
  {
    New(Sum(x, Decimal(-y.mantissa, y.scale)))
  }

  function ConvertTo(x: Decimal, rate: Decimal): Decimal
    requires Representable(Product(x, rate))
  {
    New(Product(x, rate))
  }

  ghost predicate InColumn(x: Decimal) {
    x.scale <= 4 && FitsColumn(Units(x, 4))
  }

  lemma SumInColumn(x: Decimal, y: Decimal)
    requires InColumn(x) && InColumn(y)
    ensures Representable(Sum(x, y)) && Units(Sum(x, y), 4) == Units(x, 4) + Units(y, 4)
  {
    var places := Sum(x, y).scale;
    UnitsWidened(x, places, 4);
    UnitsWidened(y, places, 4);
    Distribute(Pow10(4 - places), Units(x, places), Units(y, places));
    AbsAtMost(Units(x, places) + Units(y, places), Pow10(4 - places));
  }

  lemma Distribute(c: int, a: int, b: int)
    ensures c * (a + b) == c * a + c * b
  {
  }

  lemma AbsAtMost(a: int, c: nat)
    requires c > 0
    ensures Abs(a) <= Abs(c * a)
  {
    AbsProduct(c, a);
    assert Abs(a) <= c * Abs(a) by { Arithmetic.MulStep(1, c, Abs(a)); }
  }

  /** Adding and subtracting amounts the column can hold is exact. */
  lemma AddSubExact(x: Decimal, y: Decimal)
    requires InColumn(x) && InColumn(y)
    ensures Representable(Sum(x, y)) && Units(CheckedAdd(x, y), 4) == Units(x, 4) + Units(y, 4)
    ensures Representable(Sum(x, Decimal(-y.mantissa, y.scale)))
    ensures Units(CheckedSub(x, y), 4) == Units(x, 4) - Units(y, 4)
  {
    var minus := Decimal(-y.mantissa, y.scale);
    assert Units(minus, 4) == -Units(y, 4);
    SumInColumn(x, y);
    SumInColumn(x, minus);
  }

  // ---- Converting many amounts ----------------------------------------------

  ghost predicate Convertible(xs: seq<Decimal>, rate: Decimal) {
    forall i :: 0 <= i < |xs| ==> xs[i].scale <= 4 && Representable(Product(xs[i], rate))
  }

  /** The total of the amounts, and of what they were converted to, in ten-thousandths. */
  function Total(xs: seq<Decimal>): int
    requires forall i :: 0 <= i < |xs| ==> xs[i].scale <= 4
  {
    if |xs| == 0 then 0 else Total(xs[..|xs| - 1]) + Units(xs[|xs| - 1], 4)
  }

  function ConvertedTotal(xs: seq<Decimal>, rate: Decimal): int
    requires Convertible(xs, rate)
  {
    if |xs| == 0 then 0
    else ConvertedTotal(xs[..|xs| - 1], rate) + Units(ConvertTo(xs[|xs| - 1], rate), 4)
  }

  lemma ProductUnits(x: Decimal, rate: Decimal)
    requires x.scale <= 4
    ensures Units(Product(x, rate), 4 + rate.scale) == Units(x, 4) * rate.mantissa
  {
    var c := Pow10(4 - x.scale);
    assert c * (x.mantissa * rate.mantissa) == (c * x.mantissa) * rate.mantissa;
  }

  /** One conversion is off by at most half a ten-thousandth. Both sides are scaled by the
      places of the rate. */
  lemma ConversionError(x: Decimal, rate: Decimal)
    requires x.scale <= 4 && Representable(Product(x, rate))
    ensures var p := Pow10(rate.scale);
      2 * Abs(Units(ConvertTo(x, rate), 4) * p - Units(x, 4) * rate.mantissa) <= p
  {
    ProductUnits(x, rate);
    NewIsNearest(Product(x, rate), 4 + rate.scale, 0);
  }

  /** Converting n amounts one by one and adding up differs from converting their total
      exactly by at most n half ten-thousandths. */
  lemma {:induction false} ConversionErrorTotal(xs: seq<Decimal>, rate: Decimal)
    requires Convertible(xs, rate)
    ensures var p := Pow10(rate.scale);
      2 * Abs(ConvertedTotal(xs, rate) * p - Total(xs) * rate.mantissa) <= |xs| * p
    decreases |xs|
  {
    if |xs| > 0 {
      var rest, last := xs[..|xs| - 1], xs[|xs| - 1];
      ConversionErrorTotal(rest, rate);
      ConversionError(last, rate);
      AddErrors(ConvertedTotal(rest, rate), Total(rest), Units(ConvertTo(last, rate), 4), Units(last, 4),
                Pow10(rate.scale), rate.mantissa, |rest|);
    }
  }

  lemma AddErrors(c: int, u: int, c': int, u': int, p: nat, m: int, n: nat)
    requires 2 * Abs(c * p - u * m) <= n * p && 2 * Abs(c' * p - u' * m) <= p
    ensures 2 * Abs((c + c') * p - (u + u') * m) <= (n + 1) * p
  {
    assert (c + c') * p == c * p + c' * p;
    assert (u + u') * m == u * m + u' * m;
    assert (n + 1) * p == n * p + p;
  }

  const HALF: Decimal := Decimal(5, 1)
  const SMALLEST: Decimal := Decimal(1, 4)

  /** And it can be that much: n times 0.0001 at the rate 0.5 comes to nothing. */
  lemma {:induction false} ConversionErrorIsMet(n: nat)
    ensures var xs := seq(n, _ => SMALLEST);
      && Convertible(xs, HALF) && ConvertedTotal(xs, HALF) == 0 && Total(xs) == n
      && 2 * Abs(ConvertedTotal(xs, HALF) * Pow10(1) - Total(xs) * 5) == n * Pow10(1)
  {
    var xs := seq(n, _ => SMALLEST);
    assert Pow10(1) == 10;
    if n > 0 {
      ConversionErrorIsMet(n - 1);
      assert xs[..n - 1] == seq(n - 1, _ => SMALLEST);
      assert Product(SMALLEST, HALF) == Decimal(5, 5);
      assert RoundHalfEven(5, 10) == 0;
      assert Units(SMALLEST, 4) == 1;
    }
  }
}
