/** Decimal amounts, their text, and the DECIMAL(19,4) column they are stored in. */
module Decimals {

  /** A decimal number mantissa / 10^scale. Equal numbers with different scales are
      different values of this type, as they are in the program. */
  datatype Decimal = Decimal(mantissa: int, scale: nat)

  function Pow10(n: nat): (r: nat)
    ensures r > 0
  {
    if n == 0 then 1 else 10 * Pow10(n - 1)
  }

  function Abs(x: int): nat {
    if x < 0 then -x else x
  }

  // ---- Decimal digits -------------------------------------------------------

  function DigitChar(d: nat): char
    requires d < 10
  {
    '0' + d as char
  }

  predicate IsDigit(c: char) {
    '0' <= c <= '9'
  }

  function DigitValue(c: char): nat
    requires IsDigit(c)
  {
    c as int - '0' as int
  }

  lemma DigitsAreDecimal(d: nat, c: char)
    requires d < 10
    ensures DigitChar(d) == "0123456789"[d] && IsDigit(DigitChar(d)) && DigitValue(DigitChar(d)) == d
    ensures IsDigit(c) <==> c in "0123456789"
  {
    assert "0123456789" == ['0', '1', '2', '3', '4', '5', '6', '7', '8', '9'];
    if IsDigit(c) {
      assert "0123456789"[c as int - '0' as int] == c;
    }
  }

  /** At least `width` decimal digits of n, padded on the left with zeros. */
  function Digits(n: nat, width: nat): (s: string)
    ensures |s| >= width
    ensures forall i :: 0 <= i < |s| ==> IsDigit(s[i])
    decreases n, width
  {
    if n == 0 && width == 0 then ""
    else Digits(n / 10, if width == 0 then 0 else width - 1) + [DigitChar(n % 10)]
  }

  function DigitsValue(s: string): nat
    requires forall i :: 0 <= i < |s| ==> IsDigit(s[i])
  {
    if |s| == 0 then 0
    else DigitsValue(s[..|s| - 1]) * 10 + DigitValue(s[|s| - 1])
  }

  /** Reading the digits back gives the number, whatever the padding. */
  lemma {:induction false} DigitsRoundTrip(n: nat, width: nat)
    ensures DigitsValue(Digits(n, width)) == n
    decreases n, width
  {
    if n != 0 || width != 0 {
      var w := if width == 0 then 0 else width - 1;
      DigitsRoundTrip(n / 10, w);
      var s := Digits(n, width);
      assert s[..|s| - 1] == Digits(n / 10, w);
    }
  }

  // ---- Decimal text ---------------------------------------------------------

  /** The text of |d|: digits with at least one before the point, and exactly `scale`
      digits after it. */
  function Body(d: Decimal): (s: string) {
    var ds := Digits(Abs(d.mantissa), d.scale + 1);
    if d.scale == 0 then ds
    else ds[..|ds| - d.scale] + "." + ds[|ds| - d.scale..]
  }

  function Text(d: Decimal): (s: string) {
    if d.mantissa < 0 then "-" + Body(d) else Body(d)
  }

  lemma {:induction false} DigitsLead(n: nat, width: nat)
    ensures |Digits(n, width)| > width ==> Digits(n, width)[0] != '0'
    decreases n, width
  {
    if n != 0 || width != 0 {
      DigitsLead(n / 10, if width == 0 then 0 else width - 1);
    }
  }

  /** Digits with a point in front of the last `scale` of them, at least one digit before the
      point and no leading zero more than that; read as a whole number they are n. */
  ghost predicate Written(b: string, n: nat, scale: nat) {
    var digits := if scale == 0 then b else WithoutPoint(b, scale);
    && |digits| > scale && (|digits| > scale + 1 ==> digits[0] != '0')
    && (scale > 0 ==> |b| > scale && b[|b| - scale - 1] == '.')
    && (forall i :: 0 <= i < |digits| ==> IsDigit(digits[i])) && DigitsValue(digits) == n
  }

  /** The text with the character in front of the last `scale` ones left out. */
  function WithoutPoint(b: string, scale: nat): string {
    if |b| <= scale then b else b[..|b| - scale - 1] + b[|b| - scale..]
  }

  lemma PointGoes(ds: string, scale: nat)
    requires |ds| > scale
    ensures WithoutPoint(ds[..|ds| - scale] + "." + ds[|ds| - scale..], scale) == ds
  {
    var whole := ds[..|ds| - scale];
    var b := whole + "." + ds[|ds| - scale..];
    assert b[..|b| - scale - 1] == whole && b[|b| - scale..] == ds[|ds| - scale..];
  }

  lemma PointedIsWritten(b: string, ds: string, n: nat, scale: nat)
    requires |ds| > scale && (|ds| > scale + 1 ==> ds[0] != '0')
    requires (forall i :: 0 <= i < |ds| ==> IsDigit(ds[i])) && DigitsValue(ds) == n
    requires b == if scale == 0 then ds else ds[..|ds| - scale] + "." + ds[|ds| - scale..]
    ensures Written(b, n, scale)
  {
    if scale > 0 {
      PointGoes(ds, scale);
    }
  }

  lemma DigitsAreWritten(n: nat)
    ensures Written(Digits(n, 1), n, 0)
  {
    DigitsRoundTrip(n, 1);
    DigitsLead(n, 1);
    PointedIsWritten(Digits(n, 1), Digits(n, 1), n, 0);
  }

  lemma BodyReads(d: Decimal)
    ensures Written(Body(d), Abs(d.mantissa), d.scale)
  {
    var n, width := Abs(d.mantissa), d.scale + 1;
    DigitsRoundTrip(n, width);
    DigitsLead(n, width);
    PointedIsWritten(Body(d), Digits(n, width), n, d.scale);
  }

  /** The text is the number as it is written, with a minus sign in front if it is negative. */
  lemma TextReads(d: Decimal)
    ensures d.mantissa < 0 ==> exists b :: Text(d) == "-" + b && Written(b, -d.mantissa, d.scale)
    ensures d.mantissa >= 0 ==> Written(Text(d), d.mantissa, d.scale)
  {
    BodyReads(d);
    if d.mantissa < 0 {
      assert Text(d) == "-" + Body(d);
    }
  }

  /** The text determines the mantissa and the scale: 1.0 and 1.00 differ. */
  lemma TextInjective(a: Decimal, b: Decimal)
    requires Text(a) == Text(b)
    ensures a == b
  {
    assert Text(a)[0] == '-' <==> a.mantissa < 0;
    assert Text(b)[0] == '-' <==> b.mantissa < 0;
    if a.mantissa < 0 {
      assert Body(a) == Text(a)[1..] == Text(b)[1..] == Body(b);
    }
    BodyInjective(a, b);
    DigitsRoundTrip(Abs(a.mantissa), a.scale + 1);
    DigitsRoundTrip(Abs(b.mantissa), b.scale + 1);
  }

  lemma BodyInjective(a: Decimal, b: Decimal)
    requires Body(a) == Body(b)
    ensures a.scale == b.scale
    ensures Digits(Abs(a.mantissa), a.scale + 1) == Digits(Abs(b.mantissa), b.scale + 1)
  {
    var da, db := Digits(Abs(a.mantissa), a.scale + 1), Digits(Abs(b.mantissa), b.scale + 1);
    var s := Body(a);
    PointPosition(a);
    PointPosition(b);
    assert b.scale > 0 ==> s[|s| - 1 - b.scale] == '.';
    if a.scale > 0 {
      assert s[|s| - 1 - a.scale] == '.';
      var p := |s| - 1 - a.scale;
      assert da == s[..p] + s[p + 1..];
      assert db == s[..p] + s[p + 1..];
    }
  }

  /** The only point in the body is `scale` places from its end. */
  lemma PointPosition(d: Decimal)
    ensures var s := Body(d);
      forall i :: 0 <= i < |s| ==> (s[i] == '.' <==> d.scale > 0 && i == |s| - 1 - d.scale)
    ensures d.scale > 0 ==> |Body(d)| > d.scale + 1
  {
    var ds := Digits(Abs(d.mantissa), d.scale + 1);
    var s := Body(d);
    if d.scale > 0 {
      var p := |ds| - d.scale;
      forall i | 0 <= i < |s|
        ensures s[i] == '.' <==> i == p
      {
        if i < p {
          assert s[i] == ds[i];
        } else if i > p {
          assert s[i] == ds[i - 1];
        }
      }
    }
  }

  // ---- DECIMAL(19,4) --------------------------------------------------------

  const COLUMN_LIMIT: int := 10_000_000_000_000_000_000

  /** The amount a DECIMAL(19,4) column keeps, in ten-thousandths. Digits beyond the
      fourth are rounded half away from zero. */
  function StoredUnits(d: Decimal): (u: int) {
    if d.scale <= 4 then d.mantissa * Pow10(4 - d.scale)
    else
      var p := Pow10(d.scale - 4);
      var q := (2 * Abs(d.mantissa) + p) / (2 * p);
      if d.mantissa < 0 then -q else q
  }

  /** u ten-thousandths are the amount d: exactly if d has at most four decimals, else to the
      nearest, halves away from zero. */
  ghost predicate IsAmount(d: Decimal, u: int) {
    if d.scale <= 4 then u * Pow10(d.scale) == d.mantissa * 10_000
    else
      var p := Pow10(d.scale - 4);
      && 2 * Abs(u * p - d.mantissa) <= p
      && (2 * Abs(u * p - d.mantissa) == p ==> Abs(u * p) > Abs(d.mantissa))
  }

  /** What the column keeps is the amount. */
  lemma StoredIsAmount(d: Decimal)
    ensures IsAmount(d, StoredUnits(d))
  {
    if d.scale <= 4 {
      Pow10Product(4 - d.scale, d.scale);
      assert Pow10(2) == 100 && Pow10(4) == 10_000;
      var m, a, b := d.mantissa, Pow10(4 - d.scale), Pow10(d.scale);
      assert (m * a) * b == m * (a * b);
    } else {
      RoundedAway(d.mantissa, Pow10(d.scale - 4));
    }
  }

  lemma {:induction false} Pow10Product(a: nat, b: nat)
    ensures Pow10(a) * Pow10(b) == Pow10(a + b)
  {
    if a > 0 {
      Pow10Product(a - 1, b);
      assert (10 * Pow10(a - 1)) * Pow10(b) == 10 * (Pow10(a - 1) * Pow10(b));
    }
  }

  lemma RoundedAway(m: int, p: nat)
    requires p > 0
    ensures var q := (2 * Abs(m) + p) / (2 * p);
      var u := if m < 0 then -q else q;
      2 * Abs(u * p - m) <= p && (2 * Abs(u * p - m) == p ==> Abs(u * p) > Abs(m))
  {
    var n := 2 * Abs(m) + p;
    var q := n / (2 * p);
    assert n == q * (2 * p) + n % (2 * p);
    assert q * (2 * p) == 2 * (q * p);
    assert (-q) * p == -(q * p);
  }

  /** No amount is two numbers of ten-thousandths. */
  lemma AmountUnique(d: Decimal, u: int, v: int)
    requires IsAmount(d, u) && IsAmount(d, v)
    ensures u == v
  {
    if d.scale <= 4 {
      SameProduct(u, v, Pow10(d.scale));
    } else {
      NearestNotBelow(u, v, Pow10(d.scale - 4), d.mantissa);
      NearestNotBelow(v, u, Pow10(d.scale - 4), d.mantissa);
    }
  }

  lemma SameProduct(u: int, v: int, p: nat)
    requires p > 0 && u * p == v * p
    ensures u == v
  {
    if u > v {
      MultiplesApart(u, v, p);
    } else if v > u {
      MultiplesApart(v, u, p);
    }
  }

  lemma NearestNotBelow(u: int, v: int, p: nat, m: int)
    requires p > 0
    requires 2 * Abs(u * p - m) <= p && (2 * Abs(u * p - m) == p ==> Abs(u * p) > Abs(m))
    requires 2 * Abs(v * p - m) <= p && (2 * Abs(v * p - m) == p ==> Abs(v * p) > Abs(m))
    ensures u >= v
  {
    if u < 0 {
      MultiplesApart(0, u, p);
    } else if u > 0 {
      MultiplesApart(u, 0, p);
    }
    if v > 0 {
      MultiplesApart(v, 0, p);
    } else if v < 0 {
      MultiplesApart(0, v, p);
    }
    if u < v {
      MultiplesApart(v, u, p);
    }
  }

  lemma MultiplesApart(u: int, v: int, p: nat)
    requires u > v
    ensures u * p - v * p >= p
  {
    assert u * p - v * p == (u - v) * p;
    assert (u - v) * p == (u - v - 1) * p + p;
  }

  predicate FitsColumn(units: int) {
    -COLUMN_LIMIT < units < COLUMN_LIMIT
  }
}
