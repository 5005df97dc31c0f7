// Numbers packed into object ids, and their comparison.
module Numerics {
  import opened Arithmetic
  import opened Bytes

  const P56: nat := 0x100_0000_0000_0000
  const INTEGER_MAX: nat := P56 - 1
  const INT64_MIN: int := -0x8000_0000_0000_0000
  const INT64_MAX: int := 0x7FFF_FFFF_FFFF_FFFF

  const MASK_NEGATIVE_INT: nat := 0x50
  const MASK_POSITIVE_INT: nat := 0x51

  /* ----- integers ----- */

  // Negative numbers are kept complemented, so that ids are in the order of the numbers.
  function PackInt(i: int): (oid: Option<nat>)
    requires INT64_MIN < i <= INT64_MAX
  {
    if i < 0 then
      if 0 - i > INTEGER_MAX then None else Some(MASK_NEGATIVE_INT * P56 + (INTEGER_MAX + i))
    else
      if i > INTEGER_MAX then None else Some(MASK_POSITIVE_INT * P56 + i)
  }

  function UnpackInt(oid: nat): (i: Option<int>) {
    var mask, value := oid / P56, oid % P56;
    if mask == MASK_NEGATIVE_INT then Some(value - INTEGER_MAX)
    else if mask == MASK_POSITIVE_INT then Some(value)
    else None
  }

  // Exactly the numbers of at most 56 bits can be packed, and they come back.
  lemma IntRoundTrip(i: int)
    requires INT64_MIN < i <= INT64_MAX
    ensures PackInt(i).Some? <==> -0xFF_FFFF_FFFF_FFFF <= i <= 0xFF_FFFF_FFFF_FFFF
    ensures PackInt(i).Some? ==> UnpackInt(PackInt(i).value) == Some(i)
    ensures PackInt(i).Some? ==>
              var oid := PackInt(i).value;
              if i < 0 then 0x50_00_0000_0000_0000 <= oid < 0x51_00_0000_0000_0000
              else 0x51_00_0000_0000_0000 <= oid < 0x52_00_0000_0000_0000
  {}

  // The difference of two ids has the sign of the difference of the numbers, and does not overflow.
  lemma IntOrder(i: int, j: int)
    requires INT64_MIN < i <= INT64_MAX && INT64_MIN < j <= INT64_MAX && PackInt(i).Some? && PackInt(j).Some?
    ensures var diff := PackInt(i).value - PackInt(j).value;
            && INT64_MIN < diff <= INT64_MAX
            && (diff < 0 <==> i < j) && (diff == 0 <==> i == j)
  {}

  /* ----- decimals ----- */

  // sign, 51 bits of digits and the number of decimals.
  datatype Decimal = Decimal(negative: bool, digits: nat, decimals: nat) {
    predicate Fits() { digits < 0x8_0000_0000_0000 && decimals < 16 }

    function Number(): (r: int) { if negative then 0 - digits else digits }
  }

  function Pow10(n: nat): (r: nat)
    ensures r > 0
  {
    if n == 0 then 1 else 10 * Pow10(n - 1)
  }

  // Division that rounds towards zero, and its remainder.
  function Quotient(a: int, b: int): (q: int)
    requires b > 0
  {
    if a >= 0 then a / b else -(-a / b)
  }

  function Remainder(a: int, b: int): (r: int)
    requires b > 0
  {
    a - Quotient(a, b) * b
  }

  function Compare(a: Decimal, b: Decimal): (r: int)
    requires a.Fits() && b.Fits()
  {
    if a.decimals == b.decimals then a.Number() - b.Number()
    else
      var swap := if b.decimals > a.decimals then -1 else 1;
      var (lhs, rhs) := if b.decimals > a.decimals then (b, a) else (a, b);
      var div := Pow10(lhs.decimals - rhs.decimals);
      var division, remainder := Quotient(lhs.Number(), div), Remainder(lhs.Number(), div);
      if division == rhs.Number() then remainder * swap else (division - rhs.Number()) * swap
  }

  // The difference of the values, over a common denominator.
  function Difference(a: Decimal, b: Decimal): (r: int) {
    a.Number() * Pow10(b.decimals) - b.Number() * Pow10(a.decimals)
  }

  predicate SameSign(a: int, b: int) { (a < 0 <==> b < 0) && (a == 0 <==> b == 0) }

  // The comparison has the sign of the difference of the values, and stays within 64 bits.
  lemma CompareIsExact(a: Decimal, b: Decimal)
    requires a.Fits() && b.Fits()
    ensures SameSign(Compare(a, b), Difference(a, b))
    ensures INT64_MIN < Compare(a, b) <= INT64_MAX
  {
    if a.decimals >= b.decimals {
      LongerFirst(a, b);
    } else {
      LongerFirst(b, a);
      assert Compare(a, b) == -Compare(b, a) && Difference(a, b) == -Difference(b, a);
    }
  }

  // The number that a decimal stands for.
  ghost function Value(d: Decimal): (r: real) {
    (if d.negative then -1.0 else 1.0) * d.digits as real / Pow10(d.decimals) as real
  }

  // Comparing decimals is comparing the numbers.
  lemma CompareIsByValue(a: Decimal, b: Decimal)
    requires a.Fits() && b.Fits()
    ensures Compare(a, b) < 0 <==> Value(a) < Value(b)
    ensures Compare(a, b) == 0 <==> Value(a) == Value(b)
  {
    CompareIsExact(a, b);
    ValueOrder(a, b);
    hide Compare, Value, Difference;
  }

  lemma ValueOrder(a: Decimal, b: Decimal)
    ensures Value(a) < Value(b) <==> Difference(a, b) < 0
    ensures Value(a) == Value(b) <==> Difference(a, b) == 0
  {
    ValueIs(a);
    ValueIs(b);
    hide Pow10, Value;
    QuotientsCompare(a.Number(), Pow10(a.decimals), b.Number(), Pow10(b.decimals));
  }

  lemma QuotientsCompare(x: int, p: nat, y: int, q: nat)
    requires p > 0 && q > 0
    ensures x as real / p as real < y as real / q as real <==> x * q - y * p < 0
    ensures x as real / p as real == y as real / q as real <==> x * q - y * p == 0
  {
    DifferenceIs(x, q, y, p);
    CrossMultiplied(x as real, p as real, y as real, q as real);
  }

  lemma ValueIs(d: Decimal)
    ensures Value(d) == d.Number() as real / Pow10(d.decimals) as real
  {
    hide Pow10;
    assert (if d.negative then -1.0 else 1.0) * d.digits as real == d.Number() as real;
  }

  lemma DifferenceIs(x: int, q: nat, y: int, p: nat)
    ensures (x * q - y * p) as real == x as real * q as real - y as real * p as real
  {
    AsReal(x, q);
    AsReal(y, p);
  }

  lemma AsReal(x: int, p: nat)
    ensures (x * p) as real == x as real * p as real
  {}

  lemma CrossMultiplied(x: real, p: real, y: real, q: real)
    requires p > 0.0 && q > 0.0
    ensures x / p < y / q <==> x * q - y * p < 0.0
    ensures x / p == y / q <==> x * q - y * p == 0.0
  {
    var u, v := x / p, y / q;
    assert x == u * p && y == v * q;
    assert x * q - y * p == (u - v) * (p * q) by {
      assert u * p * q == u * (p * q) && v * q * p == v * (p * q);
    }
    assert p * q > 0.0;
  }

  // The case in which the first operand has more decimals.
  lemma LongerFirst(a: Decimal, b: Decimal)
    requires a.Fits() && b.Fits() && a.decimals >= b.decimals
    ensures SameSign(Compare(a, b), Difference(a, b))
    ensures INT64_MIN < Compare(a, b) <= INT64_MAX
  {
    var x, y, d, p := a.Number(), b.Number(), Pow10(a.decimals - b.decimals), Pow10(b.decimals);
    CompareIs(a, b);
    hide Quotient, Remainder, Pow10, Compare;
    QuotientSign(x, y, d);
    assert Difference(a, b) == (x - y * d) * p by {
      Pow10Sum(a.decimals - b.decimals, b.decimals);
      CommonFactor(x, y, d, p);
    }
    PositiveFactor(x - y * d, p);
  }

  function Rounded(x: int, y: int, d: nat): (c: int)
    requires d > 0
  {
    if Quotient(x, d) == y then Remainder(x, d) else Quotient(x, d) - y
  }

  lemma CompareIs(a: Decimal, b: Decimal)
    requires a.Fits() && b.Fits() && a.decimals >= b.decimals
    ensures Compare(a, b) == Rounded(a.Number(), b.Number(), Pow10(a.decimals - b.decimals))
    ensures 0 - INT64_MAX / 4 < Rounded(a.Number(), b.Number(), Pow10(a.decimals - b.decimals)) < INT64_MAX / 4
  {
    var x, d := a.Number(), Pow10(a.decimals - b.decimals);
    Truncated(x, d);
    Pow10Bound(a.decimals - b.decimals);
    if a.decimals == b.decimals {
      assert Quotient(x, 1) == x;
    }
  }

  lemma Pow10Bound(n: nat)
    requires n < 16
    ensures Pow10(n) <= 1_000_000_000_000_000
  {
    Pow10Monotone(n, 15);
    assert Pow10(15) == 1000 * Pow10(12) && Pow10(12) == 1000 * Pow10(9) && Pow10(9) == 1000 * Pow10(6);
    assert Pow10(6) == 1000 * Pow10(3) && Pow10(3) == 1000;
  }

  lemma {:induction false} Pow10Monotone(m: nat, n: nat)
    requires m <= n
    ensures Pow10(m) <= Pow10(n)
  {
    if m < n {
      Pow10Monotone(m, n - 1);
    }
  }

  lemma {:induction false} Pow10Sum(m: nat, n: nat)
    ensures Pow10(m + n) == Pow10(m) * Pow10(n)
  {
    if m > 0 {
      Pow10Sum(m - 1, n);
    }
  }

  lemma CommonFactor(x: int, y: int, d: nat, p: nat)
    ensures x * p - y * (d * p) == (x - y * d) * p
  {
    assert y * (d * p) == y * d * p;
  }

  lemma PositiveFactor(x: int, p: nat)
    requires p > 0
    ensures SameSign(x, x * p)
  {}

  // Truncating division leaves less than a unit over and does not go beyond the number.
  lemma Truncated(x: int, d: nat)
    requires d > 0
    ensures x == Quotient(x, d) * d + Remainder(x, d) && 0 - d < Remainder(x, d) < d
    ensures (x >= 0 ==> 0 <= Quotient(x, d) <= x) && (x < 0 ==> x <= Quotient(x, d) <= 0)
  {
    var m := if x >= 0 then x else 0 - x;
    assert m == m / d * d + m % d;
    MulGap(0, d, m / d);
  }

  // Truncation does not lose the sign.
  lemma QuotientSign(x: int, y: int, d: nat)
    requires d > 0
    ensures SameSign(Rounded(x, y, d), x - y * d)
  {
    var q, r := Quotient(x, d), Remainder(x, d);
    Truncated(x, d);
    hide Quotient, Remainder;
    assert x - y * d == (q - y) * d + r by {
      assert q * d - y * d == (q - y) * d;
    }
    AtLeastOneUnit(q - y, d);
  }

  lemma AtLeastOneUnit(k: int, d: nat)
    ensures k > 0 ==> k * d >= d
    ensures k < 0 ==> k * d <= 0 - d
  {
    if k > 0 {
      MulGap(0, k, d);
    } else if k < 0 {
      MulGap(0, 0 - k, d);
      assert k * d == 0 - (0 - k) * d;
    }
  }
}
