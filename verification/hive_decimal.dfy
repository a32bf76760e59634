/**
 * The decimal value type: an unbounded mantissa and a scale, standing for the number
 * mantissa / 10^scale (a negative scale multiplies by 10^-scale).
 */
module Decimal {
  import opened Wrappers

  const LONG_MIN: int := -0x8000_0000_0000_0000
  const LONG_MAX: int := 0x7FFF_FFFF_FFFF_FFFF

  datatype HiveDecimal = HiveDecimal(mantissa: int, scale: int)

  function Pow10(n: nat): (r: nat)
    ensures r >= 1
  {
    if n == 0 then 1 else 10 * Pow10(n - 1)
  }

  lemma {:induction false} Pow10Add(a: nat, b: nat)
    ensures Pow10(a + b) == Pow10(a) * Pow10(b)
  {
    if a > 0 {
      Pow10Add(a - 1, b);
    }
  }

  /** The number a decimal stands for. */
  ghost function Value(d: HiveDecimal): real
  {
    if d.scale >= 0 then d.mantissa as real / Pow10(d.scale) as real
    else (d.mantissa * Pow10(-d.scale)) as real
  }

  /** Rescaling by k more digits, with the mantissa multiplied by 10^k, keeps the value. */
  lemma ScaleValue(m: int, s: int, k: nat)
    ensures Value(HiveDecimal(m * Pow10(k), s + k)) == Value(HiveDecimal(m, s))
  {
    if s >= 0 {
      ScaleValueFrom(m, s, k);
    } else if s + k >= 0 {
      ScaleValueAcross(m, s, k);
    } else {
      ScaleValueBelow(m, s, k);
    }
  }

  lemma ScaleValueFrom(m: int, s: nat, k: nat)
    ensures Value(HiveDecimal(m * Pow10(k), s + k)) == Value(HiveDecimal(m, s))
  {
    Pow10Add(s, k);
    CancelFactor(m, Pow10(s), Pow10(k));
  }

  /** From a negative scale s up to the non-negative scale s + k. */
  lemma ScaleValueAcross(m: int, s: int, k: nat)
    requires s < 0 <= s + k
    ensures Value(HiveDecimal(m * Pow10(k), s + k)) == Value(HiveDecimal(m, s))
  {
    var u: nat, v: nat := -s, s + k;
    assert u + v == k;
    Pow10Add(u, v);
    var c := Pow10(v);
    MulAssoc(m, Pow10(u), c);
    DivideExact(m * Pow10(u), c);
  }

  /** From a negative scale s up to the still negative scale s + k. */
  lemma ScaleValueBelow(m: int, s: int, k: nat)
    requires s + k < 0
    ensures Value(HiveDecimal(m * Pow10(k), s + k)) == Value(HiveDecimal(m, s))
  {
    var u: nat := -(s + k);
    assert -s == u + k;
    Pow10Add(k, u);
    MulAssoc(m, Pow10(k), Pow10(u));
  }

  lemma NegateProduct(a: int, b: int)
    ensures (-a) * b == -(a * b)
  {
  }

  lemma MulAssoc(a: int, b: int, c: int)
    ensures a * (b * c) == (a * b) * c
  {
  }

  lemma CancelFactor(m: int, b: nat, a: nat)
    requires a >= 1 && b >= 1
    ensures (m * a) as real / (b * a) as real == m as real / b as real
  {
    var x := m as real / b as real;
    assert x * b as real == m as real;
    assert (m * a) as real == m as real * a as real;
    assert (b * a) as real == b as real * a as real;
    assert x * (b * a) as real == (m * a) as real;
  }

  lemma DivideExact(n: int, c: nat)
    requires c >= 1
    ensures (n * c) as real / c as real == n as real
  {
    assert (n * c) as real == n as real * c as real;
  }

  /** At a common scale, values compare as the mantissas do. */
  lemma SameScaleOrder(m1: int, m2: int, s: int)
    ensures Value(HiveDecimal(m1, s)) < Value(HiveDecimal(m2, s)) <==> m1 < m2
    ensures Value(HiveDecimal(m1, s)) == Value(HiveDecimal(m2, s)) <==> m1 == m2
  {
    if s >= 0 {
      var p := Pow10(s) as real;
      assert Value(HiveDecimal(m1, s)) * p == m1 as real;
      assert Value(HiveDecimal(m2, s)) * p == m2 as real;
    } else {
      var p := Pow10(-s);
      if m1 < m2 {
        assert m1 * p < m2 * p;
      } else if m2 < m1 {
        assert m2 * p < m1 * p;
      }
    }
  }

  /** At a common scale, values add as the mantissas do. */
  lemma SameScaleSum(m1: int, m2: int, s: int)
    ensures Value(HiveDecimal(m1 + m2, s)) == Value(HiveDecimal(m1, s)) + Value(HiveDecimal(m2, s))
  {
    if s < 0 {
      var p := Pow10(-s);
      assert (m1 + m2) * p == m1 * p + m2 * p;
    }
  }

  /** The decimal rescaled to newScale, standing for the same number. */
  function UpdateScale(d: HiveDecimal, newScale: int): (r: HiveDecimal)
    requires newScale >= d.scale
    ensures r.scale == newScale && Value(r) == Value(d)
  {
    ScaleValue(d.mantissa, d.scale, newScale - d.scale);
    HiveDecimal(d.mantissa * Pow10(newScale - d.scale), newScale)
  }

  /** Brings both operands to the larger of their scales. */
  function Normalize(x: HiveDecimal, y: HiveDecimal): (r: (HiveDecimal, HiveDecimal))
    ensures r.0.scale == r.1.scale == if x.scale >= y.scale then x.scale else y.scale
    ensures Value(r.0) == Value(x) && Value(r.1) == Value(y)
  {
    if x.scale > y.scale then (x, UpdateScale(y, x.scale))
    else if y.scale > x.scale then (UpdateScale(x, y.scale), y)
    else (x, y)
  }

  /** The sum, at the larger of the two scales. */
  function Add(left: HiveDecimal, right: HiveDecimal): (r: HiveDecimal)
    ensures r.scale == if left.scale >= right.scale then left.scale else right.scale
    ensures Value(r) == Value(left) + Value(right)
  {
    var (x, y) := Normalize(left, right);
    SameScaleSum(x.mantissa, y.mantissa, x.scale);
    HiveDecimal(x.mantissa + y.mantissa, x.scale)
  }

  /** Numeric equality, whatever the scales. */
  function Equals(a: HiveDecimal, b: HiveDecimal): (r: bool)
    ensures r <==> Value(a) == Value(b)
  {
    var (x, y) := Normalize(a, b);
    SameScaleOrder(x.mantissa, y.mantissa, x.scale);
    x.scale == y.scale && x.mantissa == y.mantissa
  }

  /** The sign of a - b: -1, 0 or 1. */
  function CompareTo(a: HiveDecimal, b: HiveDecimal): (r: int)
    ensures -1 <= r <= 1
    ensures r < 0 <==> Value(a) < Value(b)
    ensures r == 0 <==> Equals(a, b)
    ensures r > 0 <==> Value(b) < Value(a)
  {
    var (x, y) := Normalize(a, b);
    SameScaleOrder(x.mantissa, y.mantissa, x.scale);
    SameScaleOrder(y.mantissa, x.mantissa, x.scale);
    if x.mantissa < y.mantissa then -1 else if x.mantissa == y.mantissa then 0 else 1
  }

  /** Comparison is antisymmetric, and equality is reflexive and symmetric. */
  lemma CompareAntisymmetric(a: HiveDecimal, b: HiveDecimal)
    ensures CompareTo(a, b) == -CompareTo(b, a)
    ensures Equals(a, a)
    ensures Equals(a, b) == Equals(b, a)
  {
  }

  /** Equal values at different scales: 1.0 equals 1.00. */
  lemma TrailingZerosEqual()
    ensures Equals(HiveDecimal(10, 1), HiveDecimal(100, 2))
    ensures HiveDecimal(10, 1) != HiveDecimal(100, 2)
  {
    assert Normalize(HiveDecimal(10, 1), HiveDecimal(100, 2)) == (HiveDecimal(100, 2), HiveDecimal(100, 2));
  }

  // ---------------------------------------------------------------- long conversion

  /** A real number truncated toward zero. */
  ghost function Truncate(x: real): int
  {
    if x >= 0.0 then x.Floor else -((-x).Floor)
  }

  /** Integer division truncating toward zero, as big-integer division does. */
  function TruncDiv(a: int, b: int): (q: int)
    requires b > 0
    ensures a >= 0 ==> 0 <= q * b <= a < q * b + b
    ensures a < 0 ==> q * b - b < a <= q * b <= 0
  {
    var n: nat := if a >= 0 then a else -a;
    QuotientBounds(n, b);
    NegateProduct(n / b, b);
    if a >= 0 then a / b else -((-a) / b)
  }

  /** The quotient of a natural, times the divisor, is at most it and within one divisor of it. */
  lemma QuotientBounds(n: nat, b: int)
    requires b > 0
    ensures 0 <= (n / b) * b <= n < (n / b) * b + b
  {
    assert n == (n / b) * b + n % b;
  }

  lemma TruncDivIsTruncate(a: int, b: int)
    requires b > 0
    ensures TruncDiv(a, b) == Truncate(a as real / b as real)
  {
    var n := if a >= 0 then a else -a;
    FloorOfQuotient(n, b);
    assert a as real / b as real == if a >= 0 then n as real / b as real else -(n as real / b as real);
  }

  lemma FloorOfQuotient(n: nat, b: int)
    requires b > 0
    ensures (n as real / b as real).Floor == n / b
  {
    var q, r := n / b, n % b;
    var x := n as real / b as real;
    assert x * b as real == n as real;
    assert n as real == q as real * b as real + r as real;
    assert q as real <= x by {
      assert q as real * b as real <= x * b as real;
    }
    assert x < (q + 1) as real by {
      assert x * b as real < (q + 1) as real * b as real;
    }
  }

  /**
   * The decimal truncated toward zero to a 64-bit integer, failing with an overflow when
   * the truncated value does not fit.
   */
  function LongValue(d: HiveDecimal): (r: Result<int>)
    ensures r.Ok? <==> LONG_MIN <= Truncate(Value(d)) <= LONG_MAX
    ensures r.Ok? ==> r.value == Truncate(Value(d))
    ensures r.Fail? ==> r.error == Overflow
  {
    var v :=
      if d.scale < 0 then d.mantissa * Pow10(-d.scale)
      else if d.scale > 0 then TruncDiv(d.mantissa, Pow10(d.scale))
      else d.mantissa;
    LongValueIsTruncate(d);
    if LONG_MIN <= v <= LONG_MAX then Ok(v) else Fail(Overflow)
  }

  lemma LongValueIsTruncate(d: HiveDecimal)
    ensures Truncate(Value(d)) ==
      if d.scale < 0 then d.mantissa * Pow10(-d.scale)
      else if d.scale > 0 then TruncDiv(d.mantissa, Pow10(d.scale))
      else d.mantissa
  {
    if d.scale > 0 {
      TruncDivIsTruncate(d.mantissa, Pow10(d.scale));
    } else if d.scale == 0 {
      assert Value(d) == d.mantissa as real;
    }
  }

  // ---------------------------------------------------------------- text

  predicate IsDigit(c: char)
  {
    '0' <= c <= '9'
  }

  predicate AllDigits(s: string)
  {
    forall i :: 0 <= i < |s| ==> IsDigit(s[i])
  }

  function Digit(c: char): (r: nat)
    requires IsDigit(c)
    ensures r < 10
  {
    c as int - '0' as int
  }

  /** The number a string of decimal digits spells, most significant first. */
  function DigitsValue(s: string): nat
    requires AllDigits(s)
  {
    if s == [] then 0 else 10 * DigitsValue(s[..|s| - 1]) + Digit(s[|s| - 1])
  }

  function Zeros(n: nat): (r: string)
    ensures |r| == n && AllDigits(r)
    ensures forall i :: 0 <= i < n ==> r[i] == '0'
  {
    seq(n, _ => '0')
  }

  /** The shortest decimal digits of n. */
  function NatToString(n: nat): (s: string)
    ensures |s| >= 1 && AllDigits(s) && DigitsValue(s) == n
    // no leading zeros: only zero itself starts with '0'
    ensures s[0] == '0' ==> n == 0
    ensures '.' !in s && '-' !in s
  {
    var last := ['0' + (n % 10) as char];
    if n < 10 then last
    else
      var s := NatToString(n / 10) + last;
      assert s[..|s| - 1] == NatToString(n / 10);
      s
  }

  /** The integer's decimal text, with a leading minus sign when negative. */
  function IntToString(m: int): (s: string)
    ensures |s| >= 1 && (s[0] == '-' <==> m < 0) && '.' !in s
  {
    if m < 0 then "-" + NatToString(-m) else NatToString(m)
  }

  /**
   * Big-integer parsing of an optional sign followed by at least one digit; anything else
   * is a format error.
   */
  function ParseInteger(s: string): (r: Result<int>)
    ensures r.Fail? ==> r.error == Format
    ensures r.Ok? <==>
      || (|s| > 0 && AllDigits(s))
      || (|s| > 1 && (s[0] == '-' || s[0] == '+') && AllDigits(s[1..]))
    // an accepted text is worth its digits, negated after a minus sign
    ensures r.Ok? && AllDigits(s) ==> r.value == DigitsValue(s)
    ensures r.Ok? && !AllDigits(s) ==>
      AllDigits(s[1..]) && r.value == (if s[0] == '-' then -1 else 1) * DigitsValue(s[1..])
  {
    if |s| > 0 && (s[0] == '-' || s[0] == '+') then
      var ds := s[1..];
      if |ds| > 0 && AllDigits(ds) then
        var v: int := DigitsValue(ds);
        Ok(if s[0] == '-' then -v else v)
      else Fail(Format)
    else if |s| > 0 && AllDigits(s) then Ok(DigitsValue(s))
    else Fail(Format)
  }

  lemma ParseIntToString(m: int)
    ensures ParseInteger(IntToString(m)) == Ok(m)
  {
    if m < 0 {
      assert IntToString(m)[1..] == NatToString(-m);
    }
  }

  /** The index of the first c in s, or -1. */
  function IndexOf(s: string, c: char): (r: int)
    ensures -1 <= r < |s|
    ensures r >= 0 ==> s[r] == c && c !in s[..r]
    ensures r < 0 <==> c !in s
  {
    if s == [] then -1
    else if s[0] == c then 0
    else
      var r := IndexOf(s[1..], c);
      if r < 0 then -1
      else
        assert s[..r + 1] == [s[0]] + s[1..][..r];
        r + 1
  }

  /**
   * Reads decimal text: the first '.' is dropped and the number of characters after it
   * becomes the scale; the rest must parse as a big integer.
   */
  function Parse(text: string): (r: Result<HiveDecimal>)
    ensures r.Fail? ==> r.error == Format
    ensures r.Ok? ==> r.value.scale >= 0
    ensures '.' !in text ==> r.Ok? == ParseInteger(text).Ok? && (r.Ok? ==> r.value == HiveDecimal(ParseInteger(text).value, 0))
  {
    var position := IndexOf(text, '.');
    var digits := if position >= 0 then text[..position] + text[position + 1..] else text;
    var scale := if position >= 0 then |digits| - position else 0;
    var m := ParseInteger(digits);
    if m.Fail? then Fail(m.error) else Ok(HiveDecimal(m.value, scale))
  }

  lemma {:induction false} DigitsValueAppend(a: string, b: string)
    requires AllDigits(a) && AllDigits(b)
    ensures AllDigits(a + b)
    ensures DigitsValue(a + b) == DigitsValue(a) * Pow10(|b|) + DigitsValue(b)
  {
    if b != [] {
      var b' := b[..|b| - 1];
      assert (a + b)[..|a + b| - 1] == a + b';
      DigitsValueAppend(a, b');
      ShiftDigit(DigitsValue(a), Pow10(|b'|), DigitsValue(b'), Digit(b[|b| - 1]));
    } else {
      assert a + b == a;
    }
  }

  lemma ShiftDigit(x: int, p: int, y: int, d: int)
    ensures 10 * (x * p + y) + d == x * (10 * p) + (10 * y + d)
  {
    assert 10 * (x * p) == x * (10 * p);
  }

  lemma {:induction false} ZerosValue(n: nat)
    ensures DigitsValue(Zeros(n)) == 0
  {
    if n > 0 {
      assert Zeros(n)[..n - 1] == Zeros(n - 1);
      ZerosValue(n - 1);
    }
  }

  /**
   * Text made of an optional minus sign, digits a, a point and digits b reads as the
   * mantissa spelt by a and b together, at scale |b|.
   */
  lemma ParsePointText(sign: string, a: string, b: string)
    requires sign == "" || sign == "-"
    requires AllDigits(a) && AllDigits(b) && |a + b| > 0
    ensures AllDigits(a + b)
    ensures Parse(sign + a + "." + b)
         == Ok(HiveDecimal(if sign == "-" then -(DigitsValue(a + b) as int) else DigitsValue(a + b), |b|))
  {
    AllDigitsAppend(a, b);
    var pre := sign + a;
    var m: int := if sign == "-" then -(DigitsValue(a + b) as int) else DigitsValue(a + b);
    assert ParseInteger(pre + b) == Ok(m) by {
      SignedDigits(sign, a + b);
      StringAssoc(sign, a, b);
    }
    SignedNoPoint(sign, a);
    ParseAtPoint(pre, b);
  }

  lemma AllDigitsAppend(a: string, b: string)
    requires AllDigits(a) && AllDigits(b)
    ensures AllDigits(a + b)
  {
    assert forall i :: 0 <= i < |a + b| ==> (a + b)[i] == if i < |a| then a[i] else b[i - |a|];
  }

  lemma SignedNoPoint(sign: string, a: string)
    requires sign == "" || sign == "-"
    requires AllDigits(a)
    ensures '.' !in sign + a
  {
    if sign == "-" {
      assert (sign + a)[1..] == a;
    } else {
      assert sign + a == a;
    }
  }

  lemma StringAssoc(x: string, y: string, z: string)
    ensures (x + y) + z == x + (y + z)
  {
  }

  /** Text whose first point follows pre reads as pre and b together, at scale |b|. */
  lemma ParseAtPoint(pre: string, b: string)
    requires '.' !in pre && ParseInteger(pre + b).Ok?
    ensures Parse(pre + "." + b) == Ok(HiveDecimal(ParseInteger(pre + b).value, |b|))
  {
    var text := pre + "." + b;
    IndexOfAfter(pre, b);
    assert text[..|pre|] == pre && text[|pre| + 1..] == b;
  }

  lemma {:induction false} IndexOfAfter(pre: string, b: string)
    requires '.' !in pre
    ensures IndexOf(pre + "." + b, '.') == |pre|
  {
    var text := pre + "." + b;
    if pre != [] {
      assert text[0] == pre[0];
      assert text[1..] == pre[1..] + "." + b;
      IndexOfAfter(pre[1..], b);
    }
  }

  /** An optional minus sign followed by digits parses as the signed number they spell. */
  lemma SignedDigits(sign: string, ds: string)
    requires sign == "" || sign == "-"
    requires AllDigits(ds) && |ds| > 0
    ensures ParseInteger(sign + ds) == Ok(if sign == "-" then -(DigitsValue(ds) as int) else DigitsValue(ds))
  {
    if sign == "-" {
      NegativeDigits(ds);
    } else {
      assert sign + ds == ds;
      PlainDigits(ds);
    }
  }

  lemma NegativeDigits(ds: string)
    requires AllDigits(ds) && |ds| > 0
    ensures ParseInteger("-" + ds) == Ok(-(DigitsValue(ds) as int))
  {
    var s := "-" + ds;
    assert s[0] == '-' && s[1..] == ds;
  }

  lemma PlainDigits(ds: string)
    requires AllDigits(ds) && |ds| > 0
    ensures ParseInteger(ds) == Ok(DigitsValue(ds))
  {
    assert IsDigit(ds[0]);
  }

  /** The minus sign of a negative number, otherwise nothing. */
  function SignText(m: int): string
  {
    if m < 0 then "-" else ""
  }

  /** The digits of |m|. */
  function Magnitude(m: int): (s: string)
    ensures |s| >= 1 && AllDigits(s)
    ensures DigitsValue(s) == if m < 0 then -m else m
  {
    NatToString(if m < 0 then -m else m)
  }

  /** digits with leading zeros added up to width characters. */
  function PadDigits(digits: string, width: nat): (r: string)
    requires AllDigits(digits)
    ensures |r| >= width && AllDigits(r)
    ensures DigitsValue(r) == DigitsValue(digits)
  {
    if |digits| < width then
      var z := Zeros(width - |digits|);
      DigitsValueAppend(z, digits);
      ZerosValue(width - |digits|);
      z + digits
    else digits
  }

  /** Padding reaches exactly the wanted width, or leaves longer digits as they are. */
  lemma PadDigitsWidth(digits: string, width: nat)
    requires AllDigits(digits)
    ensures |PadDigits(digits, width)| == if |digits| < width then width else |digits|
    ensures |digits| >= width ==> PadDigits(digits, width) == digits
  {
  }

  /** The digits of a positive-scale decimal, padded to at least scale characters. */
  function PointDigits(d: HiveDecimal): (r: string)
    requires d.scale > 0
    ensures |r| >= d.scale && AllDigits(r)
    ensures DigitsValue(r) == if d.mantissa < 0 then -d.mantissa else d.mantissa
  {
    PadDigits(Magnitude(d.mantissa), d.scale)
  }

  /** The digits before the point. */
  function IntegerDigits(d: HiveDecimal): string
    requires d.scale > 0
  {
    var p := PointDigits(d);
    p[..|p| - d.scale]
  }

  /** The scale digits after the point. */
  function FractionDigits(d: HiveDecimal): (r: string)
    requires d.scale > 0
    ensures |r| == d.scale
  {
    var p := PointDigits(d);
    p[|p| - d.scale..]
  }

  /**
   * The decimal's text: its digits with the point scale places from the right (padded
   * with leading zeros when there are fewer digits than that), or followed by -scale zeros
   * when the scale is negative.
   */
  function ToString(d: HiveDecimal): (s: string)
    ensures |s| >= 1 && (s[0] == '-' <==> d.mantissa < 0)
    // the point sits scale characters from the right
    ensures d.scale > 0 ==> |s| > d.scale && s[|s| - d.scale - 1] == '.'
    ensures d.scale <= 0 ==> '.' !in s
  {
    if d.scale > 0 then SignText(d.mantissa) + IntegerDigits(d) + "." + FractionDigits(d)
    else if d.scale < 0 then IntToString(d.mantissa) + Zeros(-d.scale)
    else IntToString(d.mantissa)
  }

  /** Reading the text back gives the same decimal, and for a negative scale the same value. */
  lemma ParseToString(d: HiveDecimal)
    ensures Parse(ToString(d)).Ok?
    ensures d.scale >= 0 ==> Parse(ToString(d)) == Ok(d)
    ensures Equals(Parse(ToString(d)).value, d)
  {
    if d.scale > 0 {
      ParseToStringPoint(d);
    } else if d.scale < 0 {
      ParseToStringZeros(d);
    } else {
      ParseIntToString(d.mantissa);
    }
  }

  lemma ParseToStringPoint(d: HiveDecimal)
    requires d.scale > 0
    ensures Parse(ToString(d)) == Ok(d)
  {
    var a, b, sign := IntegerDigits(d), FractionDigits(d), SignText(d.mantissa);
    PointText(d);
    ParsePointText(sign, a, b);
  }

  /** The parts of a positive-scale decimal's text, and what they spell. */
  lemma PointText(d: HiveDecimal)
    requires d.scale > 0
    ensures var a, b, sign := IntegerDigits(d), FractionDigits(d), SignText(d.mantissa);
      && ToString(d) == sign + a + "." + b
      && (sign == "" || sign == "-") && (sign == "-" <==> d.mantissa < 0)
      && AllDigits(a) && AllDigits(b) && |a + b| > 0 && |b| == d.scale
      && DigitsValue(a + b) == if d.mantissa < 0 then -d.mantissa else d.mantissa
  {
    var a, b := IntegerDigits(d), FractionDigits(d);
    assert a + b == PointDigits(d);
  }

  lemma ParseToStringZeros(d: HiveDecimal)
    requires d.scale < 0
    ensures Parse(ToString(d)).Ok?
    ensures Equals(Parse(ToString(d)).value, d)
  {
    var k := -d.scale;
    var text := IntToString(d.mantissa) + Zeros(k);
    ZerosTextParse(d.mantissa, k);
    assert '.' !in text by {
      assert '.' !in IntToString(d.mantissa);
    }
    assert Parse(text) == Ok(HiveDecimal(d.mantissa * Pow10(k), 0));
    ScaleValue(d.mantissa, d.scale, k);
  }

  /** An integer's text followed by k zeros reads as the integer times 10^k. */
  lemma ZerosTextParse(m: int, k: nat)
    ensures ParseInteger(IntToString(m) + Zeros(k)) == Ok(m * Pow10(k))
  {
    var digits := Magnitude(m);
    assert IntToString(m) + Zeros(k) == SignText(m) + (digits + Zeros(k));
    DigitsValueAppend(digits, Zeros(k));
    ZerosValue(k);
    SignedDigits(SignText(m), digits + Zeros(k));
    var v: int := DigitsValue(digits + Zeros(k));
    if m < 0 {
      assert v == (-m) * Pow10(k);
      NegateProduct(m, Pow10(k));
    }
  }

  // ---------------------------------------------------------------- text as written

  /** Left-pads s with c up to totalWidth characters; a longer s is returned as it is. */
  function PadLeft(s: string, totalWidth: int, c: char): (r: string)
    ensures |r| == if |s| >= totalWidth then |s| else totalWidth
    // fill characters, then s unchanged
    ensures s == r[|r| - |s|..]
    ensures forall i :: 0 <= i < |r| - |s| ==> r[i] == c
  {
    if |s| >= totalWidth then s else seq(totalWidth - |s|, _ => c) + s
  }

  /**
   * The text as the code builds it for a positive scale: the point is placed by counting
   * the characters of the signed digit string, and a short string is padded only up to
   * scale - length characters.
   */
  function ToStringAsWritten(d: HiveDecimal): (s: string)
    ensures d.scale <= 0 ==> s == ToString(d)
  {
    var result := IntToString(d.mantissa);
    if d.scale > 0 then
      var shift := |result| - d.scale;
      if shift < 0 then
        var padded := PadLeft(result, -shift, '0');
        padded[..0] + "." + padded[0..]
      else result[..shift] + "." + result[shift..]
    else if d.scale < 0 then result + Zeros(-d.scale)
    else result
  }

  /** As written, 5 at scale 3 (0.005) prints as ".05", which reads back as 0.05. */
  lemma PadWidthCounterexample()
    ensures ToStringAsWritten(HiveDecimal(5, 3)) == ".05"
    ensures Parse(".05") == Ok(HiveDecimal(5, 2))
    ensures !Equals(HiveDecimal(5, 2), HiveDecimal(5, 3))
    ensures ToString(HiveDecimal(5, 3)) == ".005"
  {
    FiveAsWritten();
    ParsePointFive();
    FiveAtScale3();
    assert !Equals(HiveDecimal(5, 2), HiveDecimal(5, 3)) by {
      assert Normalize(HiveDecimal(5, 2), HiveDecimal(5, 3)) == (HiveDecimal(50, 3), HiveDecimal(5, 3));
    }
  }

  lemma FiveAsWritten()
    ensures ToStringAsWritten(HiveDecimal(5, 3)) == ".05"
  {
    FiveText();
    assert PadLeft("5", 2, '0') == "05";
  }

  lemma ParsePointFive()
    ensures Parse(".05") == Ok(HiveDecimal(5, 2))
  {
    ParsePointText("", "", "05");
    assert "" + "" + "." + "05" == ".05";
    assert "" + "05" == "05";
    assert DigitsValue("05") == 5 by {
      assert "05"[..1] == "0";
    }
  }

  lemma FiveText()
    ensures NatToString(5) == "5" && IntToString(5) == "5" && IntToString(-5) == "-5"
    ensures Magnitude(5) == "5" && Magnitude(-5) == "5"
  {
  }

  lemma FiveAtScale3()
    ensures ToString(HiveDecimal(5, 3)) == ".005"
  {
    var d := HiveDecimal(5, 3);
    FiveText();
    assert Zeros(2) == "00";
    var p := PointDigits(d);
    assert p == Zeros(2) + "5" == "005";
    assert IntegerDigits(d) == p[..0] == "";
    assert FractionDigits(d) == p[0..] == "005";
    assert ToString(d) == "" + "" + "." + "005";
  }

  /**
   * As written, -5 at scale 2 (-0.05) prints as ".-5": the point lands before the sign.
   * Parse happens to read that text back, since it drops the point wherever it is.
   */
  lemma SignCounterexample()
    ensures ToStringAsWritten(HiveDecimal(-5, 2)) == ".-5"
    ensures ToString(HiveDecimal(-5, 2)) == "-.05"
    ensures Parse(".-5") == Ok(HiveDecimal(-5, 2))
  {
    FiveText();
    MinusFiveAtScale2();
    assert ".-5"[..0] + ".-5"[1..] == "-5";
    assert "-5"[1..] == "5";
    assert DigitsValue("5") == DigitsValue("") * 10 + 5;
  }

  /**
   * As written, -5 at scale 5 (-0.00005) pads the signed text to "0-5" and prints ".0-5",
   * which Parse rejects.
   */
  lemma SignPadCounterexample()
    ensures ToStringAsWritten(HiveDecimal(-5, 5)) == ".0-5"
    ensures Parse(".0-5") == Fail(Format)
  {
    FiveText();
    assert PadLeft("-5", 3, '0') == "0-5";
    assert !IsDigit("0-5"[1]);
    assert ".0-5"[..0] + ".0-5"[1..] == "0-5";
  }

  lemma MinusFiveAtScale2()
    ensures ToString(HiveDecimal(-5, 2)) == "-.05"
  {
    var d := HiveDecimal(-5, 2);
    FiveText();
    assert Zeros(1) == "0";
    var p := PointDigits(d);
    assert p == Zeros(1) + "5" == "05";
    assert IntegerDigits(d) == p[..0] == "";
    assert FractionDigits(d) == p[0..] == "05";
    assert ToString(d) == "-" + "" + "." + "05";
  }

  /**
   * The text as written agrees with the corrected text exactly when the scale is not
   * positive or the digits of the mantissa are at least as many as the scale.
   */
  lemma AsWrittenAgrees(d: HiveDecimal)
    ensures ToStringAsWritten(d) == ToString(d) <==> d.scale <= 0 || |Magnitude(d.mantissa)| >= d.scale
  {
    if d.scale > 0 {
      if |Magnitude(d.mantissa)| >= d.scale {
        AsWrittenAgreesPoint(d);
      } else {
        AsWrittenDiffers(d);
      }
    }
  }

  lemma AsWrittenAgreesPoint(d: HiveDecimal)
    requires d.scale > 0 && |Magnitude(d.mantissa)| >= d.scale
    ensures ToStringAsWritten(d) == ToString(d)
  {
    var digits, sign := Magnitude(d.mantissa), SignText(d.mantissa);
    var shift := |digits| - d.scale;
    PointForm(d);
    SignedForm(d.mantissa);
    var result := IntToString(d.mantissa);
    assert |result| - d.scale == |sign| + shift;
    AsWrittenForm(d);
    assert ToStringAsWritten(d) == result[..|sign| + shift] + "." + result[|sign| + shift..];
    CutAfterPrefix(sign, digits, shift);
  }

  /** With at least scale digits, the text puts the point scale digits from the right. */
  lemma PointForm(d: HiveDecimal)
    requires d.scale > 0 && |Magnitude(d.mantissa)| >= d.scale
    ensures var digits := Magnitude(d.mantissa);
      ToString(d) == SignText(d.mantissa) + digits[..|digits| - d.scale] + "." + digits[|digits| - d.scale..]
  {
    assert PointDigits(d) == Magnitude(d.mantissa);
  }

  lemma SignedForm(m: int)
    ensures IntToString(m) == SignText(m) + Magnitude(m)
  {
  }

  /** The text as written, when the signed digit string has at least scale characters. */
  lemma AsWrittenForm(d: HiveDecimal)
    requires d.scale > 0 && |IntToString(d.mantissa)| >= d.scale
    ensures var result := IntToString(d.mantissa);
      ToStringAsWritten(d) == result[..|result| - d.scale] + "." + result[|result| - d.scale..]
  {
  }

  /** Cutting x + y k characters into y. */
  lemma CutAfterPrefix(x: string, y: string, k: nat)
    requires k <= |y|
    ensures (x + y)[..|x| + k] == x + y[..k] && (x + y)[|x| + k..] == y[k..]
  {
  }

  /** With fewer digits than the scale, the text as written is too short (or starts with the point where the sign belongs). */
  lemma AsWrittenDiffers(d: HiveDecimal)
    requires d.scale > 0 && |Magnitude(d.mantissa)| < d.scale
    ensures ToStringAsWritten(d) != ToString(d)
  {
    var digits := Magnitude(d.mantissa);
    var p := PointDigits(d);
    assert |p| == d.scale;
    assert IntegerDigits(d) == [];
    var text := ToString(d);
    assert text == SignText(d.mantissa) + [] + "." + FractionDigits(d);
    var result := IntToString(d.mantissa);
    var shift := |result| - d.scale;
    if d.mantissa < 0 {
      assert text[0] == '-';
      assert shift <= 0;
      assert ToStringAsWritten(d)[0] == '.';
    } else {
      assert result == digits && shift < 0;
      assert |ToStringAsWritten(d)| < |text|;
    }
  }
}
