/**
  Decimal numerals: the rendering of natural numbers (`str(n)` in an f-string) and of
  fixed-point values (`f"{x:.6f}"`, `f"{x:.3f}"`), together with the parsers that read
  them back. A fixed-point value with `p` decimal places is modelled by the integer
  `x * 10^p`, so the rendering is exact.
 */
module Numerals {
  import opened Wrappers

  predicate IsDigit(c: char) {
    '0' <= c <= '9'
  }

  predicate AllDigits(s: string) {
    forall i :: 0 <= i < |s| ==> IsDigit(s[i])
  }

  function DigitChar(d: nat): (c: char)
    requires d < 10
    ensures IsDigit(c)
  {
    ('0' as int + d) as char
  }

  function DigitValue(c: char): (d: nat)
    requires IsDigit(c)
    ensures d < 10
  {
    c as int - '0' as int
  }

  function Pow10(p: nat): (r: nat)
    ensures r >= 1
  {
    if p == 0 then 1 else 10 * Pow10(p - 1)
  }

  /** The decimal rendering of `n`, without leading zeros. */
  function Digits(n: nat): (s: string)
    ensures |s| >= 1 && AllDigits(s)
    ensures |s| > 1 ==> s[0] != '0'
    decreases n
  {
    if n < 10 then [DigitChar(n)] else Digits(n / 10) + [DigitChar(n % 10)]
  }

  /** The number a string of decimal digits denotes (leading zeros allowed). */
  function ValueOf(s: string): nat
    requires AllDigits(s)
  {
    if |s| == 0 then 0 else 10 * ValueOf(s[..|s| - 1]) + DigitValue(s[|s| - 1])
  }

  /** Reading back a rendered number gives the number. */
  lemma {:induction false} ValueOfDigits(n: nat)
    ensures ValueOf(Digits(n)) == n
    decreases n
  {
    if n >= 10 {
      var s := Digits(n);
      assert s[..|s| - 1] == Digits(n / 10);
      ValueOfDigits(n / 10);
    }
  }

  /** Distinct numbers have distinct renderings. */
  lemma DigitsInjective(a: nat, b: nat)
    ensures Digits(a) == Digits(b) ==> a == b
  {
    ValueOfDigits(a);
    ValueOfDigits(b);
  }

  function Zeros(k: nat): (s: string)
    ensures |s| == k && AllDigits(s)
    ensures forall i :: 0 <= i < k ==> s[i] == '0'
  {
    if k == 0 then "" else "0" + Zeros(k - 1)
  }

  /** Left-pads a digit string with zeros to at least `width` characters. */
  function PadLeft(s: string, width: nat): (r: string)
    requires AllDigits(s)
    ensures AllDigits(r)
    ensures |r| == if |s| < width then width else |s|
  {
    if |s| < width then Zeros(width - |s|) + s else s
  }

  /** Leading zeros do not change the value of a digit string. */
  lemma {:induction false} ValueOfLeadingZeros(k: nat, s: string)
    requires AllDigits(s)
    ensures ValueOf(Zeros(k) + s) == ValueOf(s)
    decreases |s|
  {
    var z := Zeros(k) + s;
    if |s| == 0 {
      ValueOfZeros(k);
      assert z == Zeros(k);
    } else {
      assert z[..|z| - 1] == Zeros(k) + s[..|s| - 1];
      ValueOfLeadingZeros(k, s[..|s| - 1]);
    }
  }

  lemma {:induction false} ValueOfZeros(k: nat)
    ensures ValueOf(Zeros(k)) == 0
  {
    if k > 0 {
      assert Zeros(k)[..k - 1] == Zeros(k - 1);
      ValueOfZeros(k - 1);
    }
  }

  /** A number below `10^p` has at most `p` digits (and a single digit when zero). */
  lemma {:induction false} DigitsLength(n: nat, p: nat)
    requires n < Pow10(p)
    ensures |Digits(n)| <= p || (n == 0 && p == 0)
    decreases n
  {
    if n >= 10 {
      assert p >= 1;
      assert n / 10 < Pow10(p - 1);
      DigitsLength(n / 10, p - 1);
    }
  }

  /** The whole part and the `p`-digit fraction of the non-negative fixed-point value `a`. */
  function Whole(a: nat, p: nat): nat {
    if p == 0 then a else Whole(a / 10, p - 1)
  }

  function Fraction(a: nat, p: nat): (f: nat)
    ensures f < Pow10(p)
    ensures a == Whole(a, p) * Pow10(p) + f
  {
    if p == 0 then 0
    else
      var f' := Fraction(a / 10, p - 1);
      ShiftDigit(Whole(a / 10, p - 1), Pow10(p - 1), f', a / 10, a % 10);
      a % 10 + 10 * f'
  }

  /** Appending digit `d` to `b = w * q + f'` appends it to the fraction `f'`. */
  lemma ShiftDigit(w: nat, q: nat, f': nat, b: nat, d: nat)
    requires b == w * q + f' && f' < q && d < 10
    ensures 10 * b + d == w * (10 * q) + (d + 10 * f')
    ensures d + 10 * f' < 10 * q
  {
    assert 10 * (w * q) == w * (10 * q);
  }

  /** The digits after the point: `p` of them, zero-padded. */
  function FractionDigits(a: nat, p: nat): (s: string)
    ensures AllDigits(s) && |s| == p
    ensures ValueOf(s) == Fraction(a, p)
  {
    var f := Fraction(a, p);
    DigitsLength(f, p);
    ValueOfDigits(f);
    if p == 0 then
      assert f == 0;
      ""
    else
      var d := Digits(f);
      if |d| < p then
        ValueOfLeadingZeros(p - |d|, d);
        PadLeft(d, p)
      else
        PadLeft(d, p)
  }

  /**
    The rendering `f"{x:.{p}f}"` of the fixed-point value `x = v / 10^p`, for
    `p >= 1` (the loop uses 3 and 6): an optional minus sign, the whole digits,
    a point and exactly `p` fraction digits. For `p == 0` Python omits the point;
    this rendering keeps it.
   */
  function FormatFixed(v: int, p: nat): (s: string)
    ensures FixedShape(s, p, v < 0)
  {
    var u := FormatUnsigned(Abs(v), p);
    SignedShape(v < 0, u, p, Sign(v < 0) + u);
    Sign(v < 0) + u
  }

  /**
    The layout of a fixed-point rendering with `p` decimals: a minus sign exactly
    when `negative`, digits, a point, and `p` digits after it.
   */
  predicate FixedShape(s: string, p: nat, negative: bool) {
    && |s| > p + 1
    && s[|s| - p - 1] == '.' && AllDigits(s[|s| - p..])
    && (s[0] == '-' <==> negative)
    && (negative ==> AllDigits(s[1..|s| - p - 1]))
    && (!negative ==> AllDigits(s[..|s| - p - 1]))
  }

  /** A sign in front keeps the point and the digit runs where they were, counted from the end. */
  lemma SignedShape(negative: bool, u: string, p: nat, s: string)
    requires |u| > p + 1 && IsDigit(u[0])
    requires u[|u| - p - 1] == '.' && AllDigits(u[|u| - p..]) && AllDigits(u[..|u| - p - 1])
    requires s == Sign(negative) + u
    ensures FixedShape(s, p, negative)
  {
    if negative {
      assert s[1..] == u;
      assert s[|s| - p..] == u[|u| - p..];
      assert s[1..|s| - p - 1] == s[1..][..|u| - p - 1];
    } else {
      assert s == u;
    }
  }

  /**
    The part before the point is the decimal numeral of the whole part of `|v|`,
    so it carries no leading zero.
   */
  lemma FormatFixedWhole(v: int, p: nat)
    ensures var s := FormatFixed(v, p);
            && |s| >= |Sign(v < 0)| + p + 1
            && s[|Sign(v < 0)|..|s| - p - 1] == Digits(Whole(Abs(v), p))
  {
    WholeSlice(Sign(v < 0), Digits(Whole(Abs(v), p)), FractionDigits(Abs(v), p), FormatFixed(v, p));
  }

  /** The part between a sign and a point followed by `|f|` digits is the whole part. */
  lemma WholeSlice(sg: string, w: string, f: string, s: string)
    requires s == sg + (w + "." + f)
    ensures |s| >= |sg| + |f| + 1 && s[|sg|..|s| - |f| - 1] == w
  {
    assert s[|sg|..] == w + "." + f;
    assert s[|sg|..|s| - |f| - 1] == s[|sg|..][..|w|];
  }

  function Sign(negative: bool): string {
    if negative then "-" else ""
  }

  function Abs(v: int): nat {
    if v < 0 then -v else v
  }

  /** The rendering of a non-negative fixed-point value: whole digits, a point, `p` fraction digits. */
  function FormatUnsigned(a: nat, p: nat): (s: string)
    ensures |s| > p + 1 && IsDigit(s[0])
    ensures s[|s| - p - 1] == '.' && AllDigits(s[|s| - p..]) && AllDigits(s[..|s| - p - 1])
  {
    var w, f := Digits(Whole(a, p)), FractionDigits(a, p);
    var s := w + "." + f;
    assert s[|s| - p..] == f && s[..|s| - p - 1] == w;
    s
  }

  /** The first position of `c` in `s`, if any. */
  function IndexOf(s: string, c: char): (r: Option<nat>)
    ensures r.Some? ==> r.value < |s| && s[r.value] == c
    ensures r.Some? ==> forall i :: 0 <= i < r.value ==> s[i] != c
    ensures r.None? ==> forall i :: 0 <= i < |s| ==> s[i] != c
  {
    if |s| == 0 then None
    else if s[0] == c then Some(0)
    else match IndexOf(s[1..], c)
      case None => None
      case Some(k) => Some(k + 1)
  }

  /**
    Reads a fixed-point numeral with exactly `p` decimal places: an optional
    minus sign, at least one digit, a point and `p` digits. Anything else is `None`.
   */
  function ParseFixed(s: string, p: nat): (r: Option<int>)
  {
    if |s| > 0 && s[0] == '-' then
      match ParseUnsigned(s[1..], p)
      case None => None
      case Some(a) => Some(-a)
    else ParseUnsigned(s, p)
  }

  /** The fixed-point value with whole part `w` and `p`-digit fraction `f`. */
  function Compose(w: nat, f: nat, p: nat): nat {
    w * Pow10(p) + f
  }

  /** Reads `digits "." digits` with exactly `p` digits after the point. */
  function ParseUnsigned(s: string, p: nat): (r: Option<int>)
    ensures r.Some? ==> r.value >= 0
  {
    match IndexOf(s, '.')
    case None => None
    case Some(k) =>
      var whole := s[..k];
      var frac := s[k + 1..];
      if |whole| >= 1 && AllDigits(whole) && AllDigits(frac) && |frac| == p then
        Some(Compose(ValueOf(whole), ValueOf(frac), p))
      else None
  }

  /** Parsing a rendered fixed-point value gives the value back. */
  lemma FixedRoundTrip(v: int, p: nat)
    ensures ParseFixed(FormatFixed(v, p), p) == Some(v)
  {
    UnsignedRoundTrip(Abs(v), p);
    ParseSigned(v < 0, FormatUnsigned(Abs(v), p), p, Abs(v));
  }

  /** An optional minus sign in front of an unsigned numeral negates its value. */
  lemma ParseSigned(negative: bool, body: string, p: nat, a: nat)
    requires |body| > 0 && IsDigit(body[0])
    requires ParseUnsigned(body, p) == Some(a)
    ensures ParseFixed(Sign(negative) + body, p) == Some(if negative then -(a as int) else a)
  {
    if negative {
      assert (Sign(negative) + body)[1..] == body;
    } else {
      assert Sign(negative) + body == body;
    }
  }

  lemma UnsignedRoundTrip(a: nat, p: nat)
    ensures ParseUnsigned(FormatUnsigned(a, p), p) == Some(a)
  {
    ValueOfDigits(Whole(a, p));
    ParseUnsignedBody(Digits(Whole(a, p)), FractionDigits(a, p), p);
  }

  lemma ParseUnsignedBody(whole: string, frac: string, p: nat)
    requires |whole| >= 1 && AllDigits(whole) && AllDigits(frac) && |frac| == p
    ensures ParseUnsigned(whole + "." + frac, p) == Some(Compose(ValueOf(whole), ValueOf(frac), p))
  {
    var body := whole + "." + frac;
    IndexAfterDigits(whole, "." + frac);
    assert body == whole + ("." + frac);
    assert IndexOf(body, '.') == Some(|whole|);
    var w := body[..|whole|];
    var f := body[|whole| + 1..];
    assert w == whole;
    assert f == frac;
  }

  lemma {:induction false} IndexAfterDigits(d: string, rest: string)
    requires AllDigits(d)
    requires |rest| > 0 && rest[0] == '.'
    ensures IndexOf(d + rest, '.') == Some(|d|)
    decreases |d|
  {
    if |d| > 0 {
      assert (d + rest)[1..] == d[1..] + rest;
      IndexAfterDigits(d[1..], rest);
    }
  }
}
