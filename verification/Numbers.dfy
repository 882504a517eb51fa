/** Positive numbers as JavaScript prints them (Number::toString, section 6.1.6.1.20 of ECMA-262), and back. */
module Numbers {
  import opened Wrappers
  import opened Text

  /**
   The number 0.d1d2...dk * 10^point, where d1...dk are the decimal digits of `digits`. The shortest
   digits that identify a number never end in zero.
   */
  datatype NumRaw = Num(digits: nat, point: int)

  type Num = n: NumRaw | n.digits % 10 != 0 witness Num(1, 1)

  function Zeros(n: nat): (s: string)
    ensures |s| == n && forall c :: c in s ==> c == '0'
  {
    if n == 0 then "" else Zeros(n - 1) + "0"
  }

  function PrintExponent(e: int): string {
    if e < 0 then "-" + ToDecimal(-e) else "+" + ToDecimal(e)
  }

  function Print(n: Num): string {
    var d := ToDecimal(n.digits);
    var p := n.point;
    if |d| <= p <= 21 then d + Zeros(p - |d|)
    else if 0 < p <= 21 then d[..p] + ['.'] + d[p..]
    else if -6 < p <= 0 then "0" + ['.'] + (Zeros(-p) + d)
    else (if |d| == 1 then d else d[..1] + ['.'] + d[1..]) + ['e'] + PrintExponent(p - 1)
  }

  /** How many digits stand before the point decides the form: exponents from 22 on and from six zeros after the point on. */
  lemma PrintedFormExactly(n: Num)
    ensures 'e' in Print(n) <==> n.point > 21 || n.point <= -6
    ensures '.' in Print(n) <==>
              if n.point > 21 || n.point <= -6 then n.digits >= 10 else n.point < |ToDecimal(n.digits)|
  {
    var d, p := ToDecimal(n.digits), n.point;
    assert forall c :: c in d ==> '0' <= c <= '9';
    if 0 < p <= 21 && p < |d| {
      assert (d[..p] + ['.'] + d[p..])[p] == '.';
      assert forall i :: 0 <= i < |d| ==> d[i] in d;
    } else if p > 21 || p <= -6 {
      ScientificForm(n);
    } else if p <= 0 {
      assert ("0" + ['.'] + (Zeros(-p) + d))[1] == '.';
    }
  }

  lemma ScientificForm(n: Num)
    requires n.point > 21 || n.point <= -6
    ensures 'e' in Print(n) && ('.' in Print(n) <==> n.digits >= 10)
  {
    var d := ToDecimal(n.digits);
    var mantissa := if |d| == 1 then d else d[..1] + ['.'] + d[1..];
    var exponent := PrintExponent(n.point - 1);
    assert Print(n) == mantissa + ['e'] + exponent;
    assert Print(n)[|mantissa|] == 'e';
    assert |d| == 1 <==> n.digits < 10;
    forall i | 0 <= i < |d| ensures d[i] != '.' { assert d[i] in d; }
    if |d| > 1 { assert Print(n)[1] == '.'; }
  }

  // --- Reading a number ---

  /** What stands before the first `c`, and what stands after it if there is one. */
  function Cut(s: string, c: char): (string, Option<string>) {
    if s == [] then ("", None)
    else if s[0] == c then ("", Some(s[1..]))
    else
      var (before, after) := Cut(s[1..], c);
      ([s[0]] + before, after)
  }

  lemma {:induction false} CutThere(before: string, c: char, after: string)
    requires Free(before, c)
    ensures Cut(before + [c] + after, c) == (before, Some(after))
  {
    var s := before + [c] + after;
    if before == [] {
      assert s == [c] + after;
    } else {
      assert before[0] in before && s[1..] == before[1..] + [c] + after;
      CutThere(before[1..], c, after);
      assert before == [before[0]] + before[1..];
    }
  }

  lemma {:induction false} CutNowhere(s: string, c: char)
    requires Free(s, c)
    ensures Cut(s, c) == (s, None)
  {
    if s == [] {
    } else {
      assert s[0] in s && s == [s[0]] + s[1..];
      CutNowhere(s[1..], c);
    }
  }

  function ParseExponent(s: string): Option<int> {
    if s == [] then None
    else
      var e := FromDecimal(s[1..]);
      if e.None? then None else Some(if s[0] == '-' then -(e.value as int) else e.value)
  }

  lemma ExponentRoundTrip(e: int)
    ensures ParseExponent(PrintExponent(e)) == Some(e)
  {
    DecimalRoundTrip(if e < 0 then -e else e);
    assert PrintExponent(e)[1..] == ToDecimal(if e < 0 then -e else e);
  }

  /** The number v * 10^e. */
  function Normal(v: nat, e: int): Num
    requires v > 0
  {
    if v % 10 == 0 then Normal(v / 10, e + 1) else Num(v, e + |ToDecimal(v)|)
  }

  /** A mantissa with or without a point. */
  function ParseMantissa(m: string, e: int): Option<Num> {
    var (whole, fraction) := Cut(m, '.');
    var f := fraction.GetOr("");
    var v := FromDecimal(whole + f);
    if v.None? || v.value == 0 then None else Some(Normal(v.value, e - |f|))
  }

  function Parse(s: string): Option<Num> {
    var (mantissa, exponent) := Cut(s, 'e');
    if exponent.None? then ParseMantissa(mantissa, 0)
    else
      var e := ParseExponent(exponent.value);
      if e.None? then None else ParseMantissa(mantissa, e.value)
  }

  // --- Zeros on either side ---

  lemma OneTrailingZero(s: string, w: nat)
    requires FromDecimal(s) == Some(w)
    ensures FromDecimal(s + "0") == Some(10 * w)
  {
    assert (s + "0")[..|s|] == s;
  }

  lemma NormalTen(w: nat, e: int)
    requires w > 0
    ensures Normal(10 * w, e) == Normal(w, e + 1)
  {
    assert 10 * w % 10 == 0 && 10 * w / 10 == w;
  }

  /** Zeros after the digits only raise the exponent. */
  lemma {:induction false} TrailingZeros(s: string, v: nat, j: nat, e: int) returns (w: nat)
    requires FromDecimal(s) == Some(v) && v > 0
    ensures FromDecimal(s + Zeros(j)) == Some(w) && w > 0 && Normal(w, e) == Normal(v, e + j)
  {
    if j == 0 {
      assert s + Zeros(0) == s;
      w := v;
    } else {
      var w' := TrailingZeros(s, v, j - 1, e + 1);
      OneTrailingZero(s + Zeros(j - 1), w');
      NormalTen(w', e);
      assert s + Zeros(j) == (s + Zeros(j - 1)) + "0";
      w := 10 * w';
    }
  }

  /** Zeros before the digits change nothing. */
  lemma {:induction false} LeadingZeros(j: nat, s: string, v: nat)
    requires FromDecimal(s) == Some(v)
    ensures FromDecimal(Zeros(j) + s) == Some(v)
  {
    var t, n := Zeros(j) + s, |s| - 1;
    assert t[..|t| - 1] == Zeros(j) + s[..n] && t[|t| - 1] == s[n];
    if n == 0 {
      assert Zeros(j) + s[..0] == Zeros(j);
      if j > 0 { AllZeros(j); }
    } else {
      LeadingZeros(j, s[..n], FromDecimal(s[..n]).value);
    }
  }

  lemma {:induction false} AllZeros(j: nat)
    requires j > 0
    ensures FromDecimal(Zeros(j)) == Some(0)
  {
    if j == 1 {
      assert Zeros(1) == "0";
    } else {
      AllZeros(j - 1);
      assert Zeros(j) == Zeros(j - 1) + "0";
      OneTrailingZero(Zeros(j - 1), 0);
    }
  }

  // --- The round trip ---

  predicate AllDigits(s: string) {
    forall c :: c in s ==> '0' <= c <= '9'
  }

  lemma DigitsFree(s: string, c: char)
    requires AllDigits(s) && !('0' <= c <= '9')
    ensures Free(s, c)
  {
  }

  lemma NormalDigits(n: Num, e: int)
    ensures Normal(n.digits, e) == Num(n.digits, e + |ToDecimal(n.digits)|)
  {
  }

  /** The digits of a number with a point among them. */
  lemma PointedMantissa(n: Num, whole: string, fraction: string, e: int)
    requires AllDigits(whole) && AllDigits(fraction) && FromDecimal(whole + fraction) == Some(n.digits)
    requires e - |fraction| + |ToDecimal(n.digits)| == n.point
    ensures ParseMantissa(whole + ['.'] + fraction, e) == Some(n) && Free(whole + ['.'] + fraction, 'e')
  {
    DigitsFree(whole, '.');
    CutThere(whole, '.', fraction);
    NormalDigits(n, e - |fraction|);
    DigitsFree(whole, 'e');
    DigitsFree(fraction, 'e');
  }

  lemma WholeMantissa(n: Num, zeros: nat, e: int)
    requires e + zeros + |ToDecimal(n.digits)| == n.point
    ensures var m := ToDecimal(n.digits) + Zeros(zeros); ParseMantissa(m, e) == Some(n) && Free(m, 'e')
  {
    var d := ToDecimal(n.digits);
    DecimalRoundTrip(n.digits);
    var w := TrailingZeros(d, n.digits, zeros, e);
    NormalDigits(n, e + zeros);
    DigitsFree(d + Zeros(zeros), '.');
    DigitsFree(d + Zeros(zeros), 'e');
    CutNowhere(d + Zeros(zeros), '.');
    assert d + Zeros(zeros) + "" == d + Zeros(zeros);
  }

  lemma PlainNumber(s: string)
    requires Free(s, 'e')
    ensures Parse(s) == ParseMantissa(s, 0)
  {
    CutNowhere(s, 'e');
  }

  lemma ScientificNumber(mantissa: string, e: int)
    requires Free(mantissa, 'e')
    ensures Parse(mantissa + ['e'] + PrintExponent(e)) == ParseMantissa(mantissa, e)
  {
    CutThere(mantissa, 'e', PrintExponent(e));
    ExponentRoundTrip(e);
  }

  lemma SplitDigits(n: Num, p: nat)
    requires p <= |ToDecimal(n.digits)|
    ensures var d := ToDecimal(n.digits);
            AllDigits(d[..p]) && AllDigits(d[p..]) && FromDecimal(d[..p] + d[p..]) == Some(n.digits)
  {
    DecimalRoundTrip(n.digits);
    var d := ToDecimal(n.digits);
    assert d[..p] + d[p..] == d;
    SlicesInside(d, p);
  }

  lemma SlicesInside(s: string, p: nat)
    requires AllDigits(s) && p <= |s|
    ensures AllDigits(s[..p]) && AllDigits(s[p..])
  {
    forall c | c in s[..p] ensures c in s {
    }
    forall c | c in s[p..] ensures c in s {
    }
  }

  lemma SmallRoundTrip(n: Num)
    requires -6 < n.point <= 0
    ensures Parse(Print(n)) == Some(n)
  {
    var d, p := ToDecimal(n.digits), n.point;
    DecimalRoundTrip(n.digits);
    ZeroPoint(-p, d, n.digits);
    PointedMantissa(n, "0", Zeros(-p) + d, 0);
    PlainNumber(Print(n));
  }

  lemma ZeroPoint(j: nat, s: string, v: nat)
    requires AllDigits(s) && FromDecimal(s) == Some(v)
    ensures AllDigits("0") && AllDigits(Zeros(j) + s) && FromDecimal("0" + (Zeros(j) + s)) == Some(v)
  {
    LeadingZeros(j + 1, s, v);
    OneMoreZero(j);
    assert "0" + (Zeros(j) + s) == ("0" + Zeros(j)) + s;
  }

  lemma ScientificRoundTrip(n: Num)
    requires n.point <= -6 || 21 < n.point
    ensures Parse(Print(n)) == Some(n)
  {
    var d, e := ToDecimal(n.digits), n.point - 1;
    if |d| == 1 {
      WholeMantissa(n, 0, e);
      assert d + Zeros(0) == d;
      ScientificNumber(d, e);
    } else {
      SplitDigits(n, 1);
      PointedMantissa(n, d[..1], d[1..], e);
      ScientificNumber(d[..1] + ['.'] + d[1..], e);
    }
  }

  /** Every number is recovered from what JavaScript prints for it. */
  lemma PrintRoundTrip(n: Num)
    ensures Parse(Print(n)) == Some(n)
  {
    var d, p := ToDecimal(n.digits), n.point;
    if 0 < p <= 21 {
      if |d| <= p {
        WholeMantissa(n, p - |d|, 0);
      } else {
        SplitDigits(n, p);
        PointedMantissa(n, d[..p], d[p..], 0);
      }
      PlainNumber(Print(n));
    } else if -6 < p <= 0 {
      SmallRoundTrip(n);
    } else {
      ScientificRoundTrip(n);
    }
  }

  lemma {:induction false} OneMoreZero(j: nat)
    ensures "0" + Zeros(j) == Zeros(j + 1)
  {
    if j == 0 {
    } else {
      OneMoreZero(j - 1);
      assert "0" + (Zeros(j - 1) + "0") == ("0" + Zeros(j - 1)) + "0";
    }
  }

  /** A printed number holds no colon. */
  lemma PrintWithoutColon(n: Num)
    ensures Free(Print(n), ':')
  {
    DigitsFree(ToDecimal(n.digits), ':');
  }
}
