/**
 * Decimal rendering of non-negative integers, as JavaScript's
 * `Number.prototype.toString()` and `String.prototype.padStart` produce it,
 * and the decimal reading (`parseInt`) that inverts it.
 */
module Digits {
  import opened Wrappers

  predicate IsDigit(c: char) {
    '0' <= c <= '9'
  }

  predicate IsDigits(s: string) {
    forall i :: 0 <= i < |s| ==> IsDigit(s[i])
  }

  function DigitValue(c: char): (d: nat)
    requires IsDigit(c)
    ensures d < 10
  {
    (c as int) - ('0' as int)
  }

  function DigitChar(d: nat): (c: char)
    requires d < 10
    ensures IsDigit(c) && DigitValue(c) == d
  {
    (('0' as int) + d) as char
  }

  function Pow10(k: nat): (p: nat)
    ensures p >= 1
  {
    if k == 0 then 1 else 10 * Pow10(k - 1)
  }

  /** `n.toString()`: the shortest decimal numeral of n. */
  function NatToString(n: nat): (r: string)
    ensures |r| >= 1 && IsDigits(r)
    ensures (r[0] == '0') <==> (n == 0)
    ensures n < 10 ==> |r| == 1
    ensures |r| <= 2 <==> n < 100
    decreases n
  {
    if n < 10 then [DigitChar(n)]
    else NatToString(n / 10) + [DigitChar(n % 10)]
  }

  /** The value of a numeral (`parseInt` on a string of decimal digits). */
  function ParseDecimal(s: string): nat
    requires IsDigits(s)
    decreases |s|
  {
    if s == [] then 0
    else ParseDecimal(s[..|s| - 1]) * 10 + DigitValue(s[|s| - 1])
  }

  /** `s.padStart(width, fill)` for a one-character fill. */
  function PadStart(s: string, width: nat, fill: char): (r: string)
    ensures |r| == if |s| >= width then |s| else width
    ensures r[|r| - |s|..] == s
    ensures forall i :: 0 <= i < |r| - |s| ==> r[i] == fill
  {
    if |s| >= width then s else seq(width - |s|, _ => fill) + s
  }

  function Zeros(k: nat): (z: string)
    ensures |z| == k && IsDigits(z)
  {
    seq(k, _ => '0')
  }

  /** `n.toString().padStart(2, '0')`. */
  function Pad2(n: nat): string {
    PadStart(NatToString(n), 2, '0')
  }

  /** The first position of c in s, if any. */
  function IndexOf(s: string, c: char): (r: Option<nat>)
    ensures r.Some? ==> r.value < |s| && s[r.value] == c && c !in s[..r.value]
    ensures r.None? ==> c !in s
  {
    if s == [] then None
    else if s[0] == c then Some(0)
    else match IndexOf(s[1..], c)
      case None => None
      case Some(i) => Some(i + 1)
  }

  lemma {:induction false} ParseOfNatToString(n: nat)
    ensures ParseDecimal(NatToString(n)) == n
    decreases n
  {
    if n >= 10 {
      var p := NatToString(n / 10);
      var r := p + [DigitChar(n % 10)];
      ParseOfNatToString(n / 10);
      assert r[..|r| - 1] == p;
    }
  }

  /** Reading a concatenation: the left numeral is shifted by the length of the right one. */
  lemma {:induction false} ParseAppend(a: string, b: string)
    requires IsDigits(a) && IsDigits(b)
    ensures ParseDecimal(a + b) == ParseDecimal(a) * Pow10(|b|) + ParseDecimal(b)
    decreases |b|
  {
    if b == [] {
      assert a + b == a;
    } else {
      var b' := b[..|b| - 1];
      var ab := a + b;
      assert ab[..|ab| - 1] == a + b';
      assert ab[|ab| - 1] == b[|b| - 1];
      ParseAppend(a, b');
      var pa, pb', p := ParseDecimal(a), ParseDecimal(b'), Pow10(|b'|);
      var d := DigitValue(b[|b| - 1]);
      assert Pow10(|b|) == 10 * p;
      assert ParseDecimal(ab) == ParseDecimal(a + b') * 10 + d;
      ShiftOneDigit(pa, p, pb', d);
    }
  }

  lemma ShiftOneDigit(x: int, p: int, y: int, d: int)
    ensures (x * p + y) * 10 + d == x * (10 * p) + (y * 10 + d)
  {
    assert (x * p) * 10 == x * (10 * p);
  }

  /** A numeral of k digits is below 10^k. */
  lemma {:induction false} ParseBound(s: string)
    requires IsDigits(s)
    ensures ParseDecimal(s) < Pow10(|s|)
    decreases |s|
  {
    if s != [] {
      ParseBound(s[..|s| - 1]);
    }
  }

  /**
   * `parseInt` on a string of digits, stated by value: below 10^k for k
   * digits, the last digit is the units, and the rest is the number of tens.
   */
  lemma ParseDecimalSpec(s: string)
    requires IsDigits(s)
    ensures ParseDecimal(s) < Pow10(|s|)
    ensures s != [] ==> ParseDecimal(s) % 10 == DigitValue(s[|s| - 1])
    ensures s != [] ==> ParseDecimal(s) / 10 == ParseDecimal(s[..|s| - 1])
  {
    ParseBound(s);
  }

  lemma {:induction false} ParseOfZeros(k: nat)
    ensures ParseDecimal(Zeros(k)) == 0
  {
    if k > 0 {
      assert Zeros(k)[..k - 1] == Zeros(k - 1);
      ParseOfZeros(k - 1);
    }
  }

  /** Leading zeros do not change the value of a numeral. */
  lemma ParseLeadingZeros(k: nat, s: string)
    requires IsDigits(s)
    ensures IsDigits(Zeros(k) + s)
    ensures ParseDecimal(Zeros(k) + s) == ParseDecimal(s)
  {
    ParseAppend(Zeros(k), s);
    ParseOfZeros(k);
  }

  lemma PadStartZeros(s: string, width: nat)
    ensures PadStart(s, width, '0') == Zeros(if |s| >= width then 0 else width - |s|) + s
  {
  }

  /** `n.toString().padStart(2, '0')` is a numeral of n with at least two digits. */
  lemma Pad2Numeral(n: nat)
    ensures IsDigits(Pad2(n)) && |Pad2(n)| >= 2
    ensures ParseDecimal(Pad2(n)) == n
  {
    var t := NatToString(n);
    PadStartZeros(t, 2);
    ParseLeadingZeros(if |t| >= 2 then 0 else 2 - |t|, t);
    ParseOfNatToString(n);
  }

  /** It is exactly two characters wide when n < 100, and then it is the tens digit and the units digit. */
  lemma Pad2TwoDigits(n: nat)
    ensures |Pad2(n)| == 2 <==> n < 100
    ensures n < 100 ==> Pad2(n) == [DigitChar(n / 10), DigitChar(n % 10)]
  {
    if n < 10 {
      Pad2OneDigit(n);
      assert n / 10 == 0 && n % 10 == n;
      assert DigitChar(0) == '0';
    } else if n < 100 {
      Pad2OfTwoDigits(n);
    } else {
      assert |NatToString(n)| > 2;
    }
  }

  lemma Pad2OneDigit(n: nat)
    requires n < 10
    ensures Pad2(n) == ['0', DigitChar(n)]
  {
    var t := NatToString(n);
    assert t == [DigitChar(n)];
    assert PadStart(t, 2, '0') == seq(1, _ => '0') + t;
  }

  lemma Pad2OfTwoDigits(n: nat)
    requires 10 <= n < 100
    ensures Pad2(n) == [DigitChar(n / 10), DigitChar(n % 10)]
  {
    var t := NatToString(n);
    assert n / 10 < 10;
    assert NatToString(n / 10) == [DigitChar(n / 10)];
    assert t == [DigitChar(n / 10)] + [DigitChar(n % 10)];
  }

  lemma Pad2Zero()
    ensures Pad2(0) == "00"
  {
    Pad2TwoDigits(0);
    assert DigitChar(0) == '0';
  }

  /** The first colon after a numeral is the one that follows it. */
  lemma IndexOfColonAfterDigits(a: string, b: string)
    requires IsDigits(a)
    ensures IndexOf(a + [':'] + b, ':') == Some(|a|)
  {
    var s := a + [':'] + b;
    assert s[|a|] == ':';
    assert ':' in s;
    assert forall i :: 0 <= i < |a| ==> s[i] != ':';
    assert forall k :: |a| < k <= |s| ==> s[..k][|a|] == ':';
  }
}
