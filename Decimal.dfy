/** Decimal numerals: the text that JavaScript's template literals produce
    for an integer (`${n}`), fixed-width zero-padded digit groups as they
    appear in a `YYYY-MM-DD` date, and the parsers that read them back. */
module Decimal {
  import opened Wrappers

  predicate IsDigit(c: char) {
    '0' <= c <= '9'
  }

  function DigitChar(d: nat): (c: char)
    requires d < 10
    ensures IsDigit(c)
  {
    ('0' as int + d) as char
  }

  function DigitValue(c: char): (d: nat)
    requires IsDigit(c)
    ensures d < 10
    ensures DigitChar(d) == c
  {
    c as int - '0' as int
  }

  lemma DigitValueOfChar(d: nat)
    requires d < 10
    ensures DigitValue(DigitChar(d)) == d
  {
  }

  predicate AllDigits(s: string) {
    forall i :: 0 <= i < |s| ==> IsDigit(s[i])
  }

  /** A canonical numeral: at least one digit, digits only, and no leading
      zero unless the numeral is "0" itself. */
  predicate IsNumeral(s: string) {
    |s| > 0 && AllDigits(s) && (s[0] == '0' ==> |s| == 1)
  }

  function Pow10(w: nat): (p: nat)
    ensures p >= 1
  {
    if w == 0 then 1 else 10 * Pow10(w - 1)
  }

  /** The number a string of digits denotes, most significant digit first. */
  function DigitsValue(s: string): (v: nat)
    requires AllDigits(s)
    ensures v < Pow10(|s|)
  {
    if s == [] then 0
    else 10 * DigitsValue(s[..|s| - 1]) + DigitValue(s[|s| - 1])
  }

  /** The decimal text of a natural number, as `${n}` renders it. */
  function NatToString(n: nat): (s: string)
    ensures IsNumeral(s)
  {
    if n < 10 then [DigitChar(n)]
    else NatToString(n / 10) + [DigitChar(n % 10)]
  }

  /** The decimal text of an integer, with a leading '-' when negative. */
  function IntToString(i: int): (s: string)
    ensures |s| > 0
    ensures (s[0] == '-') == (i < 0)
    ensures i >= 0 ==> IsNumeral(s)
    ensures i < 0 ==> IsNumeral(s[1..]) && s[1..] != "0"
  {
    if i < 0 then
      var tail := NatToString(-i);
      NatToStringOfPositive(-i);
      assert ("-" + tail)[1..] == tail;
      "-" + tail
    else NatToString(i)
  }

  lemma NatToStringOfPositive(n: nat)
    requires n > 0
    ensures NatToString(n) != "0"
  {
    if n >= 10 {
      assert |NatToString(n)| >= 2;
    }
  }

  lemma DigitsValueOfTwo(a: char, b: char)
    requires IsDigit(a) && IsDigit(b)
    ensures DigitsValue([a, b]) == 10 * DigitValue(a) + DigitValue(b)
  {
    assert [a, b][..1] == [a];
    assert [a][..0] == [];
  }

  lemma DigitsValueOfFour(a: char, b: char, c: char, d: char)
    requires IsDigit(a) && IsDigit(b) && IsDigit(c) && IsDigit(d)
    ensures DigitsValue([a, b, c, d])
         == 1000 * DigitValue(a) + 100 * DigitValue(b) + 10 * DigitValue(c) + DigitValue(d)
  {
    assert [a, b, c, d][..3] == [a, b, c];
    assert [a, b, c][..2] == [a, b];
    DigitsValueOfTwo(a, b);
  }

  function ParseNat(s: string): (r: Option<nat>)
    ensures r.Some? <==> IsNumeral(s)
  {
    if IsNumeral(s) then Some(DigitsValue(s)) else None
  }

  function ParseInt(s: string): (r: Option<int>)
  {
    if |s| > 0 && s[0] == '-' then
      match ParseNat(s[1..])
      case Some(n) => if n > 0 then Some(0 - n as int) else None
      case None => None
    else
      match ParseNat(s)
      case Some(n) => Some(n as int)
      case None => None
  }

  lemma {:induction false} DigitsValueOfNatToString(n: nat)
    ensures DigitsValue(NatToString(n)) == n
  {
    if n >= 10 {
      var s := NatToString(n);
      assert s[..|s| - 1] == NatToString(n / 10);
      DigitsValueOfNatToString(n / 10);
      DigitValueOfChar(n % 10);
    } else {
      DigitValueOfChar(n);
    }
  }

  lemma {:induction false} DigitsValueAtLeastLead(s: string)
    requires AllDigits(s) && |s| > 0
    ensures DigitsValue(s) >= DigitValue(s[0])
  {
    if |s| > 1 {
      DigitsValueAtLeastLead(s[..|s| - 1]);
    }
  }

  lemma {:induction false} NatToStringOfNumeral(s: string)
    requires IsNumeral(s)
    ensures NatToString(DigitsValue(s)) == s
  {
    if |s| > 1 {
      var p := s[..|s| - 1];
      var c := DigitValue(s[|s| - 1]);
      DigitsValueAtLeastLead(p);
      NatToStringOfNumeral(p);
      var n := DigitsValue(s);
      assert n == 10 * DigitsValue(p) + c;
      assert n / 10 == DigitsValue(p) && n % 10 == c;
      assert s == p + [s[|s| - 1]];
    }
  }

  /** Reading back is exactly the inverse of rendering: a string parses to
      n precisely when it is the canonical numeral of n. */
  lemma ParseNatIff(s: string, n: nat)
    ensures ParseNat(s) == Some(n) <==> s == NatToString(n)
  {
    if s == NatToString(n) {
      DigitsValueOfNatToString(n);
    }
    if ParseNat(s) == Some(n) {
      NatToStringOfNumeral(s);
    }
  }

  lemma ParseIntIff(s: string, i: int)
    ensures ParseInt(s) == Some(i) <==> s == IntToString(i)
  {
    if i < 0 {
      if s == IntToString(i) {
        assert s[1..] == NatToString(-i);
        ParseNatIff(s[1..], -i);
      }
      if ParseInt(s) == Some(i) {
        ParseNatIff(s[1..], -i);
        assert s == [s[0]] + s[1..];
      }
    } else {
      ParseNatIff(s, i);
      if ParseInt(s) == Some(i) && |s| > 0 && s[0] == '-' {
        assert false;
      }
    }
  }

  /** The last w decimal digits of n, zero-padded on the left. */
  function FixedWidth(n: nat, w: nat): (s: string)
    ensures |s| == w && AllDigits(s)
  {
    if w == 0 then [] else FixedWidth(n / 10, w - 1) + [DigitChar(n % 10)]
  }

  lemma {:induction false} DigitsValueOfFixedWidth(n: nat, w: nat)
    requires n < Pow10(w)
    ensures DigitsValue(FixedWidth(n, w)) == n
  {
    if w > 0 {
      var s := FixedWidth(n, w);
      assert s[..|s| - 1] == FixedWidth(n / 10, w - 1);
      DigitsValueOfFixedWidth(n / 10, w - 1);
      DigitValueOfChar(n % 10);
    }
  }

  lemma {:induction false} FixedWidthOfDigits(s: string)
    requires AllDigits(s)
    ensures FixedWidth(DigitsValue(s), |s|) == s
  {
    if |s| > 0 {
      var p := s[..|s| - 1];
      var n := DigitsValue(s);
      FixedWidthOfDigits(p);
      assert n / 10 == DigitsValue(p) && n % 10 == DigitValue(s[|s| - 1]);
      assert s == p + [s[|s| - 1]];
    }
  }
}
