/**
 * Decimal rendering of integers as Go's `%d` verb does it: an optional minus
 * sign followed by the digits of the magnitude, without leading zeros.
 * `Parse` is the partner used to state that the rendering loses nothing.
 */
module Decimal {
  import opened Wrappers

  predicate IsDigit(c: char) {
    '0' <= c <= '9'
  }

  predicate AllDigits(s: string) {
    forall i :: 0 <= i < |s| ==> IsDigit(s[i])
  }

  /** Digits as `%d` writes them: at least one, and no leading zero unless the number is zero. */
  predicate Canonical(s: string) {
    0 < |s| && AllDigits(s) && (s[0] == '0' ==> |s| == 1)
  }

  function DigitChar(d: nat): (c: char)
    requires d < 10
    ensures IsDigit(c)
  {
    ('0' as int + d) as char
  }

  function DigitValue(c: char): (d: nat)
    requires IsDigit(c)
    ensures d < 10
    ensures DigitChar(d) == c
  {
    c as int - '0' as int
  }

  /** The digits of `n`, most significant first. */
  function NatDigits(n: nat): (s: string)
    ensures 0 < |s|
    ensures AllDigits(s)
    ensures n < 10 <==> |s| == 1
    ensures s[0] == '0' ==> n == 0
    decreases n
  {
    if n < 10 then [DigitChar(n)] else NatDigits(n / 10) + [DigitChar(n % 10)]
  }

  /** `fmt.Sprintf("%d", n)`. */
  function Format(n: int): (s: string)
    ensures 0 < |s|
    ensures 0 <= n ==> Canonical(s)
    ensures n < 0 ==> 1 < |s| && s[0] == '-' && Canonical(s[1..]) && s[1] != '0'
    ensures forall i :: 0 <= i < |s| ==> s[i] != ':'
  {
    if n < 0 then "-" + NatDigits(-n) else NatDigits(n)
  }

  /** The number a string of digits denotes. */
  function DigitsValue(s: string): nat
    requires AllDigits(s)
    decreases |s|
  {
    if |s| == 0 then 0 else 10 * DigitsValue(s[..|s| - 1]) + DigitValue(s[|s| - 1])
  }

  /**
   * Reads back exactly the texts `Format` writes: canonical digits, or a
   * minus sign followed by canonical digits of a non-zero number.
   */
  function Parse(s: string): Option<int> {
    if Canonical(s) then Some(DigitsValue(s))
    else if 1 < |s| && s[0] == '-' && Canonical(s[1..]) && s[1] != '0' then Some(-(DigitsValue(s[1..]) as int))
    else None
  }

  /** Digits that do not start with '0' denote a positive number. */
  lemma {:induction false} DigitsValuePositive(s: string)
    requires 0 < |s| && AllDigits(s) && s[0] != '0'
    ensures 0 < DigitsValue(s)
    decreases |s|
  {
    if 1 < |s| {
      DigitsValuePositive(s[..|s| - 1]);
    }
  }

  /** The digits of the number that canonical digits denote are those digits. */
  lemma {:induction false} NatDigitsOfDigitsValue(s: string)
    requires Canonical(s)
    ensures NatDigits(DigitsValue(s)) == s
    decreases |s|
  {
    var v := DigitsValue(s);
    var last := s[|s| - 1];
    if |s| == 1 {
      assert DigitChar(DigitValue(last)) == last;
    } else {
      var init := s[..|s| - 1];
      DigitsValuePositive(init);
      NatDigitsOfDigitsValue(init);
      assert v / 10 == DigitsValue(init) && v % 10 == DigitValue(last);
      assert s == init + [last];
    }
  }

  lemma {:induction false} DigitsValueOfNatDigits(n: nat)
    ensures DigitsValue(NatDigits(n)) == n
    decreases n
  {
    if 10 <= n {
      var s := NatDigits(n);
      assert s[..|s| - 1] == NatDigits(n / 10);
      DigitsValueOfNatDigits(n / 10);
    }
  }

  /** Rendering then reading back gives the original integer. */
  lemma ParseFormat(n: int)
    ensures Parse(Format(n)) == Some(n)
  {
    var s := Format(n);
    if n < 0 {
      assert s[1..] == NatDigits(-n);
      assert !IsDigit(s[0]);
      DigitsValueOfNatDigits(-n);
    } else {
      DigitsValueOfNatDigits(n);
    }
  }

  /** Reading a text and rendering the number gives the text back. */
  lemma FormatParse(s: string)
    ensures Parse(s).Some? ==> Format(Parse(s).value) == s
  {
    if Canonical(s) {
      NatDigitsOfDigitsValue(s);
    } else if 1 < |s| && s[0] == '-' && Canonical(s[1..]) && s[1] != '0' {
      DigitsValuePositive(s[1..]);
      NatDigitsOfDigitsValue(s[1..]);
      assert s == "-" + s[1..];
    }
  }

  /** Distinct integers render differently. */
  lemma FormatInjective(a: int, b: int)
    ensures Format(a) == Format(b) <==> a == b
  {
    ParseFormat(a);
    ParseFormat(b);
  }
}
