/** Decimal text of integers, as C# string interpolation `$"{n}"` renders an
    `int`: an optional minus sign, then digits without leading zeros. The
    program uses it for the window number in topics and for the percentage
    payload; `ParseInt` is the reading a subscriber applies to that text. */
module Decimal {
  import opened Velux

  predicate IsDigit(c: char) {
    '0' <= c <= '9'
  }

  predicate IsDigits(s: string) {
    forall i :: 0 <= i < |s| ==> IsDigit(s[i])
  }

  function DigitChar(d: nat): (c: char)
    requires d < 10
    ensures IsDigit(c) && DigitValue(c) == d
  {
    (('0' as int) + d) as char
  }

  function DigitValue(c: char): (d: nat)
    requires IsDigit(c)
    ensures d < 10
  {
    (c as int) - ('0' as int)
  }

  /** Digits of `n`, most significant first, with no leading zero. */
  function NatToText(n: nat): (s: string)
    ensures |s| > 0 && IsDigits(s)
    ensures s[0] == '0' ==> n == 0 && |s| == 1
    decreases n
  {
    if n < 10 then [DigitChar(n)] else NatToText(n / 10) + [DigitChar(n % 10)]
  }

  function IntToText(i: int): (s: string)
    ensures |s| > 0
  {
    if i < 0 then "-" + NatToText(-i) else NatToText(i)
  }

  function ParseDigits(s: string): nat
    requires IsDigits(s)
  {
    if s == [] then 0 else ParseDigits(s[..|s| - 1]) * 10 + DigitValue(s[|s| - 1])
  }

  function ParseInt(s: string): Option<int> {
    if |s| > 1 && s[0] == '-' && IsDigits(s[1..]) then Some(0 - ParseDigits(s[1..]) as int)
    else if |s| > 0 && IsDigits(s) then Some(ParseDigits(s) as int)
    else None
  }

  lemma {:induction false} NatRoundTrip(n: nat)
    ensures ParseDigits(NatToText(n)) == n
    decreases n
  {
    var s := NatToText(n);
    if n >= 10 {
      NatRoundTrip(n / 10);
      assert s[..|s| - 1] == NatToText(n / 10);
    }
  }

  lemma NegativeRoundTrip(n: nat)
    requires n > 0
    ensures ParseInt("-" + NatToText(n)) == Some(0 - n as int)
  {
    var d := NatToText(n);
    var s := "-" + d;
    assert s[1..] == d;
    NatRoundTrip(n);
  }

  /** Reading back the published text gives the number that was published. */
  lemma IntRoundTrip(i: int)
    ensures ParseInt(IntToText(i)) == Some(i)
  {
    if i < 0 {
      NegativeRoundTrip(-i);
    } else {
      NatRoundTrip(i);
    }
  }

  /** Different numbers are never rendered as the same text. */
  lemma IntToTextInjective(i: int, j: int)
    ensures IntToText(i) == IntToText(j) <==> i == j
  {
    IntRoundTrip(i);
    IntRoundTrip(j);
  }

  /** A number from 0 to 9 is rendered as its single digit. */
  lemma SingleDigit(d: nat)
    requires d < 10
    ensures IntToText(d) == [DigitChar(d)]
  {
  }
}
