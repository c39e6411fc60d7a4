/**
 * The text that the dispatch loop sends to the keyboard for a pin id:
 * the decimal rendering of a signed integer (no leading zeros, a leading
 * '-' for negative values), together with a reader for that text, so that
 * the rendering can be shown to lose no information.
 */
module DecimalText {
  import opened Wrappers

  predicate IsDigit(ch: char) {
    '0' <= ch <= '9'
  }

  predicate AllDigits(s: string) {
    forall i :: 0 <= i < |s| ==> IsDigit(s[i])
  }

  function DigitValue(ch: char): (d: nat)
    requires IsDigit(ch)
    ensures d < 10
  {
    ch as int - '0' as int
  }

  function Digit(d: nat): (ch: char)
    requires d < 10
    ensures IsDigit(ch) && DigitValue(ch) == d
  {
    ('0' as int + d) as char
  }

  /** The decimal digits of `n`, most significant first. */
  function NatText(n: nat): (s: string)
    ensures |s| >= 1 && AllDigits(s)
    ensures s[0] == '0' ==> n == 0
    decreases n
  {
    if n < 10 then [Digit(n)] else NatText(n / 10) + [Digit(n % 10)]
  }

  /** The text of `n` as an integer's `to_string` renders it. */
  function Text(n: int): (s: string)
    ensures |s| >= 1
    ensures s[0] == '-' <==> n < 0
  {
    if n < 0 then "-" + NatText(-n) else NatText(n)
  }

  /** The value of a string of decimal digits, most significant first. */
  function DigitsValue(s: string): nat
    requires AllDigits(s)
    decreases |s|
  {
    if s == [] then 0 else DigitsValue(s[..|s| - 1]) * 10 + DigitValue(s[|s| - 1])
  }

  /** Reads an optionally negative decimal integer; anything else is rejected. */
  function Parse(s: string): Option<int> {
    if |s| > 1 && s[0] == '-' && AllDigits(s[1..]) then Some(-(DigitsValue(s[1..]) as int))
    else if |s| > 0 && AllDigits(s) then Some(DigitsValue(s))
    else None
  }

  lemma {:induction false} NatTextValue(n: nat)
    ensures DigitsValue(NatText(n)) == n
    decreases n
  {
    if n >= 10 {
      var s := NatText(n / 10);
      NatTextValue(n / 10);
      assert (s + [Digit(n % 10)])[..|s|] == s;
    }
  }

  /** Reading back the text of any integer gives that integer. */
  lemma TextRoundTrip(n: int)
    ensures Parse(Text(n)) == Some(n)
  {
    if n < 0 {
      NatTextValue(-n);
      assert Text(n)[1..] == NatText(-n);
    } else {
      NatTextValue(n);
    }
  }

  /** Distinct pins are written as distinct texts. */
  lemma TextInjective(m: int, n: int)
    ensures Text(m) == Text(n) ==> m == n
  {
    TextRoundTrip(m);
    TextRoundTrip(n);
  }

  /** The two registered pins are written as "12" and "13". */
  lemma PinTexts()
    ensures Text(12) == "12" && Text(13) == "13"
  {
  }
}
