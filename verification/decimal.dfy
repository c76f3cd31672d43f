/**
 * Decimal text of integers, as Python's f-string `{n}` writes it: an optional
 * minus sign followed by the digits, without leading zeros. A reader for that
 * text is the partner of the writer.
 */
module Decimal {

  /** The outcome of a reader: nothing, or the value read. */
  datatype Option<+T> = None | Some(value: T)

  predicate IsDigit(ch: char) {
    '0' <= ch <= '9'
  }

  predicate AllDigits(s: string) {
    forall i :: 0 <= i < |s| ==> IsDigit(s[i])
  }

  /** The character for digit d. */
  function DigitChar(d: int): (ch: char)
    requires 0 <= d < 10
    ensures IsDigit(ch)
  {
    ((d + '0' as int) as char)
  }

  /** The value of digit character ch. */
  function DigitValue(ch: char): (d: int)
    requires IsDigit(ch)
    ensures 0 <= d < 10
  {
    ch as int - '0' as int
  }

  /** The decimal digits of n, most significant first. */
  function ShowNat(n: nat): (s: string)
    ensures |s| >= 1 && AllDigits(s)
    ensures s[0] == '0' <==> n == 0
    decreases n
  {
    if n < 10 then [DigitChar(n)] else ShowNat(n / 10) + [DigitChar(n % 10)]
  }

  /** The text Python writes for the integer n. */
  function Show(n: int): (s: string)
    ensures |s| >= 1
    ensures s[0] == '-' <==> n < 0
  {
    if n < 0 then "-" + ShowNat(-n) else ShowNat(n)
  }

  /** The text of n is digits, after a minus sign for a negative n. */
  lemma ShowChars(n: int)
    ensures forall i :: 0 <= i < |Show(n)| ==> IsDigit(Show(n)[i]) || (i == 0 && n < 0)
  {
  }

  /** The value of a string of digits, most significant first; 0 for the empty string. */
  function DigitsValue(s: string): (n: nat)
    requires AllDigits(s)
    decreases |s|
  {
    if |s| == 0 then 0 else DigitsValue(s[..|s| - 1]) * 10 + DigitValue(s[|s| - 1])
  }

  /** Reads an integer: an optional minus sign, then at least one digit, and nothing else. */
  function ParseInt(s: string): (r: Option<int>)
    ensures r.Some? <==> (|s| >= 1 && AllDigits(s)) || (|s| >= 2 && s[0] == '-' && AllDigits(s[1..]))
    ensures r.Some? && s[0] != '-' ==> r.value >= 0
    ensures r.Some? && s[0] == '-' ==> r.value <= 0
  {
    if |s| >= 2 && s[0] == '-' && AllDigits(s[1..]) then
      Some(0 - DigitsValue(s[1..]) as int)
    else if |s| >= 1 && AllDigits(s) then
      Some(DigitsValue(s) as int)
    else
      None
  }

  /** Reading the digits of n gives back n. */
  lemma {:induction false} ShowNatRoundTrip(n: nat)
    ensures DigitsValue(ShowNat(n)) == n
    decreases n
  {
    if n >= 10 {
      var s := ShowNat(n);
      ShowNatRoundTrip(n / 10);
      assert s[..|s| - 1] == ShowNat(n / 10);
      assert DigitValue(s[|s| - 1]) == n % 10;
    }
  }

  /** Reading the text Python writes for n gives back n. */
  lemma ShowRoundTrip(n: int)
    ensures ParseInt(Show(n)) == Some(n)
  {
    if n < 0 {
      NegativeRoundTrip(n);
    } else {
      NonNegativeRoundTrip(n);
    }
  }

  /** A negative number is written as a minus sign and its digits, and read back. */
  lemma NegativeRoundTrip(n: int)
    requires n < 0
    ensures ParseInt(Show(n)) == Some(n)
  {
    var d := ShowNat(-n);
    assert Show(n) == "-" + d;
    ShowNatRoundTrip(-n);
    assert DigitsValue(d) == -n;
    MinusDigits(d);
  }

  /** A non-negative number is written as its digits alone, and read back. */
  lemma NonNegativeRoundTrip(n: int)
    requires n >= 0
    ensures ParseInt(Show(n)) == Some(n)
  {
    var s := Show(n);
    assert IsDigit(s[0]);
    ShowNatRoundTrip(n);
    assert ParseInt(s) == Some(DigitsValue(s) as int);
  }

  /** A minus sign followed by digits reads as the negated value of the digits. */
  lemma MinusDigits(d: string)
    requires |d| >= 1 && AllDigits(d)
    ensures ParseInt("-" + d) == Some(0 - DigitsValue(d) as int)
  {
    assert ("-" + d)[1..] == d;
  }
}
