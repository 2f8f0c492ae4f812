/**
  Base-10 rendering and reading of unsigned integers: the radix-10
  conversion that the 256-bit integer type performs for an address seed.
 */
module Decimal {

  predicate IsDigit(c: char)
  {
    '0' <= c <= '9'
  }

  predicate IsDigits(s: string)
  {
    forall i :: 0 <= i < |s| ==> IsDigit(s[i])
  }

  /** Non-empty digits with no leading zero, unless the number is zero itself. */
  predicate IsCanonical(s: string)
  {
    |s| >= 1 && IsDigits(s) && (s[0] == '0' ==> |s| == 1)
  }

  function DigitValue(c: char): (d: nat)
    requires IsDigit(c)
    ensures d < 10
  {
    c as int - '0' as int
  }

  function DigitChar(d: nat): (c: char)
    requires d < 10
    ensures IsDigit(c) && DigitValue(c) == d
  {
    ('0' as int + d) as char
  }

  /** The number a digit string denotes; leading zeros are allowed. */
  function Value(s: string): (n: nat)
    requires IsDigits(s)
  {
    if s == [] then 0 else Value(s[..|s| - 1]) * 10 + DigitValue(s[|s| - 1])
  }

  /** The canonical base-10 rendering of n ("0" for zero). */
  function Render(n: nat): (s: string)
    ensures IsCanonical(s) && Value(s) == n
    ensures s[0] == '0' <==> n == 0
  {
    if n < 10 then [DigitChar(n)]
    else
      var high := Render(n / 10);
      var s := high + [DigitChar(n % 10)];
      assert s[..|s| - 1] == high;
      s
  }

  /** A digit string with a non-zero first digit denotes a non-zero number. */
  lemma {:induction false} ValueLeadingNonZero(s: string)
    requires |s| >= 1 && IsDigits(s) && s[0] != '0'
    ensures Value(s) >= 1
  {
    if |s| > 1 {
      ValueLeadingNonZero(s[..|s| - 1]);
    }
  }

  /** Rendering is the inverse of reading on canonical strings. */
  lemma {:induction false} RenderOfValue(s: string)
    requires IsCanonical(s)
    ensures Render(Value(s)) == s
  {
    if |s| > 1 {
      var init := s[..|s| - 1];
      assert IsCanonical(init);
      RenderOfValue(init);
      ValueLeadingNonZero(init);
      assert s == init + [s[|s| - 1]];
    }
  }
}
