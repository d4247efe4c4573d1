/** Decimal natural numbers as text: `<usize as FromStr>::from_str` on a
    64-bit target, and the plain decimal rendering that the triangulator
    prints, which it inverts. */
module Decimal {
  import opened Results

  /** One more than `usize::MAX` on a 64-bit target. */
  const USIZE_LIMIT: nat := 0x1_0000_0000_0000_0000

  predicate IsDigit(c: char) {
    '0' <= c <= '9'
  }

  predicate AllDigits(s: string) {
    forall i :: 0 <= i < |s| ==> IsDigit(s[i])
  }

  function DigitValue(c: char): (d: nat)
    requires IsDigit(c)
    ensures d < 10
  {
    c as int - '0' as int
  }

  function DigitChar(d: nat): (c: char)
    requires d < 10
    ensures IsDigit(c) && DigitValue(c) == d
  {
    ('0' as int + d) as char
  }

  /** The value of a digit string, most significant digit first; leading
      zeros are allowed. */
  function DigitsValue(s: string): nat
    requires AllDigits(s)
  {
    if s == [] then 0 else DigitsValue(s[..|s| - 1]) * 10 + DigitValue(s[|s| - 1])
  }

  /** The digits that `from_str` reads: an optional single leading '+'
      (accepted by unsigned types) followed by the rest. */
  function Unsigned(s: string): string {
    if |s| > 1 && s[0] == '+' then s[1..] else s
  }

  /** `<usize as FromStr>::from_str`: fails on the empty string, a lone '+',
      any character that is not an ASCII digit (signs other than one leading
      '+', white space) and on values that overflow usize. */
  function ParseUsize(s: string): (r: Option<nat>)
    ensures r.Some? ==> r.value < USIZE_LIMIT && s != []
  {
    var digits := Unsigned(s);
    if digits == [] || !AllDigits(digits) then None
    else if DigitsValue(digits) < USIZE_LIMIT then Some(DigitsValue(digits))
    else None
  }

  /** Plain decimal rendering without leading zeros, as the triangulator
      prints vertex indices and counts. */
  function Show(n: nat): (s: string)
    ensures s != [] && AllDigits(s)
    decreases n
  {
    if n < 10 then [DigitChar(n)] else Show(n / 10) + [DigitChar(n % 10)]
  }

  lemma {:induction false} DigitsValueShow(n: nat)
    ensures DigitsValue(Show(n)) == n
    decreases n
  {
    if n >= 10 {
      var s := Show(n);
      assert s[..|s| - 1] == Show(n / 10);
      DigitsValueShow(n / 10);
    }
  }

  /** The parser reads back every rendered usize, with or without a leading '+'. */
  lemma ParseUsizeShow(n: nat)
    requires n < USIZE_LIMIT
    ensures ParseUsize(Show(n)) == Some(n)
    ensures ParseUsize("+" + Show(n)) == Some(n)
  {
    DigitsValueShow(n);
    assert ("+" + Show(n))[1..] == Show(n);
  }

  /** A string holding a character that is neither a digit nor the leading
      '+' of a longer string is refused. */
  lemma ParseUsizeRejects(s: string, i: nat)
    requires i < |s| && !IsDigit(s[i])
    requires !(i == 0 && s[0] == '+' && |s| > 1)
    ensures ParseUsize(s) == None
  {
    if |s| > 1 && s[0] == '+' {
      assert Unsigned(s)[i - 1] == s[i];
    }
  }

  /** Values beyond usize::MAX are refused even when the syntax is right. */
  lemma ParseUsizeOverflow(n: nat)
    requires n >= USIZE_LIMIT
    ensures ParseUsize(Show(n)) == None
    ensures ParseUsize("+" + Show(n)) == None
  {
    DigitsValueShow(n);
    assert Unsigned("+" + Show(n)) == Show(n);
  }
}
