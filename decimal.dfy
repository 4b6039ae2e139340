/**
 * Decimal text of integers: what Python's `int` reads from a run of ASCII
 * digits and what `str` prints for an integer.
 */
module Decimal {
  import opened Wrappers

  predicate IsDigit(c: char) {
    '0' <= c <= '9'
  }

  predicate AllDigits(s: string) {
    forall i :: 0 <= i < |s| ==> IsDigit(s[i])
  }

  function DigitValue(c: char): (d: nat)
    requires IsDigit(c)
    ensures d < 10
  {
    (c as int) - ('0' as int)
  }

  function DigitChar(d: nat): (c: char)
    requires d < 10
    ensures IsDigit(c) && DigitValue(c) == d
  {
    ('0' as int + d) as char
  }

  /** The value of a run of digits, most significant first; leading zeros are allowed, as `int("07")` is 7. */
  function ValueOf(s: string): (n: nat)
    requires AllDigits(s)
    ensures n < Power10(|s|)
  {
    if |s| == 0 then 0 else 10 * ValueOf(s[..|s| - 1]) + DigitValue(s[|s| - 1])
  }

  function Power10(k: nat): (p: nat)
    ensures p >= 1
  {
    if k == 0 then 1 else 10 * Power10(k - 1)
  }

  /** 10 to the power k is at least 100 from k = 2 on. */
  lemma {:induction false} Power10Grows(k: nat)
    ensures 2 <= k ==> 100 <= Power10(k)
  {
    if 2 < k {
      Power10Grows(k - 1);
    }
  }

  /** The shortest digit string of n, as `str` prints a non-negative integer. */
  function DigitsOf(n: nat): (s: string)
    ensures 1 <= |s| && AllDigits(s)
    ensures s[0] == '0' ==> n == 0
    ensures n < Power10(|s|) && (|s| > 1 ==> Power10(|s| - 1) <= n)
  {
    if n < 10 then [DigitChar(n)] else DigitsOf(n / 10) + [DigitChar(n % 10)]
  }

  /** `str(n)` for an integer n: a minus sign exactly for negative n, then decimal digits. */
  function Show(n: int): string {
    if n < 0 then "-" + DigitsOf(-n) else DigitsOf(n)
  }

  /** `int(s)` restricted to an optional `-` followed by ASCII digits; other text (a `+`, spaces, `_`, non-ASCII digits) is None here. */
  function Parse(s: string): Option<int> {
    if 2 <= |s| && s[0] == '-' && AllDigits(s[1..]) then Some(0 - ValueOf(s[1..]))
    else if 1 <= |s| && AllDigits(s) then Some(ValueOf(s))
    else None
  }

  /** Reading back the digits of n gives n. */
  lemma {:induction false} ValueOfDigitsOf(n: nat)
    ensures ValueOf(DigitsOf(n)) == n
  {
    if n >= 10 {
      var s := DigitsOf(n);
      assert s[..|s| - 1] == DigitsOf(n / 10);
      ValueOfDigitsOf(n / 10);
    }
  }

  /** `int(str(n)) == n` for every integer n. */
  lemma ShowParse(n: int)
    ensures Parse(Show(n)) == Some(n)
  {
    var s := Show(n);
    if n < 0 {
      var digits := DigitsOf(-n);
      assert s == "-" + digits && s[1..] == digits;
      ValueOfDigitsOf(-n);
    } else {
      assert s == DigitsOf(n) && IsDigit(s[0]);
      ValueOfDigitsOf(n);
    }
  }

  /** `str(n)` starts with a minus sign exactly for negative n; the rest is one or more decimal digits. */
  lemma ShowShape(n: int)
    ensures 1 <= |Show(n)| && (Show(n)[0] == '-' <==> n < 0)
    ensures n >= 0 ==> AllDigits(Show(n))
    ensures n < 0 ==> 2 <= |Show(n)| && AllDigits(Show(n)[1..])
  {
    var s := Show(n);
    if n < 0 {
      assert s == "-" + DigitsOf(-n) && s[1..] == DigitsOf(-n);
    } else {
      assert IsDigit(s[0]);
    }
  }

  /**
   * `int(s)` of a digit run is its value, below 10^length; a negative
   * result needs a leading minus; text of at most one character that is not
   * a digit is refused.
   */
  lemma ParseShape(s: string)
    ensures 1 <= |s| && AllDigits(s) ==> Parse(s) == Some(ValueOf(s)) && ValueOf(s) < Power10(|s|)
    ensures Parse(s).Some? ==> 1 <= |s| && (Parse(s).value < 0 ==> s[0] == '-')
    ensures |s| <= 1 && !AllDigits(s) ==> Parse(s).None?
  {
    if 1 <= |s| && AllDigits(s) {
      assert IsDigit(s[0]);
    }
  }
}
