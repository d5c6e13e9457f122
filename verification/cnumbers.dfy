/**
 * The two C library number conversions the shell relies on: printf's "%d"
 * (used by the history listing) and atoi (used by "!N" recall).
 */
module CNumbers {

  /** Bounds of a 32-bit C int. */
  const INT_MIN: int := -0x8000_0000
  const INT_MAX: int := 0x7FFF_FFFF

  predicate IsDigit(c: char) {
    '0' <= c <= '9'
  }

  predicate AllDigits(s: string) {
    forall i :: 0 <= i < |s| ==> IsDigit(s[i])
  }

  /** isspace() in the "C" locale: space, \t, \n, \v, \f, \r. */
  predicate IsSpace(c: char) {
    c == ' ' || c == '\t' || c == '\n' || c == '\r' || c as int == 0x0B || c as int == 0x0C
  }

  function DigitValue(c: char): (d: nat)
    requires IsDigit(c)
    ensures d < 10
  {
    c as int - '0' as int
  }

  function DigitChar(d: nat): (c: char)
    requires d < 10
    ensures IsDigit(c) && DigitValue(c) == d
  {
    ('0' as int + d) as char
  }

  /** The number denoted by a run of decimal digits, most significant first. */
  function DigitsValue(s: string): nat
    requires AllDigits(s)
    decreases |s|
  {
    if s == [] then 0 else 10 * DigitsValue(s[..|s| - 1]) + DigitValue(s[|s| - 1])
  }

  /** printf("%d", n) for a non-negative n: the canonical decimal numeral. */
  function Decimal(n: nat): (s: string)
    ensures |s| >= 1
  {
    if n < 10 then [DigitChar(n)] else Decimal(n / 10) + [DigitChar(n % 10)]
  }

  /**
   * The text of n is a run of decimal digits denoting n, with no leading zero
   * unless it is "0" itself.
   */
  lemma {:induction false} DecimalIsNumeral(n: nat)
    ensures var s := Decimal(n);
      AllDigits(s) && DigitsValue(s) == n && (s[0] == '0' ==> s == "0")
  {
    var s := Decimal(n);
    if n >= 10 {
      var prefix := Decimal(n / 10);
      DecimalIsNumeral(n / 10);
      assert s == prefix + [DigitChar(n % 10)];
      assert s[..|s| - 1] == prefix;
      assert s[0] == prefix[0];
    } else {
      assert s == [DigitChar(n)];
    }
  }

  /** 10 to the power k. */
  function Pow10(k: nat): (p: nat)
    ensures p >= 1
  {
    if k == 0 then 1 else 10 * Pow10(k - 1)
  }

  /** A number below 10^k, for k >= 1, is printed with at most k digits. */
  lemma {:induction false} DecimalLength(n: nat, k: nat)
    requires 1 <= k && n < Pow10(k)
    ensures |Decimal(n)| <= k
  {
    if n >= 10 {
      assert n / 10 < Pow10(k - 1);
      DecimalLength(n / 10, k - 1);
      assert Decimal(n) == Decimal(n / 10) + [DigitChar(n % 10)];
    }
  }

  /** Every int that fits is printed with at most ten digits. */
  lemma IntFitsTenDigits(n: nat)
    requires n <= INT_MAX
    ensures |Decimal(n)| <= 10
  {
    assert Pow10(10) == 10_000_000_000;
    DecimalLength(n, 10);
  }

  /** Length of the longest prefix of s made of decimal digits. */
  function DigitRun(s: string): (n: nat)
    ensures n <= |s| && AllDigits(s[..n])
    ensures n < |s| ==> !IsDigit(s[n])
  {
    if s == [] || !IsDigit(s[0]) then 0
    else
      var n := 1 + DigitRun(s[1..]);
      assert s[..n] == [s[0]] + s[1..][..n - 1];
      n
  }

  /** Length of the longest prefix of s made of isspace() characters. */
  function SpaceRun(s: string): (n: nat)
    ensures n <= |s|
    ensures forall i :: 0 <= i < n ==> IsSpace(s[i])
    ensures n < |s| ==> !IsSpace(s[n])
  {
    if s == [] || !IsSpace(s[0]) then 0 else 1 + SpaceRun(s[1..])
  }

  /**
   * atoi(s) as the exact integer it denotes: leading isspace() characters are
   * skipped, an optional '+' or '-' is read, then the longest run of digits;
   * no digits at all gives 0. Whether the result fits a C int is a separate
   * question (see FitsInt).
   */
  function Atoi(s: string): int {
    var t := s[SpaceRun(s)..];
    if |t| > 0 && (t[0] == '+' || t[0] == '-') then
      var digits := t[1..][..DigitRun(t[1..])];
      if t[0] == '-' then -(DigitsValue(digits) as int) else DigitsValue(digits)
    else
      DigitsValue(t[..DigitRun(t)])
  }

  predicate FitsInt(n: int) {
    INT_MIN <= n <= INT_MAX
  }

  /** A digit run followed by something that is not a digit is read in full. */
  lemma {:induction false} DigitRunOfNumeral(d: string, rest: string)
    requires AllDigits(d)
    requires rest == [] || !IsDigit(rest[0])
    ensures DigitRun(d + rest) == |d|
  {
    if d != [] {
      assert (d + rest)[1..] == d[1..] + rest;
      DigitRunOfNumeral(d[1..], rest);
    } else {
      assert d + rest == rest;
    }
  }

  /** atoi reads back what printf("%d") writes, up to the first non-digit. */
  lemma AtoiOfDecimal(n: nat, rest: string)
    requires rest == [] || !IsDigit(rest[0])
    ensures Atoi(Decimal(n) + rest) == n
  {
    var d := Decimal(n);
    DecimalIsNumeral(n);
    var s := d + rest;
    assert s[0] == d[0];
    assert SpaceRun(s) == 0;
    assert s[SpaceRun(s)..] == s;
    DigitRunOfNumeral(d, rest);
    assert s[..|d|] == d;
  }

  /** A leading minus sign negates the numeral that follows it. */
  lemma AtoiOfNegativeDecimal(n: nat, rest: string)
    requires rest == [] || !IsDigit(rest[0])
    ensures Atoi("-" + Decimal(n) + rest) == -(n as int)
  {
    var d := Decimal(n);
    DecimalIsNumeral(n);
    var s := "-" + d + rest;
    assert SpaceRun(s) == 0;
    assert s[SpaceRun(s)..] == s;
    assert s[1..] == d + rest;
    DigitRunOfNumeral(d, rest);
    assert (d + rest)[..|d|] == d;
  }

  /** Text that does not start (after blanks and a sign) with a digit reads as 0. */
  lemma AtoiWithoutDigits(s: string)
    requires var t := s[SpaceRun(s)..];
      if |t| > 0 && (t[0] == '+' || t[0] == '-') then |t| == 1 || !IsDigit(t[1])
      else t == [] || !IsDigit(t[0])
    ensures Atoi(s) == 0
  {
    var t := s[SpaceRun(s)..];
    if |t| > 0 && (t[0] == '+' || t[0] == '-') {
      assert DigitRun(t[1..]) == 0;
      assert t[1..][..0] == [];
    } else {
      assert DigitRun(t) == 0;
      assert t[..0] == [];
    }
  }
}
