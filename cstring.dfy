/** The C library's decimal string-to-integer conversion (atoi / atoll) and
    the decimal rendering it inverts. */
module CString {

  /** isspace() in the C locale: space, \t, \n, \v, \f, \r. */
  predicate IsSpace(c: char)
  {
    c == ' ' || ('\t' <= c <= '\r')
  }

  predicate IsDigit(c: char)
  {
    '0' <= c <= '9'
  }

  predicate AllDigits(s: string)
  {
    forall i :: 0 <= i < |s| ==> IsDigit(s[i])
  }

  function DigitValue(c: char): (d: nat)
    requires IsDigit(c)
    ensures d < 10
  {
    (c as int) - ('0' as int)
  }

  function DigitChar(d: nat): (c: char)
    requires d < 10
    ensures IsDigit(c) && DigitValue(c) == d
  {
    (('0' as int) + d) as char
  }

  function SkipSpace(s: string): (r: string)
    ensures r == [] || !IsSpace(r[0])
  {
    if s != [] && IsSpace(s[0]) then SkipSpace(s[1..]) else s
  }

  /** The longest prefix of s made of decimal digits. */
  function DigitPrefix(s: string): (r: string)
    ensures AllDigits(r) && |r| <= |s| && r == s[..|r|]
    ensures |r| < |s| ==> !IsDigit(s[|r|])
  {
    if s != [] && IsDigit(s[0]) then [s[0]] + DigitPrefix(s[1..]) else []
  }

  /** The value of a string of decimal digits, most significant first. */
  function DecimalValue(ds: string): nat
    requires AllDigits(ds)
  {
    if ds == [] then 0 else DecimalValue(ds[..|ds| - 1]) * 10 + DigitValue(ds[|ds| - 1])
  }

  /** The number strtol/atoi/atoll read: skip white space, take an optional
      sign, then as many decimal digits as follow (no digits: 0), with no
      bound on the width. */
  function ParsedValue(s: string): int
  {
    var t := SkipSpace(s);
    if t != [] && t[0] == '-' then 0 - DecimalValue(DigitPrefix(t[1..])) as int
    else if t != [] && t[0] == '+' then DecimalValue(DigitPrefix(t[1..]))
    else DecimalValue(DigitPrefix(t))
  }

  /** The range of a 64-bit long / long long. */
  const LONG_MIN: int := -0x8000_0000_0000_0000
  const LONG_MAX: int := 0x7FFF_FFFF_FFFF_FFFF

  /** strtol, and atoll (strtoll) on a 64-bit long: the number read,
      saturated to the range of long. */
  function Strtol(s: string): (r: int)
    ensures LONG_MIN <= r <= LONG_MAX
    ensures LONG_MIN <= ParsedValue(s) <= LONG_MAX ==> r == ParsedValue(s)
    ensures ParsedValue(s) > LONG_MAX ==> r == LONG_MAX
    ensures ParsedValue(s) < LONG_MIN ==> r == LONG_MIN
  {
    var v := ParsedValue(s);
    if v > LONG_MAX then LONG_MAX else if v < LONG_MIN then LONG_MIN else v
  }

  /** atoi: (int) strtol(s, NULL, 10), so the saturated long is converted
      to a 32-bit int, which keeps it modulo 2^32. */
  function Atoi(s: string): (r: int)
    ensures -0x8000_0000 <= r < 0x8000_0000
    ensures (r - Strtol(s)) % 0x1_0000_0000 == 0
  {
    var v := Strtol(s) % 0x1_0000_0000;
    if v < 0x8000_0000 then v else v - 0x1_0000_0000
  }

  /** The decimal rendering of n with no leading zeros (what "%u" prints). */
  function Decimal(n: nat): (r: string)
    ensures r != [] && AllDigits(r)
  {
    if n < 10 then [DigitChar(n)] else Decimal(n / 10) + [DigitChar(n % 10)]
  }

  lemma {:induction false} DigitPrefixOfDigits(s: string)
    requires AllDigits(s)
    ensures DigitPrefix(s) == s
  {
    if s != [] {
      DigitPrefixOfDigits(s[1..]);
    }
  }

  lemma {:induction false} DecimalValueOfDecimal(n: nat)
    ensures DecimalValue(Decimal(n)) == n
  {
    if n >= 10 {
      var r := Decimal(n);
      assert r[..|r| - 1] == Decimal(n / 10);
      DecimalValueOfDecimal(n / 10);
    }
  }

  /** The decimal rendering of every natural number reads back as that
      number; within the range of long strtol and atoll give it exactly, and
      atoi gives it modulo 2^32 (exactly below 2^31). */
  lemma AtoiDecimal(n: nat)
    ensures ParsedValue(Decimal(n)) == n
    ensures n <= LONG_MAX ==> Strtol(Decimal(n)) == n && Atoi(Decimal(n)) % 0x1_0000_0000 == n % 0x1_0000_0000
    ensures n < 0x8000_0000 ==> Atoi(Decimal(n)) == n
  {
    var s := Decimal(n);
    assert !IsSpace(s[0]);
    assert SkipSpace(s) == s;
    DigitPrefixOfDigits(s);
    DecimalValueOfDecimal(n);
  }

  /** atoi of "4294967296" is 0: the conversion to int drops the bits above
      the 32nd, so a number like it is taken for no number at all. */
  lemma AtoiWrapsToZero()
    ensures Atoi(Decimal(0x1_0000_0000)) == 0
  {
    AtoiDecimal(0x1_0000_0000);
  }

  /** The number read stops at the first character that is not a digit. */
  lemma {:induction false} AtoiStopsAtNonDigit(n: nat, rest: string)
    requires rest == [] || !IsDigit(rest[0])
    ensures ParsedValue(Decimal(n) + rest) == n
  {
    var s := Decimal(n) + rest;
    assert s[0] == Decimal(n)[0];
    assert SkipSpace(s) == s;
    DigitPrefixOfPrefix(Decimal(n), rest);
    DecimalValueOfDecimal(n);
  }

  lemma {:induction false} DigitPrefixOfPrefix(ds: string, rest: string)
    requires AllDigits(ds)
    requires rest == [] || !IsDigit(rest[0])
    ensures DigitPrefix(ds + rest) == ds
  {
    if ds == [] {
      assert ds + rest == rest;
    } else {
      assert (ds + rest)[1..] == ds[1..] + rest;
      DigitPrefixOfPrefix(ds[1..], rest);
    }
  }
}
