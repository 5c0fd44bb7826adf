/**
 * Rust's `u32` and its decimal text form: `u32::from_str` (used when a captured
 * path token is decoded into a `u32` field) and `u32`'s `Display` (used when a
 * route is written back as a path).
 */
module Decimal {
  import opened Wrappers

  const U32_MAX: int := 0xFFFF_FFFF

  newtype u32 = x: int | 0 <= x <= 0xFFFF_FFFF

  predicate IsDigit(c: char)
  {
    '0' <= c <= '9'
  }

  predicate AllDigits(s: string)
  {
    forall i :: 0 <= i < |s| ==> IsDigit(s[i])
  }

  /** No superfluous leading zero: the one form `u32`'s `Display` produces. */
  predicate Canonical(s: string)
  {
    s != [] && AllDigits(s) && (s[0] == '0' ==> s == "0")
  }

  function DigitValue(c: char): (d: nat)
    requires IsDigit(c)
    ensures d < 10
  {
    c as int - '0' as int
  }

  function DigitChar(d: nat): (c: char)
    requires d < 10
    ensures IsDigit(c) && DigitValue(c) == d
  {
    ('0' as int + d) as char
  }

  /** The number a string of decimal digits denotes (leading zeros allowed). */
  function DecimalValue(s: string): (value: nat)
    requires AllDigits(s)
  {
    if s == [] then 0
    else DecimalValue(s[..|s| - 1]) * 10 + DigitValue(s[|s| - 1])
  }

  /**
   * `u32::from_str`: a non-empty run of decimal digits whose value fits in 32 bits.
   * A sign, any other character, the empty string and overflow are all rejected.
   */
  function ParseU32(s: string): (r: Option<u32>)
    ensures r.Some? <==> s != [] && AllDigits(s) && DecimalValue(s) <= U32_MAX
    ensures r.Some? ==> r.value as int == DecimalValue(s)
  {
    if s != [] && AllDigits(s) && DecimalValue(s) <= U32_MAX then Some(DecimalValue(s) as u32)
    else None
  }

  /** The decimal text of `n`: canonical digits that denote `n`. */
  function FormatNat(n: nat): (s: string)
    ensures Canonical(s) && DecimalValue(s) == n
  {
    if n < 10 then [DigitChar(n)]
    else
      var prefix := FormatNat(n / 10);
      var s := prefix + [DigitChar(n % 10)];
      assert s[..|s| - 1] == prefix;
      s
  }

  /** `u32`'s `Display`. */
  function FormatU32(n: u32): (s: string)
    ensures Canonical(s) && ParseU32(s) == Some(n)
  {
    FormatNat(n as nat)
  }

  lemma {:induction false} LeadingNonZeroPositive(s: string)
    requires s != [] && AllDigits(s) && s[0] != '0'
    ensures DecimalValue(s) > 0
  {
    if |s| > 1 {
      LeadingNonZeroPositive(s[..|s| - 1]);
    }
  }

  /** The canonical text of a number is unique: formatting the value of canonical digits gives those digits back. */
  lemma {:induction false} FormatOfCanonical(s: string)
    requires Canonical(s)
    ensures FormatNat(DecimalValue(s)) == s
  {
    if |s| > 1 {
      var p := s[..|s| - 1];
      assert s[0] != '0';
      assert p[0] == s[0];
      FormatOfCanonical(p);
      LeadingNonZeroPositive(p);
      var v := DecimalValue(s);
      assert v / 10 == DecimalValue(p) && v % 10 == DigitValue(s[|s| - 1]);
      assert p + [s[|s| - 1]] == s;
    }
  }

  /** Parsing and then formatting a canonical `u32` text reproduces it. */
  lemma FormatParse(s: string)
    requires Canonical(s) && ParseU32(s).Some?
    ensures FormatU32(ParseU32(s).value) == s
  {
    FormatOfCanonical(s);
  }
}
