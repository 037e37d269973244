/** Decimal text of integers: how `operator<<` prints an `int` or a `long`,
    and how `std::stoi` / `std::stol` read one back. */
module Decimal {
  import opened Wrappers

  /** Bounds of the 32-bit `int` and the 64-bit `long` of the source's platform. */
  const INT_MIN: int := -0x8000_0000
  const INT_MAX: int := 0x7fff_ffff
  const LONG_MIN: int := -0x8000_0000_0000_0000
  const LONG_MAX: int := 0x7fff_ffff_ffff_ffff

  predicate IsDigit(c: char) {
    '0' <= c <= '9'
  }

  predicate AllDigits(s: string) {
    forall i :: 0 <= i < |s| ==> IsDigit(s[i])
  }

  /** `isspace` in the C locale: blank, tab, newline, vertical tab, form feed, carriage return. */
  predicate IsSpace(c: char) {
    c == ' ' || 9 <= c as int <= 13
  }

  function DigitValue(c: char): (d: nat)
    requires IsDigit(c)
    ensures d < 10
  {
    c as int - '0' as int
  }

  function DigitChar(d: nat): (c: char)
    requires d < 10
    ensures IsDigit(c) && DigitValue(c) == d
  {
    (d + '0' as int) as char
  }

  /** The digits of `n`, most significant first, without leading zeros. */
  function NatToDecimal(n: nat): (s: string)
    ensures 1 <= |s| && AllDigits(s)
  {
    if n < 10 then [DigitChar(n)] else NatToDecimal(n / 10) + [DigitChar(n % 10)]
  }

  /** `operator<<` on an integer: a '-' before the magnitude's digits when negative. */
  function IntToDecimal(n: int): string {
    if n < 0 then "-" + NatToDecimal(-n) else NatToDecimal(n)
  }

  /** Value of a run of decimal digits, most significant first. */
  function DigitsValue(s: string): nat
    requires AllDigits(s)
  {
    if s == [] then 0 else DigitsValue(s[..|s| - 1]) * 10 + DigitValue(s[|s| - 1])
  }

  /** Length of the longest prefix of `s` whose characters all satisfy `p`. */
  function RunLength(s: string, p: char -> bool): (k: nat)
    ensures k <= |s|
    ensures forall i :: 0 <= i < k ==> p(s[i])
    ensures k < |s| ==> !p(s[k])
  {
    if s == [] || !p(s[0]) then 0 else 1 + RunLength(s[1..], p)
  }

  datatype ConversionError = InvalidArgument | OutOfRange

  /** `std::stoi` (with the `int` bounds) and `std::stol` (with the `long`
      bounds): skip leading white space, accept one optional sign, read the
      longest run of decimal digits and ignore whatever follows it. No digit
      at all throws `invalid_argument`; a value outside [lo, hi] throws
      `out_of_range`. */
  function ParseInteger(s: string, lo: int, hi: int): (r: Result<int, ConversionError>)
    ensures r.Ok? ==> lo <= r.value <= hi
  {
    var body := s[RunLength(s, IsSpace)..];
    var signed := |body| > 0 && (body[0] == '+' || body[0] == '-');
    var digits := if signed then body[1..] else body;
    var k := RunLength(digits, IsDigit);
    if k == 0 then Err(InvalidArgument)
    else
      var magnitude: int := DigitsValue(digits[..k]);
      var v: int := if signed && body[0] == '-' then -magnitude else magnitude;
      if lo <= v <= hi then Ok(v) else Err(OutOfRange)
  }

  lemma {:induction false} DigitsValueOfDecimal(n: nat)
    ensures DigitsValue(NatToDecimal(n)) == n
  {
    if n >= 10 {
      var s := NatToDecimal(n);
      var front := NatToDecimal(n / 10);
      assert s[..|s| - 1] == front;
      DigitsValueOfDecimal(n / 10);
    }
  }

  lemma {:induction false} RunLengthWhole(s: string, p: char -> bool)
    requires forall i :: 0 <= i < |s| ==> p(s[i])
    ensures RunLength(s, p) == |s|
  {
    if s != [] {
      RunLengthWhole(s[1..], p);
    }
  }

  /** Rendering and parsing agree: every value in [lo, hi] printed by
      `operator<<` is read back unchanged by `stoi`/`stol`. */
  lemma ParseIntegerRoundTrip(n: int, lo: int, hi: int)
    requires lo <= n <= hi
    ensures ParseInteger(IntToDecimal(n), lo, hi) == Ok(n)
  {
    var s := IntToDecimal(n);
    var m: nat := if n < 0 then -n else n;
    var digits := NatToDecimal(m);
    assert RunLength(s, IsSpace) == 0;
    RunLengthWhole(digits, IsDigit);
    DigitsValueOfDecimal(m);
    if n < 0 {
      assert s[1..] == digits;
    }
    assert digits[..|digits|] == digits;
  }

  /** A field with no digit anywhere in it is rejected with `invalid_argument`. */
  lemma ParseIntegerNoDigits(s: string, lo: int, hi: int)
    requires forall i :: 0 <= i < |s| ==> !IsDigit(s[i])
    ensures ParseInteger(s, lo, hi) == Err(InvalidArgument)
  {
    var body := s[RunLength(s, IsSpace)..];
    var signed := |body| > 0 && (body[0] == '+' || body[0] == '-');
    var digits := if signed then body[1..] else body;
    assert digits == [] || !IsDigit(digits[0]) by {
      if digits != [] {
        assert digits[0] in s;
      }
    }
  }

  /** A well-formed number outside [lo, hi] is rejected with `out_of_range`. */
  lemma ParseIntegerOutOfRange(n: int, lo: int, hi: int)
    requires n < lo || hi < n
    ensures ParseInteger(IntToDecimal(n), lo, hi) == Err(OutOfRange)
  {
    var s := IntToDecimal(n);
    var m: nat := if n < 0 then -n else n;
    var digits := NatToDecimal(m);
    assert RunLength(s, IsSpace) == 0;
    RunLengthWhole(digits, IsDigit);
    DigitsValueOfDecimal(m);
    if n < 0 {
      assert s[1..] == digits;
    }
    assert digits[..|digits|] == digits;
  }

  /** Printed integers contain only digits and a leading minus sign, so no
      field separator, line end or white space. */
  lemma DecimalCharacters(n: int)
    ensures forall i :: 0 <= i < |IntToDecimal(n)| ==>
      IsDigit(IntToDecimal(n)[i]) || (i == 0 && IntToDecimal(n)[i] == '-')
    ensures ',' !in IntToDecimal(n) && '\n' !in IntToDecimal(n)
  {
    var s := IntToDecimal(n);
    var m: nat := if n < 0 then -n else n;
    if n < 0 {
      assert forall i :: 1 <= i < |s| ==> s[i] == NatToDecimal(m)[i - 1];
    }
  }
}
