/**
  Decimal text for unsigned integers: Rust's `str::parse::<usize>()` on a
  64-bit target, and the `Display` rendering that `format!("{}", n)` uses.
 */
module Decimal {
  import opened Wrappers

  const USIZE_MAX: int := 0xFFFF_FFFF_FFFF_FFFF

  /** `usize` on a 64-bit target. */
  type usize = x: int | 0 <= x <= USIZE_MAX

  predicate IsDigit(c: char) {
    '0' <= c <= '9'
  }

  predicate AllDigits(d: string) {
    forall i :: 0 <= i < |d| ==> IsDigit(d[i])
  }

  /** A digit string in canonical form: non-empty, and no leading zero unless it is "0". */
  predicate Canonical(d: string) {
    d != [] && AllDigits(d) && (d[0] == '0' ==> d == "0")
  }

  function DigitValue(c: char): (v: nat)
    requires IsDigit(c)
    ensures v < 10
  {
    c as int - '0' as int
  }

  function DigitChar(n: nat): (c: char)
    requires n < 10
    ensures IsDigit(c) && DigitValue(c) == n
  {
    ('0' as int + n) as char
  }

  /** The number a string of decimal digits denotes, most significant digit first. */
  function DigitsValue(d: string): nat
    requires AllDigits(d)
  {
    if d == [] then 0 else DigitsValue(d[..|d| - 1]) * 10 + DigitValue(d[|d| - 1])
  }

  /** The decimal rendering of `n`, as `format!("{}", n)` writes it. */
  function ToDecimal(n: nat): (d: string)
    ensures Canonical(d)
  {
    if n < 10 then [DigitChar(n)] else ToDecimal(n / 10) + [DigitChar(n % 10)]
  }

  /**
    `str::parse::<usize>()`: an optional '+', then one or more ASCII digits whose
    value fits in 64 bits. The empty string, a lone sign, a '-' sign, any other
    character and overflow all give `None`.
   */
  function ParseUsize(s: string): (r: Option<usize>)
    ensures r.Some? ==> s != [] && (s[0] == '+' || IsDigit(s[0]))
    ensures r.Some? ==> forall i :: 0 < i < |s| ==> IsDigit(s[i])
  {
    var digits := if s != [] && s[0] == '+' then s[1..] else s;
    if digits == [] || !AllDigits(digits) then None
    else if DigitsValue(digits) > USIZE_MAX then None
    else Some(DigitsValue(digits))
  }

  /** Rendering then reading back gives the number again. */
  lemma {:induction false} ToDecimalValue(n: nat)
    ensures DigitsValue(ToDecimal(n)) == n
  {
    if n >= 10 {
      var d := ToDecimal(n);
      assert d[..|d| - 1] == ToDecimal(n / 10);
      ToDecimalValue(n / 10);
    }
  }

  /** A non-empty digit string is worth at least its leading digit. */
  lemma {:induction false} LeadingDigitBound(d: string)
    requires d != [] && AllDigits(d)
    ensures DigitsValue(d) >= DigitValue(d[0])
  {
    if |d| > 1 {
      var p := d[..|d| - 1];
      assert p[0] == d[0];
      LeadingDigitBound(p);
    }
  }

  /** Reading a canonical digit string and rendering the number gives the string back. */
  lemma {:induction false} ValueToDecimal(d: string)
    requires Canonical(d)
    ensures ToDecimal(DigitsValue(d)) == d
  {
    if |d| > 1 {
      var p := d[..|d| - 1];
      assert p[0] == d[0];
      assert p[0] != '0';
      LeadingDigitBound(p);
      ValueToDecimal(p);
      var n := DigitsValue(d);
      assert n / 10 == DigitsValue(p) && n % 10 == DigitValue(d[|d| - 1]);
      assert d == p + [d[|d| - 1]];
    }
  }

  /** Distinct numbers have distinct renderings. */
  lemma ToDecimalInjective(a: nat, b: nat)
    requires a != b
    ensures ToDecimal(a) != ToDecimal(b)
  {
    ToDecimalValue(a);
    ToDecimalValue(b);
  }

  /** Every usize is accepted in its canonical form, with or without a leading '+'. */
  lemma ParseUsizeCanonical(n: nat)
    requires n <= USIZE_MAX
    ensures ParseUsize(ToDecimal(n)) == Some(n)
    ensures ParseUsize("+" + ToDecimal(n)) == Some(n)
  {
    ToDecimalValue(n);
    assert ("+" + ToDecimal(n))[1..] == ToDecimal(n);
  }

  /** A canonical number above usize::MAX is rejected as an overflow. */
  lemma ParseUsizeOverflow(n: nat)
    requires n > USIZE_MAX
    ensures ParseUsize(ToDecimal(n)) == None
  {
    ToDecimalValue(n);
  }

  /** Leading zeros are accepted and do not change the value. */
  lemma ParseUsizeLeadingZero(d: string)
    requires d != [] && AllDigits(d)
    ensures ParseUsize("0" + d) == ParseUsize(d)
  {
    var z := "0" + d;
    assert z[..|z| - 1] == "0" + d[..|d| - 1];
    LeadingZeroValue(d);
  }

  lemma {:induction false} LeadingZeroValue(d: string)
    requires AllDigits(d)
    ensures AllDigits("0" + d) && DigitsValue("0" + d) == DigitsValue(d)
  {
    if d != [] {
      var z := "0" + d;
      assert z[..|z| - 1] == "0" + d[..|d| - 1];
      LeadingZeroValue(d[..|d| - 1]);
    }
  }

  /** The inputs that are not numbers: empty, a lone '+', a '-' sign. */
  lemma ParseUsizeRejects(t: string)
    ensures ParseUsize("") == None
    ensures ParseUsize("+") == None
    ensures ParseUsize("-" + t) == None
  {
    assert ("-" + t)[0] == '-';
  }
}
