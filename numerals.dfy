/**
 * Unsigned 32-bit integers as the version fields hold them, the decimal
 * rendering that `Display` writes for them, and the behaviour of Rust's
 * `str::parse::<u32>` on which every version segment depends.
 */
module Numerals {

  import opened Wrappers

  const MaxU32: int := 0xFFFF_FFFF

  /** Rust's `u32`. */
  newtype U32 = x: int | 0 <= x <= MaxU32

  predicate IsDigit(c: char) {
    '0' <= c <= '9'
  }

  predicate AllDigits(s: string) {
    forall i | 0 <= i < |s| :: IsDigit(s[i])
  }

  /** A decimal numeral as `{}` prints an unsigned integer: digits only, no leading zero unless it is `0`. */
  predicate Canonical(s: string) {
    |s| > 0 && AllDigits(s) && (s[0] == '0' ==> |s| == 1)
  }

  function DigitValue(c: char): (d: nat)
    requires IsDigit(c)
    ensures d < 10
  {
    (c as int) - ('0' as int)
  }

  function DigitChar(d: nat): (c: char)
    requires d < 10
    ensures IsDigit(c) && DigitValue(c) == d
  {
    (('0' as int) + d) as char
  }

  /** The number a string of ASCII digits denotes, read most significant digit first. */
  function DigitsValue(s: string): nat
    requires AllDigits(s)
  {
    if s == [] then 0 else DigitsValue(s[..|s| - 1]) * 10 + DigitValue(s[|s| - 1])
  }

  /** The decimal rendering of `n` that Rust's `Display` for an unsigned integer produces. */
  function ToDecimal(n: nat): (r: string)
    ensures Canonical(r)
    ensures DigitsValue(r) == n
  {
    if n < 10 then [DigitChar(n)]
    else
      var prefix := ToDecimal(n / 10);
      var r := prefix + [DigitChar(n % 10)];
      assert r[..|r| - 1] == prefix;
      r
  }

  /**
   * Rust's `str::parse::<u32>`: an optional `+`, then one or more ASCII
   * digits whose value fits in 32 bits. Leading zeros are accepted; an empty
   * string, a lone sign, a `-` and any other character are rejected.
   */
  function ParseU32(s: string): (r: Option<U32>)
    ensures r.Some? ==> s != [] && '.' !in s && '-' !in s
    ensures r.Some? ==> var digits := Unsigned(s); AllDigits(digits) && r.value as int == DigitsValue(digits)
  {
    if |s| == 0 then None
    else
      var digits := Unsigned(s);
      if |digits| == 0 || !AllDigits(digits) then None
      else if DigitsValue(digits) <= MaxU32 then Some(DigitsValue(digits) as U32)
      else None
  }

  /** The digits of a numeral once an optional leading `+` is dropped. */
  function Unsigned(s: string): (digits: string)
    ensures |digits| <= |s|
  {
    if |s| > 0 && s[0] == '+' then s[1..] else s
  }

  /** A canonical numeral is parsed back to the number it renders. */
  lemma ParseToDecimal(n: nat)
    requires n <= MaxU32
    ensures ParseU32(ToDecimal(n)) == Some(n as U32)
  {
  }

  /** A leading zero is accepted and does not change the value. */
  lemma {:induction false} DigitsValueLeadingZero(s: string)
    requires AllDigits(s)
    ensures AllDigits("0" + s) && DigitsValue("0" + s) == DigitsValue(s)
  {
    var t := "0" + s;
    assert AllDigits(t) by {
      forall i | 0 <= i < |t| ensures IsDigit(t[i]) {
        if i > 0 { assert t[i] == s[i - 1]; }
      }
    }
    if s != [] {
      assert t[..|t| - 1] == "0" + s[..|s| - 1];
      DigitsValueLeadingZero(s[..|s| - 1]);
    }
  }

  lemma ParseLeadingZero(s: string)
    requires AllDigits(s) && s != []
    ensures ParseU32("0" + s) == ParseU32(s)
  {
    DigitsValueLeadingZero(s);
    assert IsDigit(s[0]);
    assert Unsigned("0" + s) == "0" + s;
    assert Unsigned(s) == s;
  }

  /** A leading `+` is accepted and does not change the value; a `+` alone is rejected. */
  lemma ParsePlusSign(s: string)
    requires AllDigits(s)
    ensures ParseU32("+" + s) == ParseU32(s)
  {
  }

  /** A string of digits whose value exceeds `u32::MAX` is rejected. */
  lemma ParseOverflow(s: string)
    requires AllDigits(s) && DigitsValue(s) > MaxU32
    ensures ParseU32(s) == None
  {
  }
}
