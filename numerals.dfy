/** Digits and numerals shared by the two string-to-integer conversions of the plugin,
    JavaScript's `parseInt` in the front end and PHP's `intval` in the back end, and the
    decimal form in which both languages print an integer. */
module Numerals {

  /** The value of `c` as a digit in any radix up to 36 (`0`-`9`, then `a`-`z` or `A`-`Z`
      for 10 to 35), or 36 when `c` is no digit in any radix. */
  function DigitValue(c: char): nat
  {
    if '0' <= c <= '9' then c as int - '0' as int
    else if 'a' <= c <= 'z' then c as int - 'a' as int + 10
    else if 'A' <= c <= 'Z' then c as int - 'A' as int + 10
    else 36
  }

  /** The two radixes the plugin's conversions read numerals in. */
  datatype Radix = Decimal | Hexadecimal

  function Base(radix: Radix): nat
  {
    match radix
    case Decimal => 10
    case Hexadecimal => 16
  }

  predicate IsDigitIn(c: char, radix: Radix)
  {
    DigitValue(c) < Base(radix)
  }

  predicate AllDigitsIn(s: string, radix: Radix)
  {
    forall i :: 0 <= i < |s| ==> IsDigitIn(s[i], radix)
  }

  /** Length of the longest prefix of `s` made of digits of `radix`. */
  function DigitRun(s: string, radix: Radix): (k: nat)
    ensures k <= |s|
  {
    if s == [] || !IsDigitIn(s[0], radix) then 0 else 1 + DigitRun(s[1..], radix)
  }

  /** The run is made of digits and is as long as it can be. */
  lemma {:induction false} DigitRunIsMaximal(s: string, radix: Radix)
    ensures AllDigitsIn(s[..DigitRun(s, radix)], radix)
    ensures DigitRun(s, radix) < |s| ==> !IsDigitIn(s[DigitRun(s, radix)], radix)
  {
    if s != [] && IsDigitIn(s[0], radix) {
      DigitRunIsMaximal(s[1..], radix);
      var k := DigitRun(s, radix);
      assert s[..k] == [s[0]] + s[1..][..k - 1];
    }
  }

  /** A string made of digits is its own digit run. */
  lemma {:induction false} DigitRunOfDigits(s: string, radix: Radix)
    requires AllDigitsIn(s, radix)
    ensures DigitRun(s, radix) == |s|
  {
    if s != [] {
      DigitRunOfDigits(s[1..], radix);
    }
  }

  /** The number that the digit string `s` denotes in `radix`, most significant digit first. */
  function ValueIn(s: string, radix: Radix): nat
  {
    if s == [] then 0
    else
      var high := ValueIn(s[..|s| - 1], radix);
      (match radix case Decimal => high * 10 case Hexadecimal => high * 16) + DigitValue(s[|s| - 1])
  }

  function DigitChar(d: nat): char
    requires d < 10
  {
    ('0' as int + d) as char
  }

  /** Decimal numeral of `n`, without leading zeros. */
  function Show(n: nat): (r: string)
    ensures r != []
    ensures r[0] == '0' ==> n == 0
  {
    if n < 10 then [DigitChar(n)] else Show(n / 10) + [DigitChar(n % 10)]
  }

  /** A decimal numeral is made of decimal digits. */
  lemma {:induction false} ShowIsDigits(n: nat)
    ensures AllDigitsIn(Show(n), Decimal)
  {
    if n >= 10 {
      ShowIsDigits(n / 10);
    }
  }

  /** Decimal form of an integer with a leading `-` for negatives. PHP prints
      every integer this way. JavaScript's Number-to-String conversion prints this
      only for integers below 10^21 in magnitude; it uses exponent form from 10^21
      and cannot hold integers above 2^53 exactly. The model treats every
      position as an exact integer. */
  function ShowInt(k: int): string
  {
    if k < 0 then "-" + Show(-k) else Show(k)
  }

  /** Reading back the numeral of `n` gives `n`. */
  lemma {:induction false} ValueOfShow(n: nat)
    ensures ValueIn(Show(n), Decimal) == n
  {
    if n >= 10 {
      var s := Show(n);
      assert s[..|s| - 1] == Show(n / 10);
      ValueOfShow(n / 10);
    }
  }

  /** A decimal numeral is its own digit run: parsing it consumes all of it. */
  lemma ShowIsDigitRun(n: nat)
    ensures DigitRun(Show(n), Decimal) == |Show(n)|
  {
    ShowIsDigits(n);
    DigitRunOfDigits(Show(n), Decimal);
  }
}
