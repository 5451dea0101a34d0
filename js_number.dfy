/** The JavaScript values the slide navigation computes with: the Number that `parseInt`
    returns (an integer or NaN), the `|| 1` fallback, `String.prototype.replace` with a
    string pattern, and the URL fragment `#truth<k>` that the navigation reads and writes. */
module JsNumber {
  import opened Numerals

  /** A JavaScript Number as `parseInt` produces it: NaN or an integer
      (negative zero is folded into zero, which behaves the same in every use below). */
  datatype Num = NaN | Int(v: int)

  /** StrWhiteSpaceChar of ECMA-262 (section 7.1.4.1): the white space and line
      terminators that `parseInt` skips before the numeral. */
  predicate IsStrWhiteSpace(c: char)
  {
    || '\U{0009}' <= c <= '\U{000D}' || c == ' ' || c == '\U{00A0}' || c == '\U{1680}'
    || '\U{2000}' <= c <= '\U{200A}' || c == '\U{2028}' || c == '\U{2029}' || c == '\U{202F}'
    || c == '\U{205F}' || c == '\U{3000}' || c == '\U{FEFF}'
  }

  /** `s` without its leading StrWhiteSpaceChar characters. */
  function TrimStart(s: string): (r: string)
    ensures |r| <= |s| && r == s[|s| - |r|..]
    ensures r != [] ==> !IsStrWhiteSpace(r[0])
  {
    if s != [] && IsStrWhiteSpace(s[0]) then TrimStart(s[1..]) else s
  }

  /** Everything `TrimStart` drops is white space. */
  lemma {:induction false} TrimStartDropsWhiteSpace(s: string)
    ensures forall i :: 0 <= i < |s| - |TrimStart(s)| ==> IsStrWhiteSpace(s[i])
  {
    if s != [] && IsStrWhiteSpace(s[0]) {
      var t := s[1..];
      TrimStartDropsWhiteSpace(t);
      assert TrimStart(s) == TrimStart(t);
      forall i | 1 <= i < |s| - |TrimStart(s)|
        ensures IsStrWhiteSpace(s[i])
      {
        assert s[i] == t[i - 1];
      }
    }
  }

  /** `parseInt(s)` without a radix argument (ECMA-262 section 19.2.5): skip white space,
      take an optional sign, read hexadecimal after `0x`/`0X` and decimal otherwise, stop at
      the first non-digit, and give NaN when no digit was read. */
  function ParseInt(s: string): Num
  {
    var t := TrimStart(s);
    if t != [] && t[0] == '-' then Negate(ParseMagnitude(t[1..]))
    else if t != [] && t[0] == '+' then ParseMagnitude(t[1..])
    else ParseMagnitude(t)
  }

  /** The unsigned part of `parseInt`: the radix is 16 after a `0x` or `0X` prefix and 10
      otherwise; the longest run of digits of that radix is read, and none gives NaN. */
  function ParseMagnitude(u: string): Num
  {
    var hex := |u| >= 2 && u[0] == '0' && (u[1] == 'x' || u[1] == 'X');
    var radix := if hex then Hexadecimal else Decimal;
    var w := if hex then u[2..] else u;
    var z := w[..DigitRun(w, radix)];
    if z == [] then NaN else Int(ValueIn(z, radix))
  }

  /** `-x`. */
  function Negate(x: Num): Num
  {
    match x
    case NaN => NaN
    case Int(v) => Int(-v)
  }

  /** `String(x)` for a Number. */
  function ShowNum(x: Num): string
  {
    match x
    case NaN => "NaN"
    case Int(v) => ShowInt(v)
  }

  /** `x - 1`. */
  function Minus1(x: Num): Num
  {
    match x
    case NaN => NaN
    case Int(v) => Int(v - 1)
  }

  /** `x || 1`: NaN and 0 are falsy and give 1; every other number passes through. */
  function OrOne(x: Num): (r: int)
    ensures r != 0
    ensures x.Int? && x.v != 0 ==> r == x.v
    ensures x.NaN? || x == Int(0) ==> r == 1
  {
    match x
    case NaN => 1
    case Int(v) => if v == 0 then 1 else v
  }

  /** `s.replace(pattern, replacement)` with a string pattern: only the first
      occurrence of `pattern` is replaced. */
  function ReplaceFirst(s: string, pattern: string, replacement: string): string
  {
    if |s| < |pattern| then s
    else if s[..|pattern|] == pattern then replacement + s[|pattern|..]
    else [s[0]] + ReplaceFirst(s[1..], pattern, replacement)
  }

  /** What `window.location.hash` reads after the handler assigned it `'truth' + x`:
      the browser puts the `#` in front. */
  function FragmentFor(x: Num): string
  {
    "#truth" + ShowNum(x)
  }

  /** `parseInt(hash.replace('#truth', ''))`. */
  function ParseFragment(hash: string): Num
  {
    ParseInt(ReplaceFirst(hash, "#truth", ""))
  }

  /** The position the arrow handlers and the reload pass read:
      `parseInt(hash.replace('#truth', '')) || 1`. */
  function PositionOrOne(hash: string): int
  {
    OrOne(ParseFragment(hash))
  }

  /** The position the first-set branch of `onCycleTo` reads: 1 for an empty hash,
      otherwise the parsed fragment with no fallback. */
  function FirstSetPosition(hash: string): Num
  {
    if hash == "" then Int(1) else ParseFragment(hash)
  }

  /** `parseInt` reads back every integer printed in decimal. */
  lemma ParseIntOfShow(k: int)
    ensures ParseInt(ShowInt(k)) == Int(k)
  {
    if k < 0 {
      ParseIntOfNegative(k);
    } else {
      ParseIntOfNatural(k);
    }
  }

  lemma ParseIntOfNegative(k: int)
    requires k < 0
    ensures ParseInt(ShowInt(k)) == Int(k)
  {
    var d := Show(-k);
    var s := ShowInt(k);
    assert s == "-" + d;
    assert s[0] == '-' && !IsStrWhiteSpace('-');
    assert TrimStart(s) == s;
    assert s[1..] == d;
    MagnitudeOfShow(-k);
    assert ParseInt(s) == Negate(ParseMagnitude(d));
  }

  lemma ParseIntOfNatural(k: int)
    requires k >= 0
    ensures ParseInt(ShowInt(k)) == Int(k)
  {
    var d := ShowInt(k);
    assert d == Show(k);
    ShowIsDigits(k);
    assert IsDigitIn(d[0], Decimal);
    assert !IsStrWhiteSpace(d[0]) by {
      assert '0' <= d[0] <= '9';
    }
    assert TrimStart(d) == d;
    MagnitudeOfShow(k);
  }

  /** The unsigned part reads back a decimal numeral. */
  lemma MagnitudeOfShow(n: nat)
    ensures ParseMagnitude(Show(n)) == Int(n)
  {
    var u := Show(n);
    assert !(|u| >= 2 && u[0] == '0');
    ShowIsDigitRun(n);
    ValueOfShow(n);
    assert u[..DigitRun(u, Decimal)] == u;
  }

  /** A string that starts with something other than white space, a sign or a digit
      (or is empty) parses to NaN. */
  lemma ParseIntOfNonNumeral(s: string)
    requires s == [] || !(IsStrWhiteSpace(s[0]) || s[0] == '+' || s[0] == '-' || IsDigitIn(s[0], Decimal))
    ensures ParseInt(s) == NaN
  {
    assert TrimStart(s) == s;
  }

  /** Replacing a pattern that the string starts with takes just that prefix off. */
  lemma ReplaceLeadingPattern(pattern: string, rest: string)
    ensures ReplaceFirst(pattern + rest, pattern, "") == rest
  {
    var s := pattern + rest;
    assert s[..|pattern|] == pattern;
    assert s[|pattern|..] == rest;
  }

  /** Round trip: the fragment written for position k is read back as k, by the arrow and
      reload handlers (with their `|| 1`) exactly as by the first-set branch, for every k >= 1. */
  lemma FragmentRoundTrip(k: int)
    ensures ParseFragment(FragmentFor(Int(k))) == Int(k)
    ensures FirstSetPosition(FragmentFor(Int(k))) == Int(k)
    ensures k != 0 ==> PositionOrOne(FragmentFor(Int(k))) == k
  {
    ReplaceLeadingPattern("#truth", ShowInt(k));
    ParseIntOfShow(k);
  }

  /** A fragment whose remainder after `#truth` is not numeric: the arrow and reload
      handlers treat it as position 1 because of `|| 1`, the first-set branch gets NaN. */
  lemma NonNumericFragment(rest: string)
    requires rest == [] || !(IsStrWhiteSpace(rest[0]) || rest[0] == '+' || rest[0] == '-' || IsDigitIn(rest[0], Decimal))
    ensures ParseFragment("#truth" + rest) == NaN
    ensures PositionOrOne("#truth" + rest) == 1
    ensures FirstSetPosition("#truth" + rest) == NaN
  {
    ReplaceLeadingPattern("#truth", rest);
    ParseIntOfNonNumeral(rest);
  }

  /** No fragment: the arrow and reload handlers read position 1, and the first-set branch
      does not parse at all. */
  lemma EmptyFragment()
    ensures PositionOrOne("") == 1
    ensures FirstSetPosition("") == Int(1)
  {
    assert ReplaceFirst("", "#truth", "") == "";
    ParseIntOfNonNumeral("");
  }

  /** `#truth0`: the arrow and reload handlers read position 1, the first-set branch reads 0. */
  lemma ZeroFragment()
    ensures PositionOrOne("#truth0") == 1
    ensures FirstSetPosition("#truth0") == Int(0)
  {
    FragmentRoundTrip(0);
    assert FragmentFor(Int(0)) == "#truth0";
  }
}
