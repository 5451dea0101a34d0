/** PHP's `intval` on a string, as the plugin applies it to request parameters
    (`$_GET['id']`, `$_POST['slider_id']`, `$_POST['slide_image_id']`), on a 64-bit build. */
module PhpNumber {
  import opened Numerals

  const PhpIntMax: int := 0x7FFF_FFFF_FFFF_FFFF
  const PhpIntMin: int := -0x8000_0000_0000_0000

  /** The white space PHP skips in front of a numeric string: space, tab, line feed,
      carriage return, vertical tab and form feed. */
  predicate IsPhpWhiteSpace(c: char)
  {
    c == ' ' || c == '\t' || c == '\n' || c == '\r' || c == '\U{000B}' || c == '\U{000C}'
  }

  /** `s` without its leading white space. */
  function SkipBlanks(s: string): (r: string)
    ensures |r| <= |s| && r == s[|s| - |r|..]
    ensures r != [] ==> !IsPhpWhiteSpace(r[0])
  {
    if s != [] && IsPhpWhiteSpace(s[0]) then SkipBlanks(s[1..]) else s
  }

  /** Everything `SkipBlanks` drops is white space. */
  lemma {:induction false} SkipBlanksDropsWhiteSpace(s: string)
    ensures forall i :: 0 <= i < |s| - |SkipBlanks(s)| ==> IsPhpWhiteSpace(s[i])
  {
    if s != [] && IsPhpWhiteSpace(s[0]) {
      var t := s[1..];
      SkipBlanksDropsWhiteSpace(t);
      assert SkipBlanks(s) == SkipBlanks(t);
      forall i | 1 <= i < |s| - |SkipBlanks(s)|
        ensures IsPhpWhiteSpace(s[i])
      {
        assert s[i] == t[i - 1];
      }
    }
  }

  /** An integer outside the 64-bit range is clamped to its nearest end. */
  function Saturate(v: int): (r: int)
    ensures PhpIntMin <= r <= PhpIntMax
    ensures PhpIntMin <= v <= PhpIntMax ==> r == v
    ensures v > PhpIntMax ==> r == PhpIntMax
    ensures v < PhpIntMin ==> r == PhpIntMin
  {
    if v > PhpIntMax then PhpIntMax else if v < PhpIntMin then PhpIntMin else v
  }

  /** The value of the longest run of decimal digits at the start of `u` (0 for none). */
  function LeadingDecimal(u: string): nat
  {
    ValueIn(u[..DigitRun(u, Decimal)], Decimal)
  }

  /** `intval(s)` for a string `s`: leading white space, an optional sign, then the
      longest run of decimal digits, clamped to the 64-bit range; no digits gives 0. */
  function IntVal(s: string): (r: int)
    ensures PhpIntMin <= r <= PhpIntMax
  {
    var t := SkipBlanks(s);
    if t != [] && t[0] == '-' then Saturate(-(LeadingDecimal(t[1..]) as int))
    else if t != [] && t[0] == '+' then Saturate(LeadingDecimal(t[1..]))
    else Saturate(LeadingDecimal(t))
  }

  lemma LeadingDecimalOfShow(n: nat)
    ensures LeadingDecimal(Show(n)) == n
  {
    var u := Show(n);
    ShowIsDigitRun(n);
    ValueOfShow(n);
    assert u[..DigitRun(u, Decimal)] == u;
  }

  /** Round trip: `intval` reads back every 64-bit integer printed in decimal, as the
      admin links print the row ids they pass in `&id=`. */
  lemma IntValOfShow(k: int)
    requires PhpIntMin <= k <= PhpIntMax
    ensures IntVal(ShowInt(k)) == k
  {
    if k < 0 {
      IntValOfNegative(k);
    } else {
      IntValOfNatural(k);
    }
  }

  lemma IntValOfNegative(k: int)
    requires PhpIntMin <= k < 0
    ensures IntVal(ShowInt(k)) == k
  {
    var d := Show(-k);
    var s := ShowInt(k);
    assert s == "-" + d;
    assert s[0] == '-' && !IsPhpWhiteSpace('-');
    assert SkipBlanks(s) == s;
    assert s[1..] == d;
    LeadingDecimalOfShow(-k);
    assert IntVal(s) == Saturate(-(LeadingDecimal(d) as int));
  }

  lemma IntValOfNatural(k: int)
    requires 0 <= k <= PhpIntMax
    ensures IntVal(ShowInt(k)) == k
  {
    var d := ShowInt(k);
    assert d == Show(k);
    ShowIsDigits(k);
    assert IsDigitIn(d[0], Decimal);
    assert !IsPhpWhiteSpace(d[0]) && d[0] != '-' && d[0] != '+' by {
      assert '0' <= d[0] <= '9';
    }
    assert SkipBlanks(d) == d;
    LeadingDecimalOfShow(k);
  }

  /** A numeral beyond the 64-bit range reads as the largest integer. */
  lemma IntValSaturates(n: nat)
    requires n > PhpIntMax
    ensures IntVal(Show(n)) == PhpIntMax
  {
    var s := Show(n);
    ShowIsDigits(n);
    assert IsDigitIn(s[0], Decimal);
    assert !IsPhpWhiteSpace(s[0]) && s[0] != '-' && s[0] != '+' by {
      assert '0' <= s[0] <= '9';
    }
    assert SkipBlanks(s) == s;
    LeadingDecimalOfShow(n);
  }

  /** A string that does not start with white space, a sign or a digit reads as 0. */
  lemma IntValOfNonNumeric(s: string)
    requires s == [] || !(IsPhpWhiteSpace(s[0]) || s[0] == '+' || s[0] == '-' || IsDigitIn(s[0], Decimal))
    ensures IntVal(s) == 0
  {
    assert SkipBlanks(s) == s;
    assert DigitRun(s, Decimal) == 0;
  }
}
