/**
  Which strings Python's `float(...)` accepts. The parser converts every number it
  matches with `float`, and a string outside this grammar makes `float` raise
  `ValueError`:

    floatvalue    ::= [sign] (floatnumber | "inf" | "infinity" | "nan")   (any letter case)
    floatnumber   ::= number [("e" | "E") [sign] digitpart]
    number        ::= [digitpart] "." digitpart | digitpart ["."]
    digitpart     ::= digit (["_"] digit)*

  surrounded by optional white space. The white space `float` removes is that of
  `str.isspace()` except the four ASCII separators U+001C to U+001F: `float` keeps
  those, so a literal next to one of them is rejected.
 */
module FloatLiteral {
  import opened Text

  /** `digit (["_"] digit)*`: digits, with single underscores between two digits. */
  predicate IsDigitPart(s: string) {
    && s != [] && IsDigit(s[0])
    && (|s| == 1 || IsDigitPart(s[1..]) || (s[1] == '_' && IsDigitPart(s[2..])))
  }

  /** `[digitpart] "." digitpart | digitpart ["."]`. */
  predicate IsNumber(s: string) {
    var k := IndexOf(s, '.');
    if k == |s| then IsDigitPart(s)
    else
      var whole, fraction := s[..k], s[k + 1..];
      ((whole == [] || IsDigitPart(whole)) && IsDigitPart(fraction))
      || (IsDigitPart(whole) && fraction == [])
  }

  /** The part after `e`: `[sign] digitpart`. */
  predicate IsExponent(s: string) {
    if s != [] && (s[0] == '+' || s[0] == '-') then IsDigitPart(s[1..]) else IsDigitPart(s)
  }

  /** `number [exponent]`. */
  predicate IsFloatNumber(s: string) {
    var k := IndexOf(s, 'e');
    var k' := IndexOf(s, 'E');
    var e := if k < k' then k else k';
    if e == |s| then IsNumber(s) else IsNumber(s[..e]) && IsExponent(s[e + 1..])
  }

  function ToLower(c: char): char {
    if 'A' <= c <= 'Z' then (c as int + 32) as char else c
  }

  function LowerCase(s: string): string {
    if s == [] then [] else [ToLower(s[0])] + LowerCase(s[1..])
  }

  /** `inf`, `infinity` and `nan`, in any letter case. */
  predicate IsSpecial(s: string) {
    var l := LowerCase(s);
    l == "inf" || l == "infinity" || l == "nan"
  }

  /** The white space `float` removes around its argument: `str.isspace()` without U+001C to U+001F. */
  predicate IsFloatSpace(c: char) {
    IsSpace(c) && !('\U{1C}' <= c <= '\U{1F}')
  }

  predicate AllFloatSpace(s: string) {
    forall i :: 0 <= i < |s| ==> IsFloatSpace(s[i])
  }

  /** The end of the run of `float` white space that starts at `i`. */
  function FloatSpaceEnd(s: string, i: nat): (k: nat)
    requires i <= |s|
    ensures i <= k <= |s|
    ensures forall m :: i <= m < k ==> IsFloatSpace(s[m])
    ensures k < |s| ==> !IsFloatSpace(s[k])
    decreases |s| - i
  {
    if i == |s| || !IsFloatSpace(s[i]) then i else FloatSpaceEnd(s, i + 1)
  }

  /** The start of the `float` white space that ends `s[lo..]`. */
  function FloatTrailStart(s: string, lo: nat): (k: nat)
    requires lo <= |s|
    ensures lo <= k <= |s|
    ensures forall m :: k <= m < |s| ==> IsFloatSpace(s[m])
    ensures k > lo ==> !IsFloatSpace(s[k - 1])
    decreases |s| - lo
  {
    if lo == |s| then lo
    else if IsFloatSpace(s[|s| - 1]) then FloatTrailStart(s[..|s| - 1], lo)
    else |s|
  }

  /** What `float` parses: its argument without the `float` white space at either end. */
  function FloatStrip(s: string): (r: string)
    ensures exists i, j :: 0 <= i <= j <= |s| && r == s[i..j] && AllFloatSpace(s[..i]) && AllFloatSpace(s[j..])
    ensures r != [] ==> !IsFloatSpace(r[0]) && !IsFloatSpace(r[|r| - 1])
  {
    var i := FloatSpaceEnd(s, 0);
    var j := FloatTrailStart(s, i);
    assert AllFloatSpace(s[..i]) && AllFloatSpace(s[j..]);
    s[i..j]
  }

  /** Stripping removes exactly the `float` white space around a text that begins and ends with other characters. */
  lemma FloatStripAround(lead: string, x: string, trail: string)
    requires AllFloatSpace(lead) && AllFloatSpace(trail)
    requires x != [] && !IsFloatSpace(x[0]) && !IsFloatSpace(x[|x| - 1])
    ensures FloatStrip(lead + x + trail) == x
  {
    var s := lead + x + trail;
    var i := FloatSpaceEnd(s, 0);
    assert s[|lead|] == x[0];
    assert i == |lead|;
    var j := FloatTrailStart(s, i);
    assert s[|lead| + |x| - 1] == x[|x| - 1];
    assert j == |lead| + |x|;
    assert s[i..j] == x;
  }

  /** `float(s)` returns a value instead of raising. */
  predicate IsFloatLiteral(s: string) {
    var t := FloatStrip(s);
    var body := if t != [] && (t[0] == '+' || t[0] == '-') then t[1..] else t;
    IsFloatNumber(body) || IsSpecial(body)
  }

  lemma {:induction false} AllDigitsIsDigitPart(s: string)
    requires s != [] && AllDigits(s)
    ensures IsDigitPart(s)
  {
    if |s| > 1 {
      AllDigitsIsDigitPart(s[1..]);
    }
  }

  lemma DigitsHaveNoMarks(s: string)
    requires AllDigits(s)
    ensures IndexOf(s, '.') == |s| && IndexOf(s, 'e') == |s| && IndexOf(s, 'E') == |s|
  {
    IndexOfAbsent(s, '.');
    IndexOfAbsent(s, 'e');
    IndexOfAbsent(s, 'E');
  }

  predicate NoExponentMark(s: string) {
    forall i :: 0 <= i < |s| ==> s[i] != 'e' && s[i] != 'E'
  }

  /** `digits [. digits]` is a `number`. */
  lemma NumberAccepted(whole: string, fraction: string)
    requires whole != [] && AllDigits(whole) && AllDigits(fraction)
    ensures IsNumber(whole + Fraction(fraction)) && NoExponentMark(whole + Fraction(fraction))
  {
    if fraction == [] {
      WholeNumber(whole);
      FractionText(whole, fraction);
    } else {
      FractionNumber(whole, fraction);
      FractionText(whole, fraction);
    }
  }

  lemma FractionText(whole: string, fraction: string)
    ensures whole + Fraction(fraction) == if fraction == [] then whole else whole + ['.'] + fraction
  {
    if fraction == [] {
      assert whole + [] == whole;
    }
  }

  lemma WholeNumber(whole: string)
    requires whole != [] && AllDigits(whole)
    ensures IsNumber(whole) && NoExponentMark(whole)
  {
    DigitsHaveNoMarks(whole);
    AllDigitsIsDigitPart(whole);
  }

  lemma FractionNumber(whole: string, fraction: string)
    requires whole != [] && AllDigits(whole) && fraction != [] && AllDigits(fraction)
    ensures IsNumber(whole + ['.'] + fraction) && NoExponentMark(whole + ['.'] + fraction)
  {
    var number := whole + ['.'] + fraction;
    DigitsHaveNoMarks(whole);
    AllDigitsIsDigitPart(whole);
    AllDigitsIsDigitPart(fraction);
    IndexOfAfter(whole, '.', fraction);
    assert number[..|whole|] == whole && number[|whole| + 1..] == fraction;
  }

  lemma ExponentAccepted(expSign: string, exponent: string)
    requires expSign == "" || expSign == "+" || expSign == "-"
    requires exponent != [] && AllDigits(exponent)
    ensures IsExponent(expSign + exponent)
  {
    AllDigitsIsDigitPart(exponent);
    if expSign != "" {
      assert (expSign + exponent)[1..] == exponent;
    } else {
      assert expSign + exponent == exponent;
    }
  }

  lemma FloatNumberWithExponent(number: string, tail: string)
    requires IsNumber(number) && NoExponentMark(number)
    requires IsExponent(tail)
    ensures IsFloatNumber(number + ['e'] + tail)
  {
    var body := number + ['e'] + tail;
    IndexOfAfter(number, 'e', tail);
    IndexOfBeyond(body, 'E', |number| + 1);
    assert body[..|number|] == number;
    assert body[|number| + 1..] == tail;
  }

  /** The optional `. digits` of a decimal literal. */
  function Fraction(fraction: string): string {
    if fraction == [] then [] else ['.'] + fraction
  }

  /** The optional `e [sign] digits` of a decimal literal. */
  function Exponent(expSign: string, exponent: string): string {
    if exponent == [] then [] else ['e'] + (expSign + exponent)
  }

  /** A `number` followed by an optional `e [sign] digits` is a `floatnumber`. */
  lemma FloatNumberAccepted(number: string, expSign: string, exponent: string)
    requires IsNumber(number) && NoExponentMark(number)
    requires expSign == "" || expSign == "+" || expSign == "-"
    requires AllDigits(exponent)
    ensures IsFloatNumber(number + Exponent(expSign, exponent))
  {
    if exponent == [] {
      FloatNumberWithoutExponent(number);
      ExponentText(number, expSign, exponent);
    } else {
      ExponentAccepted(expSign, exponent);
      FloatNumberWithExponent(number, expSign + exponent);
      ExponentText(number, expSign, exponent);
    }
  }

  lemma ExponentText(number: string, expSign: string, exponent: string)
    ensures number + Exponent(expSign, exponent)
         == if exponent == [] then number else number + ['e'] + (expSign + exponent)
  {
    if exponent == [] {
      assert number + [] == number;
    }
  }

  lemma FloatNumberWithoutExponent(number: string)
    requires IsNumber(number) && NoExponentMark(number)
    ensures IsFloatNumber(number)
  {
    IndexOfAbsent(number, 'e');
    IndexOfAbsent(number, 'E');
  }

  /** A signed `floatnumber` that begins and ends with a digit is accepted, with any `float` white space around it. */
  lemma SignedAccepted(lead: string, sign: string, body: string, trail: string)
    requires AllFloatSpace(lead) && AllFloatSpace(trail)
    requires sign == "" || sign == "+" || sign == "-"
    requires IsFloatNumber(body) && body != [] && IsDigit(body[0]) && IsDigit(body[|body| - 1])
    ensures IsFloatLiteral(lead + (sign + body) + trail)
  {
    var lit := sign + body;
    SignedEnds(sign, body);
    FloatStripAround(lead, lit, trail);
    SignedBody(sign, body);
  }

  lemma SignedEnds(sign: string, body: string)
    requires sign == "" || sign == "+" || sign == "-"
    requires body != [] && IsDigit(body[0]) && IsDigit(body[|body| - 1])
    ensures var lit := sign + body; lit != [] && !IsFloatSpace(lit[0]) && !IsFloatSpace(lit[|lit| - 1])
  {
    var lit := sign + body;
    assert lit[|sign|] == body[0];
    assert lit[|lit| - 1] == body[|body| - 1];
  }

  /** The sign `IsFloatLiteral` takes off a signed literal is the one in front of it. */
  lemma SignedBody(sign: string, body: string)
    requires sign == "" || sign == "+" || sign == "-"
    requires body != [] && IsDigit(body[0])
    ensures var lit := sign + body;
            (if lit != [] && (lit[0] == '+' || lit[0] == '-') then lit[1..] else lit) == body
  {
    var lit := sign + body;
    if sign == "" {
      assert lit == body;
    } else {
      assert lit[1..] == body;
    }
  }

  /** `[sign] digits [. digits] [e [sign] digits]`. */
  function DecimalText(sign: string, whole: string, fraction: string, expSign: string, exponent: string): string {
    sign + (whole + Fraction(fraction) + Exponent(expSign, exponent))
  }

  lemma DecimalEnds(whole: string, fraction: string, expSign: string, exponent: string)
    requires whole != [] && AllDigits(whole) && AllDigits(fraction) && AllDigits(exponent)
    ensures var body := whole + Fraction(fraction) + Exponent(expSign, exponent);
      body != [] && IsDigit(body[0]) && IsDigit(body[|body| - 1])
  {
    var body := whole + Fraction(fraction) + Exponent(expSign, exponent);
    assert body[0] == whole[0];
    if exponent != [] {
      assert body[|body| - 1] == exponent[|exponent| - 1];
    } else if fraction != [] {
      assert body[|body| - 1] == fraction[|fraction| - 1];
    } else {
      assert body[|body| - 1] == whole[|whole| - 1];
    }
  }

  /**
    Every decimal literal, the form solver logs print residuals and times in,
    is accepted, with any `float` white space around it.
   */
  lemma DecimalAccepted(lead: string, sign: string, whole: string, fraction: string,
                        expSign: string, exponent: string, trail: string)
    requires AllFloatSpace(lead) && AllFloatSpace(trail)
    requires sign == "" || sign == "+" || sign == "-"
    requires expSign == "" || expSign == "+" || expSign == "-"
    requires whole != [] && AllDigits(whole) && AllDigits(fraction) && AllDigits(exponent)
    ensures IsFloatLiteral(lead + DecimalText(sign, whole, fraction, expSign, exponent) + trail)
  {
    DecimalBody(whole, fraction, expSign, exponent);
    SignedAccepted(lead, sign, whole + Fraction(fraction) + Exponent(expSign, exponent), trail);
  }

  /** An unsigned decimal literal is a `floatnumber` that begins and ends with a digit. */
  lemma DecimalBody(whole: string, fraction: string, expSign: string, exponent: string)
    requires expSign == "" || expSign == "+" || expSign == "-"
    requires whole != [] && AllDigits(whole) && AllDigits(fraction) && AllDigits(exponent)
    ensures var body := whole + Fraction(fraction) + Exponent(expSign, exponent);
            IsFloatNumber(body) && body != [] && IsDigit(body[0]) && IsDigit(body[|body| - 1])
  {
    NumberAccepted(whole, fraction);
    FloatNumberAccepted(whole + Fraction(fraction), expSign, exponent);
    DecimalEnds(whole, fraction, expSign, exponent);
  }

  /**
    The separators U+001C to U+001F are white space to `str.strip()` but not to `float`: a
    number after one of them is rejected.
   */
  lemma SeparatorNotStripped()
    ensures !IsFloatLiteral("\U{1C}1")
  {
    var s := "\U{1C}1";
    assert !IsFloatSpace(s[0]) && !IsFloatSpace(s[1]);
    assert FloatSpaceEnd(s, 0) == 0;
    assert FloatTrailStart(s, 0) == |s|;
    assert FloatStrip(s) == s;
    NotADigitPart(s);
    IndexOfAbsent(s, '.');
    IndexOfAbsent(s, 'e');
    IndexOfAbsent(s, 'E');
    assert !IsFloatNumber(s);
    assert LowerCase(s)[0] == '\U{1C}';
    assert !IsSpecial(s);
  }

  lemma NotADigitPart(s: string)
    requires s != [] && !IsDigit(s[0])
    ensures !IsDigitPart(s)
  {
  }

  /** The same number after a blank, which both strip, is accepted. */
  lemma BlankStripped()
    ensures IsFloatLiteral(" 1")
  {
    DecimalAccepted(" ", "", "1", "", "", "", "");
    assert " " + DecimalText("", "1", "", "", "") + "" == " 1";
  }
}
