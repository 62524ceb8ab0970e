/**
 * JavaScript values as the admin pages see them: scalar values that come
 * from a JSON response or from a form control, their truthiness, the
 * global `parseInt` (called without a radix everywhere in the pages) and
 * the decimal text that `String(n)` gives for an integral number.
 */
module JsValues {

  datatype Option<+T> = None | Some(value: T)

  /** A scalar value read from a server record or a form control: a string,
      an integral number, or null/undefined (which the pages never tell apart). */
  datatype Scalar = Text(s: string) | Number(n: int) | Absent

  /** JavaScript truthiness: `!v` holds exactly when `!Truthy(v)`. */
  predicate Truthy(v: Scalar) {
    match v
    case Text(s) => s != ""
    case Number(n) => n != 0
    case Absent => false
  }

  /** The result of `parseInt`: NaN or an integer. */
  datatype ParsedInt = NaN | Num(n: int)

  /** Truthiness of a `parseInt` result: NaN and 0 (also -0) are falsy. */
  predicate ParsedTruthy(p: ParsedInt) {
    p.Num? && p.n != 0
  }

  /** A parse with 1 in place of a falsy result: NaN or 0 becomes 1, any other
      integer, negative ones included, is kept. */
  function OrOne(p: ParsedInt): (q: int)
    ensures q != 0
    ensures ParsedTruthy(p) ==> q == p.n
    ensures !ParsedTruthy(p) ==> q == 1
  {
    if ParsedTruthy(p) then p.n else 1
  }

  /** The characters JavaScript's StrWhiteSpaceChar production admits:
      the white-space and line-terminator code points. */
  predicate IsJsWhitespace(c: char) {
    c == '\t' || c == '\n' || c == '\U{B}' || c == '\U{C}' || c == '\r' || c == ' '
    || c == '\U{A0}' || c == '\U{1680}' || ('\U{2000}' <= c <= '\U{200A}')
    || c == '\U{2028}' || c == '\U{2029}' || c == '\U{202F}' || c == '\U{205F}'
    || c == '\U{3000}' || c == '\U{FEFF}'
  }

  predicate IsDecDigit(c: char) {
    '0' <= c <= '9'
  }

  predicate IsHexDigit(c: char) {
    IsDecDigit(c) || 'a' <= c <= 'f' || 'A' <= c <= 'F'
  }

  /** A digit of radix 16 when `hex`, of radix 10 otherwise. */
  predicate IsDigit(c: char, hex: bool) {
    if hex then IsHexDigit(c) else IsDecDigit(c)
  }

  function DigitValue(c: char): (d: nat)
    requires IsHexDigit(c)
    ensures IsDecDigit(c) ==> d < 10
    ensures d < 16
  {
    if IsDecDigit(c) then c as int - '0' as int
    else if 'a' <= c <= 'f' then c as int - 'a' as int + 10
    else c as int - 'A' as int + 10
  }

  /** `s` with its leading white space removed. */
  function TrimStart(s: string): string {
    if s != [] && IsJsWhitespace(s[0]) then TrimStart(s[1..]) else s
  }

  /** Trimming removes exactly the leading white space: what is left is a
      suffix that does not start with white space, and all that was removed
      is white space. */
  lemma {:induction false} TrimStartSkipsWhitespace(s: string)
    ensures var t := TrimStart(s);
      && |t| <= |s| && t == s[|s| - |t|..]
      && (forall i | 0 <= i < |s| - |t| :: IsJsWhitespace(s[i]))
      && (t == [] || !IsJsWhitespace(t[0]))
  {
    if s != [] && IsJsWhitespace(s[0]) {
      TrimStartSkipsWhitespace(s[1..]);
    }
  }

  /** The longest prefix of `s` made of digits of the radix. */
  function DigitPrefix(s: string, hex: bool): string {
    if s != [] && IsDigit(s[0], hex) then [s[0]] + DigitPrefix(s[1..], hex) else []
  }

  /** The digit prefix is a prefix of `s`, holds only digits of the radix,
      and stops only at the end or at a character that is not one. */
  lemma {:induction false} DigitPrefixIsLongestRun(s: string, hex: bool)
    ensures var d := DigitPrefix(s, hex);
      && |d| <= |s| && d == s[..|d|]
      && (forall i | 0 <= i < |d| :: IsDigit(d[i], hex))
      && (|d| < |s| ==> !IsDigit(s[|d|], hex))
  {
    if s != [] && IsDigit(s[0], hex) {
      DigitPrefixIsLongestRun(s[1..], hex);
      var d := DigitPrefix(s, hex);
      var d' := DigitPrefix(s[1..], hex);
      assert d == [s[0]] + d';
      forall i | 0 <= i < |d| ensures IsDigit(d[i], hex) {
        if i > 0 { assert d[i] == d'[i - 1]; }
      }
    }
  }

  /** The value of a digit string, most significant digit first. */
  function DigitsValue(d: string, radix: nat): nat
    requires forall i | 0 <= i < |d| :: IsHexDigit(d[i])
  {
    if d == [] then 0 else DigitsValue(d[..|d| - 1], radix) * radix + DigitValue(d[|d| - 1])
  }

  /** True when `u` starts with the prefix that makes a radix-less `parseInt`
      read hexadecimal. */
  predicate HasHexPrefix(u: string) {
    |u| >= 2 && u[0] == '0' && (u[1] == 'x' || u[1] == 'X')
  }

  /** The global `parseInt(s)` with no radix: leading white space is skipped,
      one optional sign is read, a "0x"/"0X" prefix selects radix 16, and the
      longest run of digits that follows is the value; without a digit the
      result is NaN. Trailing characters are ignored ("12px" is 12). */
  function ParseInt(s: string): ParsedInt {
    var u := Unsigned(s);
    var hex := HasHexPrefix(u);
    var body := if hex then u[2..] else u;
    if DigitPrefix(body, hex) == [] then NaN
    else
      var m: int := RunValue(body, hex);
      Num(if IsNegative(s) then -m else m)
  }

  /** The value of the digit run `parseInt` reads at the start of `s`. */
  function RunValue(s: string, hex: bool): nat {
    DigitPrefixIsLongestRun(s, hex);
    DigitsValue(DigitPrefix(s, hex), if hex then 16 else 10)
  }

  /** Whether the text after the leading white space starts with '-'. */
  predicate IsNegative(s: string) {
    var t := TrimStart(s);
    |t| > 0 && t[0] == '-'
  }

  /** The text after the leading white space and the optional sign. */
  function Unsigned(s: string): string {
    var t := TrimStart(s);
    if |t| > 0 && (t[0] == '-' || t[0] == '+') then t[1..] else t
  }

  /** `parseInt(v)` for any scalar: the value is first turned into text. */
  function ParseIntValue(v: Scalar): (p: ParsedInt)
    ensures v.Number? ==> p == Num(v.n)
    ensures v.Absent? ==> p == NaN
  {
    match v
    case Text(s) => ParseInt(s)
    case Number(n) => ParseIntRoundTrip(n); ParseInt(IntToString(n))
    case Absent => ParseIntOfWord("undefined"); ParseInt("undefined")
  }

  function DecimalChar(d: nat): (c: char)
    requires d < 10
    ensures IsDecDigit(c) && DigitValue(c) == d
  {
    ('0' as int + d) as char
  }

  /** The decimal text of a natural number, without leading zeros. */
  function NatToDecimal(n: nat): (s: string)
    ensures |s| > 0
    ensures forall i | 0 <= i < |s| :: IsDecDigit(s[i])
    ensures s[0] == '0' ==> s == "0"
  {
    if n < 10 then [DecimalChar(n)] else NatToDecimal(n / 10) + [DecimalChar(n % 10)]
  }

  /** `String(n)` for an integral number. */
  function IntToString(n: int): string {
    if n < 0 then "-" + NatToDecimal(-n) else NatToDecimal(n)
  }

  lemma {:induction false} DecimalValue(n: nat)
    ensures DigitsValue(NatToDecimal(n), 10) == n
  {
    if n >= 10 {
      var s := NatToDecimal(n);
      assert s[..|s| - 1] == NatToDecimal(n / 10);
      DecimalValue(n / 10);
    }
  }

  lemma {:induction false} DigitPrefixOfDigits(s: string)
    requires forall i | 0 <= i < |s| :: IsDecDigit(s[i])
    ensures DigitPrefix(s, false) == s
  {
    if s != [] {
      DigitPrefixOfDigits(s[1..]);
    }
  }

  /** The decimal text of `n` parses back to `n`: the text an option value
      is rendered with parses to the id it was rendered from. Integers here
      are exact; a JavaScript number agrees with them only up to 2^53 in
      magnitude, and `String` switches to exponent form from 1e21 on. */
  lemma ParseIntRoundTrip(n: int)
    ensures ParseInt(IntToString(n)) == Num(n)
  {
    var s := IntToString(n);
    var m: nat := if n < 0 then -n else n;
    var digits := NatToDecimal(m);
    assert TrimStart(s) == s;
    assert Unsigned(s) == digits;
    assert !HasHexPrefix(digits);
    DigitPrefixOfDigits(digits);
    DecimalValue(m);
  }

  /** Text that starts with something other than white space, a sign or a
      digit parses to NaN. */
  lemma ParseIntOfWord(s: string)
    requires s != [] && !IsJsWhitespace(s[0]) && s[0] != '-' && s[0] != '+' && !IsDecDigit(s[0])
    ensures ParseInt(s) == NaN
  {
    assert TrimStart(s) == s;
  }

  /** Nothing left after the white space and the sign parses to NaN. */
  lemma ParseIntOfNothing(s: string)
    requires Unsigned(s) == []
    ensures ParseInt(s) == NaN
  {
  }

  /** The empty text (the placeholder option) parses to NaN. */
  lemma ParseIntEmpty()
    ensures ParseInt("") == NaN
  {
    ParseIntOfNothing("");
  }

  /** A sign with no digit after it parses to NaN. */
  lemma ParseIntSignOnly(c: char)
    requires c == '-' || c == '+'
    ensures ParseInt([c]) == NaN
  {
    assert Unsigned([c]) == [] by {
      assert TrimStart([c]) == [c];
    }
    ParseIntOfNothing([c]);
  }

  /** Text with no digit after the optional sign parses to NaN. */
  lemma ParseIntNoDigits()
    ensures ParseInt("abc") == NaN && ParseInt("") == NaN && ParseInt("-") == NaN
  {
    ParseIntOfWord("abc");
    ParseIntEmpty();
    ParseIntSignOnly('-');
    assert "-" == ['-'];
  }

  /** The decimal text of a single digit is that digit. */
  lemma DigitText(d: nat)
    requires d < 10
    ensures IntToString(d) == [DecimalChar(d)]
    ensures IntToString(-(d as int)) == if d == 0 then [DecimalChar(0)] else "-" + [DecimalChar(d)]
  {
  }

  /** Decimal text, with or without a sign, parses to its value. */
  lemma ParseIntDecimal()
    ensures ParseInt("0") == Num(0) && ParseInt("5") == Num(5) && ParseInt("-3") == Num(-3)
  {
    DigitText(0);
    assert [DecimalChar(0)] == "0";
    ParseIntRoundTrip(0);
    DigitText(5);
    assert [DecimalChar(5)] == "5";
    ParseIntRoundTrip(5);
    DigitText(3);
    assert "-" + [DecimalChar(3)] == "-3";
    ParseIntRoundTrip(-3);
  }

  /** A "0x" prefix selects hexadecimal, and needs a digit after it. */
  lemma ParseIntHex()
    ensures ParseInt("0x1A") == Num(26) && ParseInt("0x") == NaN
  {
    assert TrimStart("0x1A") == "0x1A";
    assert Unsigned("0x1A") == "0x1A" && !IsNegative("0x1A");
    assert HasHexPrefix("0x1A");
    assert "0x1A"[2..] == "1A";
    assert DigitPrefix("", true) == "";
    assert DigitPrefix("A", true) == "A";
    assert DigitPrefix("1A", true) == "1A";
    assert "1A"[..1] == "1";
    assert "1"[..0] == "";
    assert DigitsValue("1", 16) == 1;
    assert DigitsValue("1A", 16) == 26;
    assert TrimStart("0x") == "0x";
    assert Unsigned("0x") == "0x";
    assert "0x"[2..] == "";
  }

  /** Leading white space does not change what `parseInt` reads. */
  lemma ParseIntSkipsWhitespace(c: char, s: string)
    requires IsJsWhitespace(c)
    ensures ParseInt([c] + s) == ParseInt(s)
  {
    assert ([c] + s)[1..] == s;
    assert TrimStart([c] + s) == TrimStart(s);
  }

  /** Text that starts with a decimal digit and is not "0x..." parses to the
      value of its leading digit run, whatever follows it. */
  lemma ParseIntDecimalRun(s: string)
    requires s != [] && IsDecDigit(s[0]) && !HasHexPrefix(s)
    ensures ParseInt(s) == Num(RunValue(s, false))
  {
    assert TrimStart(s) == s;
  }

  /** Trailing text after the digits is ignored and leading white space is
      skipped: `parseInt(" 12px")` is 12. */
  lemma ParseIntIgnoresTrailingText()
    ensures ParseInt(" 12px") == Num(12)
  {
    assert " 12px" == [' '] + "12px";
    ParseIntSkipsWhitespace(' ', "12px");
    ParseIntDecimalRun("12px");
    assert DigitPrefix("12px", false) == "12" by {
      assert "12px"[1..] == "2px" && "2px"[1..] == "px";
      assert DigitPrefix("px", false) == "";
    }
    assert DigitsValue("12", 10) == 12 by {
      assert "12"[..1] == "1" && "1"[..0] == "";
    }
  }

  /** The coerced parse on a few inputs of the quantity field. */
  lemma OrOneExamples()
    ensures OrOne(ParseInt("abc")) == 1 && OrOne(ParseInt("0")) == 1
    ensures OrOne(ParseInt("5")) == 5 && OrOne(ParseInt("-3")) == -3
  {
    ParseIntNoDigits();
    ParseIntDecimal();
  }
}
