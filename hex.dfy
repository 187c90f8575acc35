/** The conventional Some/None datatype, used where the source returns `null`. */
module Wrappers {
  datatype Option<T> = None | Some(value: T)
}

/**
 * Hexadecimal colour text and its RGB triple: the widget's `hexToRgb` parser,
 * the stricter pattern that admits text typed into the hex field, and the
 * formatting that the parser inverts (the 6-digit form of the CSS hexadecimal
 * RGB notation, section 5.2 of CSS Color Module Level 4).
 */
module HexColor {
  import opened Wrappers

  /** The `{r, g, b}` object the widget passes around. */
  datatype Rgb = Rgb(r: int, g: int, b: int)

  /** Every channel is a byte. */
  predicate InRange(c: Rgb) {
    0 <= c.r < 256 && 0 <= c.g < 256 && 0 <= c.b < 256
  }

  /**
   * `[a-f\d]` under the `i` flag. Without the `u` flag a non-ASCII character
   * never folds onto an ASCII one, so this is exactly `[0-9a-fA-F]`.
   */
  predicate IsHexDigit(ch: char) {
    '0' <= ch <= '9' || 'a' <= ch <= 'f' || 'A' <= ch <= 'F'
  }

  predicate AllHexDigits(s: string) {
    forall i :: 0 <= i < |s| ==> IsHexDigit(s[i])
  }

  /** The value of one base-16 digit, either case. */
  function DigitValue(ch: char): (v: nat)
    requires IsHexDigit(ch)
    ensures v < 16
    ensures (v < 10) == ('0' <= ch <= '9')
  {
    if '0' <= ch <= '9' then ch as int - '0' as int
    else if 'a' <= ch <= 'f' then ch as int - 'a' as int + 10
    else ch as int - 'A' as int + 10
  }

  /** `parseInt(pair, 16)` of a two-digit pair: high digit first. */
  function PairValue(hi: char, lo: char): (v: nat)
    requires IsHexDigit(hi) && IsHexDigit(lo)
    ensures v < 256
    ensures v / 16 == DigitValue(hi) && v % 16 == DigitValue(lo)
  {
    16 * DigitValue(hi) + DigitValue(lo)
  }

  /** The text after an optional leading `#`. */
  function StripHash(s: string): (t: string)
    ensures |t| <= |s|
  {
    if |s| > 0 && s[0] == '#' then s[1..] else s
  }

  /**
   * `/^#?([a-f\d]{2})([a-f\d]{2})([a-f\d]{2})$/i`, stated by the length of
   * the text: six digits alone, or `#` and six digits.
   */
  predicate MatchesParserPattern(s: string) {
    (|s| == 6 && AllHexDigits(s)) || (|s| == 7 && s[0] == '#' && AllHexDigits(s[1..]))
  }

  /**
   * `/^#[0-9A-F]{6}$/i`, the guard on text typed into the hex field: the
   * `#` is mandatory.
   */
  predicate PassesInputGuard(s: string) {
    |s| == 7 && s[0] == '#' && AllHexDigits(s[1..])
  }

  /**
   * `hexToRgb`: the three channels of `#rrggbb` or `rrggbb` in either case,
   * or `None` (the source's `null`) for any other text.
   */
  function HexToRgb(s: string): (res: Option<Rgb>)
    ensures res.Some? <==> MatchesParserPattern(s)
    ensures res.Some? ==> InRange(res.value)
  {
    var t := StripHash(s);
    if |t| == 6 && AllHexDigits(t) then
      Some(Rgb(PairValue(t[0], t[1]), PairValue(t[2], t[3]), PairValue(t[4], t[5])))
    else
      None
  }

  /** The digit for `n`, lower or upper case. */
  function DigitChar(n: nat, upper: bool): (ch: char)
    requires n < 16
    ensures IsHexDigit(ch) && DigitValue(ch) == n
    ensures n >= 10 ==> (upper <==> 'A' <= ch <= 'F')
  {
    if n < 10 then ('0' as int + n) as char
    else if upper then ('A' as int + n - 10) as char
    else ('a' as int + n - 10) as char
  }

  /** A byte as two digits, high digit first. */
  function ByteToHex(v: int, upper: bool): (s: string)
    requires 0 <= v < 256
    ensures |s| == 2 && IsHexDigit(s[0]) && IsHexDigit(s[1])
    ensures PairValue(s[0], s[1]) == v
  {
    [DigitChar(v / 16, upper), DigitChar(v % 16, upper)]
  }

  /** The hex notation of a colour, in either case, with or without `#`. */
  function RgbToHex(c: Rgb, upper: bool, hash: bool): (s: string)
    requires InRange(c)
    ensures |s| == if hash then 7 else 6
    ensures AllHexDigits(StripHash(s))
  {
    (if hash then "#" else "") + ByteToHex(c.r, upper) + ByteToHex(c.g, upper) + ByteToHex(c.b, upper)
  }

  /** ASCII lower-casing of one hex digit. */
  function LowerDigit(ch: char): (lo: char)
    requires IsHexDigit(ch)
    ensures IsHexDigit(lo) && DigitValue(lo) == DigitValue(ch)
    ensures !('A' <= lo <= 'F')
  {
    if 'A' <= ch <= 'F' then (ch as int - 'A' as int + 'a' as int) as char else ch
  }

  function LowerDigits(s: string): (t: string)
    requires AllHexDigits(s)
    ensures |t| == |s|
  {
    seq(|s|, i requires 0 <= i < |s| => LowerDigit(s[i]))
  }

  /** Formatting then parsing gives back the colour, whatever the case and the `#`. */
  lemma ParseFormatRoundTrip(c: Rgb, upper: bool, hash: bool)
    requires InRange(c)
    ensures HexToRgb(RgbToHex(c, upper, hash)) == Some(c)
  {
    var s := RgbToHex(c, upper, hash);
    var t := ByteToHex(c.r, upper) + ByteToHex(c.g, upper) + ByteToHex(c.b, upper);
    assert StripHash(s) == t;
  }

  /**
   * The other direction: text the parser accepts is, once the `#` is dropped
   * and the digits lower-cased, the canonical notation of what it parsed to.
   */
  lemma FormatParseRoundTrip(s: string)
    requires HexToRgb(s).Some?
    ensures LowerDigits(StripHash(s)) == RgbToHex(HexToRgb(s).value, false, false)
  {
    var t := StripHash(s);
    var c := HexToRgb(s).value;
    var lo := LowerDigits(t);
    var canon := RgbToHex(c, false, false);
    forall i | 0 <= i < 6
      ensures lo[i] == canon[i]
    {
      var v := [c.r, c.r, c.g, c.g, c.b, c.b][i];
      LowerDigitIsCanonical(t[i], if i % 2 == 0 then v / 16 else v % 16);
    }
  }

  /** A lower-cased digit is the lower-case digit of its value. */
  lemma LowerDigitIsCanonical(ch: char, n: nat)
    requires IsHexDigit(ch) && n < 16 && DigitValue(ch) == n
    ensures LowerDigit(ch) == DigitChar(n, false)
  {
  }

  /** Hex to RGB is one-to-one on canonical text: distinct colours never share a notation. */
  lemma FormatInjective(c1: Rgb, c2: Rgb, upper: bool, hash: bool)
    requires InRange(c1) && InRange(c2)
    requires RgbToHex(c1, upper, hash) == RgbToHex(c2, upper, hash)
    ensures c1 == c2
  {
    ParseFormatRoundTrip(c1, upper, hash);
    ParseFormatRoundTrip(c2, upper, hash);
  }

  /** Whatever passes the hex-field guard also parses, so the update after it never sees `None`. */
  lemma GuardImpliesParses(s: string)
    requires PassesInputGuard(s)
    ensures HexToRgb(s).Some?
    ensures MatchesParserPattern(s)
  {
  }

  /** The converse fails: the parser also takes six digits without `#`, which the guard rejects. */
  lemma ParserAcceptsMoreThanGuard()
    ensures HexToRgb("3498db") == Some(Rgb(52, 152, 219))
    ensures !PassesInputGuard("3498db")
  {
  }

  /** The widget's default colour and two rejected texts. */
  lemma ParseExamples()
    ensures HexToRgb("#3498db") == Some(Rgb(52, 152, 219))
    ensures HexToRgb("#3498DB") == Some(Rgb(52, 152, 219))
    ensures HexToRgb("not-a-color") == None
    ensures HexToRgb("#ZZZZZZ") == None
    ensures HexToRgb("#3498d") == None
  {
    assert !IsHexDigit("#ZZZZZZ"[1]);
    assert !IsHexDigit("not-a-color"[0]);
  }
}
