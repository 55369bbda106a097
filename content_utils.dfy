/**
 * The tray's styled-text detector. A JavaScript string is a sequence of
 * UTF-16 code units, and a regular expression without the `u` flag tests one
 * unit at a time, so the model encodes the text into units before testing.
 */
module ContentUtils {
  import opened Strings
  import opened CodePoints
  import opened FormatTypes
  import opened GlyphMaps
  import opened Converter

  type CodeUnit = u: int | 0 <= u < 0x1_0000

  /**
   * The UTF-16 encoding of one code point: the code point itself inside the
   * Basic Multilingual Plane, otherwise a high surrogate followed by a low
   * surrogate from which the code point can be recovered.
   */
  function Utf16Units(c: char): (r: seq<CodeUnit>)
    ensures (c as int) < 0x1_0000 ==> r == [c as int]
    ensures (c as int) >= 0x1_0000 ==>
      && |r| == 2 && 0xD800 <= r[0] < 0xDC00 && 0xDC00 <= r[1] < 0xE000
      && 0x1_0000 + (r[0] as int - 0xD800) * 0x400 + (r[1] as int - 0xDC00) == c as int
  {
    var v := c as int;
    if v < 0x1_0000 then [v]
    else [0xD800 + (v - 0x1_0000) / 0x400, 0xDC00 + (v - 0x1_0000) % 0x400]
  }

  function EncodeUtf16(text: seq<char>): seq<CodeUnit> {
    MapJoin(text, Utf16Units)
  }

  /**
   * The detector's character class as JavaScript reads it without the `u`
   * flag: `\u` takes exactly four hex digits, so the intended range
   * U+1D400..U+1D7FF reads as U+1D40, then the range '0'..U+1D7F, then 'F'.
   */
  function InPatternClass(u: CodeUnit): (r: bool)
    ensures r <==> 0x0030 <= u <= 0x1D7F || 0x2100 <= u <= 0x214F || 0xFF00 <= u <= 0xFFEF
  {
    || u == 0x0332 || u == 0x0336
    || 0x2100 <= u <= 0x214F
    || u == 0x1D40
    || 0x0030 <= u <= 0x1D7F
    || u == 0x0046
    || 0xFF00 <= u <= 0xFFEF
  }

  /** An unanchored one-character class matches when some code unit is in the class. */
  function PatternTest(units: seq<CodeUnit>): (r: bool)
    ensures r <==> exists u :: u in units && InPatternClass(u)
  {
    units != [] && (InPatternClass(units[0]) || PatternTest(units[1..]))
  }

  /**
   * `containsStyledUnicode(text)`: the pattern tested against the text's
   * code units. It holds exactly when some code point of the text matches on
   * its own, which only a code point of the Basic Multilingual Plane can.
   */
  function ContainsStyledUnicode(text: seq<char>): (r: bool)
    ensures r <==> exists c :: c in text && MatchesAsWritten(c)
  {
    EncodedPatternIff(text);
    PatternTest(EncodeUtf16(text))
  }

  /** What the class catches, per code point: one inside the Basic Multilingual Plane that is in the class. */
  predicate MatchesAsWritten(c: char) {
    (c as int) < 0x1_0000 && InPatternClass(c as int)
  }

  /** The pattern finds a unit of the encoded text exactly when some code point matches on its own. */
  lemma {:induction false} EncodedPatternIff(text: seq<char>)
    ensures PatternTest(EncodeUtf16(text)) <==> exists c :: c in text && MatchesAsWritten(c)
  {
    if text != [] {
      var c := text[0];
      EncodedPatternIff(text[1..]);
      assert EncodeUtf16(text) == Utf16Units(c) + EncodeUtf16(text[1..]);
      assert (exists u :: u in Utf16Units(c) && InPatternClass(u)) <==> MatchesAsWritten(c);
      assert forall d :: d in text <==> d == c || d in text[1..];
    }
  }

  /** Any text holding an underline or strikethrough mark is detected. */
  lemma MarksDetected(text: seq<char>)
    requires UNDERLINE in text || STRIKETHROUGH in text
    ensures ContainsStyledUnicode(text)
  {
    if UNDERLINE in text {
      assert MatchesAsWritten(UNDERLINE);
    } else {
      assert MatchesAsWritten(STRIKETHROUGH);
    }
  }

  /** Any Letterlike Symbol or Halfwidth and Fullwidth Form is detected. */
  lemma LetterlikeAndFullwidthDetected(text: seq<char>, c: char)
    requires c in text
    requires '\U{2100}' <= c <= '\U{214F}' || '\U{FF00}' <= c <= '\U{FFEF}'
    ensures ContainsStyledUnicode(text)
  {
    assert MatchesAsWritten(c);
  }

  /** Any code point from '0' to U+1D7F is detected: every ASCII digit and letter among them. */
  lemma AsciiLettersAndDigitsDetected(text: seq<char>, c: char)
    requires c in text && '0' <= c <= '\U{1D7F}'
    ensures ContainsStyledUnicode(text)
  {
    assert MatchesAsWritten(c);
  }

  /** Code points outside the Basic Multilingual Plane, the mathematical bold letters among them, are never detected on their own. */
  lemma AstralGlyphsNotDetected(text: seq<char>)
    requires forall i :: 0 <= i < |text| ==> (text[i] as int) >= 0x1_0000
    ensures !ContainsStyledUnicode(text)
  {
  }

  lemma EmptyNotDetected()
    ensures !ContainsStyledUnicode([])
  {
  }

  /**
   * Only which code points occur matters: text whose code points all occur in
   * another text is detected only if the other one is, whatever the order.
   */
  lemma DetectionMonotone(s: seq<char>, t: seq<char>)
    requires forall c :: c in s ==> c in t
    requires ContainsStyledUnicode(s)
    ensures ContainsStyledUnicode(t)
  {
  }

  /** A conversion with strikethrough marks its first code point, so its output is detected. */
  lemma StrikethroughOutputDetected(text: seq<char>, f: TextFormat, options: TransformOptions, g: Registry)
    requires f.strikethrough && text != []
    requires f.underlinePhrase || !SkipSpaces(options)
    ensures ContainsStyledUnicode(ConvertToUnicode(text, f, options, g))
  {
    var r := ConvertToUnicode(text, f, options, g);
    assert r[1] == STRIKETHROUGH;
    MarksDetected(r);
  }

  // ---------------------------------------------------------------------
  // The detector the class was evidently meant to be

  /**
   * The class with the `u` flag and the astral range written with braces:
   * both marks, Letterlike Symbols, Mathematical Alphanumeric Symbols and
   * Halfwidth and Fullwidth Forms, tested per code point.
   */
  predicate InIntendedClass(c: char) {
    || c == UNDERLINE || c == STRIKETHROUGH
    || '\U{2100}' <= c <= '\U{214F}'
    || '\U{1D400}' <= c <= '\U{1D7FF}'
    || '\U{FF00}' <= c <= '\U{FFEF}'
  }

  function ContainsStyledGlyph(text: seq<char>): (r: bool)
    ensures r <==> exists c :: c in text && InIntendedClass(c)
  {
    text != [] && (InIntendedClass(text[0]) || ContainsStyledGlyph(text[1..]))
  }

  /** Plain ASCII is never taken for styled text. */
  lemma PlainAsciiNotStyled(text: seq<char>)
    requires forall i :: 0 <= i < |text| ==> text[i] < '\U{0080}'
    ensures !ContainsStyledGlyph(text)
  {
  }

  /** A mathematical alphanumeric glyph is detected, and so is every mark. */
  lemma StyledGlyphsDetected(text: seq<char>, c: char)
    requires c in text && ('\U{1D400}' <= c <= '\U{1D7FF}' || IsCombiningMark(c))
    ensures ContainsStyledGlyph(text)
  {
  }

  /** Converting ASCII text with no styling requested gives text that is not taken for styled. */
  lemma IdentityConversionNotStyled(text: seq<char>, f: TextFormat, options: TransformOptions, g: Registry)
    requires ChooseVariant(f).None? && !f.underline && !f.underlinePhrase && !f.strikethrough
    requires forall i :: 0 <= i < |text| ==> text[i] < '\U{0080}'
    ensures !ContainsStyledGlyph(ConvertToUnicode(text, f, options, g))
  {
  }

  /**
   * The detector as written misclassifies both ways: unstyled "Hi" is
   * detected, and a mathematical bold capital A (U+1D400) is not.
   */
  lemma AsWrittenMisclassifies()
    ensures ContainsStyledUnicode("Hi") && !ContainsStyledGlyph("Hi")
    ensures !ContainsStyledUnicode(['\U{1D400}']) && ContainsStyledGlyph(['\U{1D400}'])
  {
    AsciiLettersAndDigitsDetected("Hi", 'H');
    AstralGlyphsNotDetected(['\U{1D400}']);
  }
}
