/**
 * The characters the converter treats specially: the two combining marks it
 * appends, the no-break space it puts in place of spaces, and JavaScript's
 * whitespace class `\s`, which decides which code points are left unmarked.
 */
module CodePoints {
  import opened Strings

  const SPACE: char := ' '
  /** U+00A0 NO-BREAK SPACE (NBSP). */
  const NBSP: char := '\U{00A0}'
  /** U+0332 COMBINING LOW LINE: UNDERLINE in the glyph maps, LOW_UNDERLINE in the converter. */
  const UNDERLINE: char := '\U{0332}'
  /** U+0336 COMBINING LONG STROKE OVERLAY: STRIKETHROUGH in the glyph maps. */
  const STRIKETHROUGH: char := '\U{0336}'

  predicate IsCombiningMark(c: char) {
    c == UNDERLINE || c == STRIKETHROUGH
  }

  /**
   * JavaScript's `/\s/` on one code point: the WhiteSpace and LineTerminator
   * productions of ECMAScript, i.e. TAB, LF, VT, FF, CR, U+FEFF and the space
   * separators SPACE, NBSP, U+1680, U+2000..U+200A, U+202F, U+205F, U+3000,
   * plus LINE SEPARATOR and PARAGRAPH SEPARATOR.
   */
  function IsJsWhitespace(c: char): (r: bool)
    ensures c == SPACE || c == NBSP || c == '\t' || c == '\n' || c == '\r' ==> r
    ensures r ==> !IsCombiningMark(c)
    ensures 'a' <= c <= 'z' || 'A' <= c <= 'Z' || '0' <= c <= '9' ==> !r
  {
    || c == '\t' || c == '\n' || c == '\U{000B}' || c == '\U{000C}' || c == '\r'
    || c == SPACE || c == NBSP || c == '\U{1680}'
    || ('\U{2000}' <= c <= '\U{200A}')
    || c == '\U{2028}' || c == '\U{2029}' || c == '\U{202F}' || c == '\U{205F}'
    || c == '\U{3000}' || c == '\U{FEFF}'
  }

  /** Removes every U+0332 and U+0336 and keeps the other code points in order. */
  function StripMarks(s: seq<char>): (r: seq<char>)
    ensures |r| <= |s|
    ensures forall c :: c in r <==> c in s && !IsCombiningMark(c)
  {
    if s == [] then []
    else (if IsCombiningMark(s[0]) then [] else [s[0]]) + StripMarks(s[1..])
  }

  lemma {:induction false} StripMarksAppend(a: seq<char>, b: seq<char>)
    ensures StripMarks(a + b) == StripMarks(a) + StripMarks(b)
  {
    if a == [] {
      assert a + b == b;
    } else {
      assert (a + b)[1..] == a[1..] + b;
      StripMarksAppend(a[1..], b);
    }
  }

  /** Text without marks is left as it is. */
  lemma {:induction false} StripMarksNoMarks(s: seq<char>)
    requires forall i :: 0 <= i < |s| ==> !IsCombiningMark(s[i])
    ensures StripMarks(s) == s
  {
    if s != [] {
      StripMarksNoMarks(s[1..]);
    }
  }

  /**
   * Two ways of splitting text into pieces that agree once marks are removed
   * give joined strings that agree once marks are removed.
   */
  lemma {:induction false} StripMarksMapJoin(s: seq<char>, piece: char -> seq<char>, piece': char -> seq<char>)
    requires forall c :: StripMarks(piece(c)) == StripMarks(piece'(c))
    ensures StripMarks(MapJoin(s, piece)) == StripMarks(MapJoin(s, piece'))
  {
    if s != [] {
      StripMarksAppend(piece(s[0]), MapJoin(s[1..], piece));
      StripMarksAppend(piece'(s[0]), MapJoin(s[1..], piece'));
      StripMarksMapJoin(s[1..], piece, piece');
    }
  }
}
