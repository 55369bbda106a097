/**
 * Properties of the conversion engine that relate its operations to each
 * other: where marks land, which stage wins, and when the normaliser undoes
 * a forward conversion.
 */
module ConverterProperties {
  import opened Wrappers
  import opened Strings
  import opened CodePoints
  import opened GlyphMaps
  import opened FormatTypes
  import opened Converter

  // ---------------------------------------------------------------------
  // Mark placement

  /**
   * Where input position i lands in the marked text: at offset p, the length
   * of the marked prefix, sits the code point itself; whitespace under
   * skipping takes one position, every other code point two, the second
   * being the mark.
   */
  lemma {:induction false} SpecialFormatAt(text: seq<char>, formatChar: char, options: TransformOptions, i: nat)
    requires i < |text|
    ensures var r := ApplySpecialFormat(text, formatChar, options);
            var p := |ApplySpecialFormat(text[..i], formatChar, options)|;
            var q := |ApplySpecialFormat(text[..i + 1], formatChar, options)|;
            && q <= |r| && p < |r| && r[p] == text[i]
            && if SkipSpaces(options) && IsJsWhitespace(text[i]) then q == p + 1
               else q == p + 2 && r[p + 1] == formatChar
  {
    MapJoinAt(text, Marker(formatChar, SkipSpaces(options)), i);
  }

  /**
   * Where input position i lands under phrase underline: a space becomes
   * NBSP then U+0332; other whitespace under skipping is copied bare; every
   * other code point is followed by U+0332.
   */
  lemma {:induction false} PhraseUnderlineAt(text: seq<char>, options: TransformOptions, i: nat)
    requires i < |text|
    ensures var r := ApplyPhraseUnderline(text, options);
            var p := |ApplyPhraseUnderline(text[..i], options)|;
            var q := |ApplyPhraseUnderline(text[..i + 1], options)|;
            && q <= |r| && p < |r|
            && if text[i] == SPACE then q == p + 2 && r[p] == NBSP && r[p + 1] == UNDERLINE
               else if SkipSpaces(options) && IsJsWhitespace(text[i]) then q == p + 1 && r[p] == text[i]
               else q == p + 2 && r[p] == text[i] && r[p + 1] == UNDERLINE
  {
    MapJoinAt(text, PhraseMarker(SkipSpaces(options)), i);
  }

  /** Skipping is on unless the caller turns it off. */
  lemma SkipByDefault(text: seq<char>, formatChar: char)
    ensures ApplySpecialFormat(text, formatChar, DefaultOptions)
         == ApplySpecialFormat(text, formatChar, TransformOptions(Some(true)))
  {
  }

  // ---------------------------------------------------------------------
  // Variant priority

  /** A font other than normal decides alone: size and style flags change nothing. */
  lemma FontDecides(f: TextFormat, f': TextFormat)
    requires f.font == f'.font && !f.font.NormalFont?
    ensures ChooseVariant(f) == ChooseVariant(f')
    ensures ChooseVariant(f) == Some(match f.font
                                     case Monospace => MonospaceMap
                                     case Script => ScriptMap
                                     case _ => SerifMap)
  {
  }

  /** Under the normal font a heading size decides, whatever bold and italic say. */
  lemma SizeDecidesOverStyle(f: TextFormat, f': TextFormat)
    requires f.font.NormalFont? && f'.font.NormalFont? && f.size == f'.size && !f.size.NormalSize?
    ensures ChooseVariant(f) == ChooseVariant(f')
    ensures ChooseVariant(f) == Some(match f.size
                                     case H1 => SansBoldMap
                                     case H2 => BoldMap
                                     case H3 => DoubleStruckMap
                                     case H4 => SansMap
                                     case _ => ItalicMap)
  {
  }

  /** With normal font and size the flags decide: both give BOLD_ITALIC, one gives its own table. */
  lemma StyleFlagsDecideLast(f: TextFormat)
    requires f.font.NormalFont? && f.size.NormalSize?
    ensures ChooseVariant(f) == (if f.bold && f.italic then Some(BoldItalicMap)
                                 else if f.bold then Some(BoldMap)
                                 else if f.italic then Some(ItalicMap)
                                 else None)
  {
  }

  // ---------------------------------------------------------------------
  // The forward entry points

  /** Phrase underline takes precedence: the plain underline flag then changes nothing. */
  lemma PhraseUnderlineWins(text: seq<char>, f: TextFormat, options: TransformOptions, g: Registry)
    requires f.underlinePhrase
    ensures ConvertToUnicode(text, f, options, g) == ConvertToUnicode(text, f.(underline := !f.underline), options, g)
  {
    var f' := f.(underline := !f.underline);
    assert ChooseVariant(f) == ChooseVariant(f');
    var base := BaseVariant(text, f, g);
    assert base == BaseVariant(text, f', g);
    assert Underlined(base, f, options) == Underlined(base, f', options);
    assert StrikeOptions(f, options) == StrikeOptions(f', options);
  }

  /** Without strikethrough the caller's options make no difference. */
  lemma UnderlineIgnoresSkipOption(text: seq<char>, f: TextFormat, o: TransformOptions, o': TransformOptions, g: Registry)
    requires !f.strikethrough
    ensures ConvertToUnicode(text, f, o, g) == ConvertToUnicode(text, f, o', g)
  {
  }

  /** Without phrase mode the conversion adds nothing to the base-table output but marks. */
  lemma ConvertAddsOnlyMarks(text: seq<char>, f: TextFormat, options: TransformOptions, g: Registry)
    requires !f.underlinePhrase
    ensures StripMarks(ConvertToUnicode(text, f, options, g)) == StripMarks(BaseVariant(text, f, g))
  {
  }

  /** In phrase mode, apart from the marks, the spaces of the base-table output become no-break spaces. */
  lemma ConvertPhraseAddsNbspAndMarks(text: seq<char>, f: TextFormat, options: TransformOptions, g: Registry)
    requires f.underlinePhrase
    ensures StripMarks(ConvertToUnicode(text, f, options, g)) == StripMarks(SpacesToNbsp(BaseVariant(text, f, g)))
  {
  }

  /**
   * Strikethrough under phrase underline ignores the caller's skipping: U+0336
   * follows every code point of the underlined text, its no-break spaces and
   * its U+0332 marks included.
   */
  lemma PhraseStrikeMarksEveryCodePoint(text: seq<char>, f: TextFormat, options: TransformOptions, g: Registry)
    requires f.underlinePhrase && f.strikethrough
    ensures var u := ApplyPhraseUnderline(BaseVariant(text, f, g), DefaultOptions);
            var r := ConvertToUnicode(text, f, options, g);
            && |r| == 2 * |u|
            && forall k :: 0 <= k < |u| ==> r[2 * k] == u[k] && r[2 * k + 1] == STRIKETHROUGH
  {
  }

  /**
   * Plain underline always skips whitespace: whatever the caller's options
   * say, the underline pass is the one with the default options, with or
   * without strikethrough, and without strikethrough it is the whole output.
   */
  lemma PlainUnderlineAlwaysSkips(text: seq<char>, f: TextFormat, o: TransformOptions, g: Registry)
    requires !f.underlinePhrase && f.underline
    ensures Underlined(BaseVariant(text, f, g), f, o)
         == ApplySpecialFormat(BaseVariant(text, f, g), UNDERLINE, DefaultOptions)
    ensures !f.strikethrough ==>
      ConvertToUnicode(text, f, o, g) == ApplySpecialFormat(BaseVariant(text, f, g), UNDERLINE, DefaultOptions)
  {
  }

  /**
   * Outside phrase mode strikethrough is the mark pass with the caller's
   * options over the underline stage's output; with skipping turned off,
   * U+0336 follows every code point of it, whitespace included.
   */
  lemma StrikeFollowsCallerOptions(text: seq<char>, f: TextFormat, options: TransformOptions, g: Registry)
    requires f.strikethrough && !f.underlinePhrase
    ensures var u := Underlined(BaseVariant(text, f, g), f, options);
            var r := ConvertToUnicode(text, f, options, g);
            && r == ApplySpecialFormat(u, STRIKETHROUGH, options)
            && (!SkipSpaces(options) ==>
                  && |r| == 2 * |u|
                  && forall k :: 0 <= k < |u| ==> r[2 * k] == u[k] && r[2 * k + 1] == STRIKETHROUGH)
  {
  }

  /** Strikethrough with the default options: the space stays bare. */
  lemma StrikeExample(g: Registry)
    ensures ConvertToUnicode(['a', SPACE], Plain().(strikethrough := true), DefaultOptions, g)
         == ['a', STRIKETHROUGH, SPACE]
  {
    var text := ['a', SPACE];
    var f := Plain().(strikethrough := true);
    var sm := Marker(STRIKETHROUGH, true);
    assert ChooseVariant(f) == None;
    assert text[1..] == [SPACE] && [SPACE][1..] == [];
    assert IsJsWhitespace(SPACE) && !IsJsWhitespace('a');
    assert MapJoin([SPACE], sm) == [SPACE];
    assert MapJoin(text, sm) == ['a', STRIKETHROUGH] + MapJoin([SPACE], sm);
    assert ConvertToUnicode(text, f, DefaultOptions, g) == MapJoin(text, sm);
  }

  /** Underline and strikethrough with the default options: both marks follow 'a', none the space. */
  lemma UnderlineStrikeDefaultExample(g: Registry)
    ensures ConvertToUnicode(['a', SPACE], Plain().(underline := true, strikethrough := true), DefaultOptions, g)
         == ['a', STRIKETHROUGH, UNDERLINE, STRIKETHROUGH, SPACE]
  {
    var text := ['a', SPACE];
    var f := Plain().(underline := true, strikethrough := true);
    var um := Marker(UNDERLINE, true);
    var sm := Marker(STRIKETHROUGH, true);
    assert ChooseVariant(f) == None;
    assert text[1..] == [SPACE] && [SPACE][1..] == [];
    assert IsJsWhitespace(SPACE) && !IsJsWhitespace('a') && !IsJsWhitespace(UNDERLINE);
    assert MapJoin([SPACE], um) == [SPACE];
    assert MapJoin(text, um) == ['a', UNDERLINE] + MapJoin([SPACE], um);
    var u := ['a', UNDERLINE, SPACE];
    assert Underlined(BaseVariant(text, f, g), f, DefaultOptions) == u;
    assert u[1..] == [UNDERLINE, SPACE] && u[1..][1..] == [SPACE];
    assert MapJoin([SPACE], sm) == [SPACE];
    assert MapJoin([UNDERLINE, SPACE], sm) == [UNDERLINE, STRIKETHROUGH] + MapJoin([SPACE], sm);
    assert MapJoin(u, sm) == ['a', STRIKETHROUGH] + MapJoin([UNDERLINE, SPACE], sm);
    assert ConvertToUnicode(text, f, DefaultOptions, g) == MapJoin(u, sm);
  }

  /**
   * Underline and strikethrough with skipping off: the space is struck but
   * not underlined, every other code point gets both marks.
   */
  lemma UnderlineStrikeExample(g: Registry)
    ensures ConvertToUnicode(['a', SPACE], Plain().(underline := true, strikethrough := true), TransformOptions(Some(false)), g)
         == ['a', STRIKETHROUGH, UNDERLINE, STRIKETHROUGH, SPACE, STRIKETHROUGH]
  {
    var text := ['a', SPACE];
    var f := Plain().(underline := true, strikethrough := true);
    var o := TransformOptions(Some(false));
    var um := Marker(UNDERLINE, true);
    assert ChooseVariant(f) == None;
    assert text[1..] == [SPACE] && [SPACE][1..] == [];
    assert IsJsWhitespace(SPACE) && !IsJsWhitespace('a');
    assert MapJoin([SPACE], um) == [SPACE];
    assert MapJoin(text, um) == ['a', UNDERLINE] + MapJoin([SPACE], um);
    var u := Underlined(BaseVariant(text, f, g), f, o);
    assert u == ['a', UNDERLINE, SPACE];
    StrikeFollowsCallerOptions(text, f, o, g);
    var r := ConvertToUnicode(text, f, o, g);
    assert |r| == 6;
    assert r[0] == u[0] && r[2] == u[1] && r[4] == u[2];
    assert r[1] == r[3] == r[5] == STRIKETHROUGH;
  }

  /**
   * The table-forcing entry point agrees with the main conversion for the
   * table the selector picks, as long as phrase mode is off and the caller
   * keeps whitespace skipping on.
   */
  lemma MapStringWithVariantAgrees(text: seq<char>, f: TextFormat, options: TransformOptions, g: Registry, n: TableName)
    requires ChooseVariant(f) == Some(n) && !f.underlinePhrase && SkipSpaces(options)
    ensures MapStringWithVariant(text, Table(g, n), CombiningOptions(f.underline, f.strikethrough), options)
         == ConvertToUnicode(text, f, options, g)
  {
  }

  /**
   * The table-forcing entry point underlines with the caller's options: with
   * skipping off U+0332 follows every mapped code point, whitespace included.
   */
  lemma MapStringWithVariantUnderline(text: seq<char>, t: GlyphTable, options: TransformOptions)
    ensures var r := MapStringWithVariant(text, t, CombiningOptions(true, false), options);
            && r == ApplySpecialFormat(ApplyUnicodeTransformation(text, t), UNDERLINE, options)
            && (!SkipSpaces(options) ==>
                  && |r| == 2 * |text|
                  && forall i :: 0 <= i < |text| ==> r[2 * i] == MapChar(t, text[i]) && r[2 * i + 1] == UNDERLINE)
  {
    MapJoinUnitPieces(text, Styler(t));
  }

  /**
   * The table-forcing entry point strikes with the caller's options too, over
   * the underline pass's output; with skipping off U+0336 follows every code
   * point of it, whitespace included.
   */
  lemma MapStringWithVariantStrike(text: seq<char>, t: GlyphTable, combining: CombiningOptions, options: TransformOptions)
    requires combining.strikethrough
    ensures var b := ApplyUnicodeTransformation(text, t);
            var u := if combining.underline then ApplySpecialFormat(b, UNDERLINE, options) else b;
            var r := MapStringWithVariant(text, t, combining, options);
            && r == ApplySpecialFormat(u, STRIKETHROUGH, options)
            && (!SkipSpaces(options) ==>
                  && |r| == 2 * |u|
                  && forall k :: 0 <= k < |u| ==> r[2 * k] == u[k] && r[2 * k + 1] == STRIKETHROUGH)
  {
  }

  /** With the default options the table-forcing entry point leaves whitespace unmarked. */
  lemma MapStringWithVariantExample(t: GlyphTable)
    requires forall i :: 0 <= i < |t| ==> t[i].0 != 'a' && t[i].0 != SPACE
    ensures MapStringWithVariant(['a', SPACE], t, CombiningOptions(true, true), DefaultOptions)
         == ['a', STRIKETHROUGH, UNDERLINE, STRIKETHROUGH, SPACE]
  {
    var text := ['a', SPACE];
    var b := ApplyUnicodeTransformation(text, t);
    assert Lookup(t, 'a').None? && Lookup(t, SPACE).None?;
    assert b[0] == 'a' && b[1] == SPACE;
    assert b == text;
    var um := Marker(UNDERLINE, true);
    var sm := Marker(STRIKETHROUGH, true);
    assert text[1..] == [SPACE] && [SPACE][1..] == [];
    assert IsJsWhitespace(SPACE) && !IsJsWhitespace('a') && !IsJsWhitespace(UNDERLINE);
    assert MapJoin([SPACE], um) == [SPACE];
    assert MapJoin(text, um) == ['a', UNDERLINE] + MapJoin([SPACE], um);
    var u := ['a', UNDERLINE, SPACE];
    assert u[1..] == [UNDERLINE, SPACE] && u[1..][1..] == [SPACE];
    assert MapJoin([SPACE], sm) == [SPACE];
    assert MapJoin([UNDERLINE, SPACE], sm) == [UNDERLINE, STRIKETHROUGH] + MapJoin([SPACE], sm);
    assert MapJoin(u, sm) == ['a', STRIKETHROUGH] + MapJoin([UNDERLINE, SPACE], sm);
    assert ApplySpecialFormat(b, UNDERLINE, DefaultOptions) == u;
    assert MapStringWithVariant(text, t, CombiningOptions(true, true), DefaultOptions)
        == ApplySpecialFormat(u, STRIKETHROUGH, DefaultOptions);
  }

  // ---------------------------------------------------------------------
  // Concrete conversions

  function Plain(): TextFormat {
    TextFormat(false, false, false, false, false, NormalSize, NormalFont)
  }

  /** "a b" in phrase mode: three underlined units, the space turned into a no-break space. */
  lemma PhraseExample(g: Registry)
    ensures ConvertToUnicode(['a', SPACE, 'b'], Plain().(underlinePhrase := true), DefaultOptions, g)
         == ['a', UNDERLINE, NBSP, UNDERLINE, 'b', UNDERLINE]
  {
    var f := Plain().(underlinePhrase := true);
    var pm := PhraseMarker(true);
    assert ChooseVariant(f) == None;
    assert ConvertToUnicode(['a', SPACE, 'b'], f, DefaultOptions, g) == MapJoin(['a', SPACE, 'b'], pm);
    assert ['a', SPACE, 'b'][1..] == [SPACE, 'b'] && [SPACE, 'b'][1..] == ['b'] && ['b'][1..] == [];
    assert !IsJsWhitespace('a') && !IsJsWhitespace('b');
    assert pm('a') == ['a', UNDERLINE] && pm(' ') == [NBSP, UNDERLINE] && pm('b') == ['b', UNDERLINE];
    assert MapJoin(['b'], pm) == ['b', UNDERLINE];
    assert MapJoin([SPACE, 'b'], pm) == [NBSP, UNDERLINE] + MapJoin(['b'], pm);
    assert MapJoin(['a', SPACE, 'b'], pm) == ['a', UNDERLINE] + MapJoin([SPACE, 'b'], pm);
  }

  /** Phrase mode leaves an input no-break space and a tab bare, unlike a plain space. */
  lemma PhraseExampleWhitespace(g: Registry)
    ensures ConvertToUnicode(['x', NBSP, '\t'], Plain().(underlinePhrase := true), DefaultOptions, g)
         == ['x', UNDERLINE, NBSP, '\t']
  {
    var f := Plain().(underlinePhrase := true);
    var pm := PhraseMarker(true);
    var s := ['x', NBSP, '\t'];
    assert ChooseVariant(f) == None;
    assert ConvertToUnicode(s, f, DefaultOptions, g) == MapJoin(s, pm);
    assert s[1..] == [NBSP, '\t'] && s[1..][1..] == ['\t'] && s[1..][1..][1..] == [];
    assert !IsJsWhitespace('x') && IsJsWhitespace(NBSP) && IsJsWhitespace('\t');
    assert MapJoin(['\t'], pm) == ['\t'];
    assert MapJoin([NBSP, '\t'], pm) == [NBSP] + MapJoin(['\t'], pm);
    assert MapJoin(s, pm) == ['x', UNDERLINE] + MapJoin([NBSP, '\t'], pm);
  }

  /** With strikethrough added, U+0336 directly follows the inserted no-break space. */
  lemma PhraseStrikeExample(g: Registry)
    ensures var r := ConvertToUnicode(['a', SPACE, 'b'], Plain().(underlinePhrase := true, strikethrough := true), DefaultOptions, g);
            |r| == 12 && r[4] == NBSP && r[5] == STRIKETHROUGH
  {
    var text := ['a', SPACE, 'b'];
    var f := Plain().(underlinePhrase := true, strikethrough := true);
    var f0 := Plain().(underlinePhrase := true);
    PhraseExample(g);
    assert ChooseVariant(f) == ChooseVariant(f0) == None;
    var u := ApplyPhraseUnderline(BaseVariant(text, f, g), DefaultOptions);
    assert u == ConvertToUnicode(text, f0, DefaultOptions, g);
    assert u[2] == NBSP;
    PhraseStrikeMarksEveryCodePoint(text, f, DefaultOptions, g);
  }

  /** "Hi" through a table with glyphs for both letters is those two glyphs. */
  lemma HiGlyphs(t: GlyphTable, h: char, i: char)
    requires Lookup(t, 'H') == Some(h) && Lookup(t, 'i') == Some(i)
    ensures ApplyUnicodeTransformation("Hi", t) == [h, i]
  {
    var r := ApplyUnicodeTransformation("Hi", t);
    LookupEntryValue(t, 'H', h, r[0]);
    LookupEntryValue(t, 'i', i, r[1]);
  }

  /** "Hi" in bold is the two BOLD glyphs. */
  lemma BoldExample(g: Registry, h: char, i: char)
    requires Lookup(g.bold, 'H') == Some(h) && Lookup(g.bold, 'i') == Some(i)
    ensures ConvertToUnicode("Hi", Plain().(bold := true), DefaultOptions, g) == [h, i]
  {
    var f := Plain().(bold := true);
    assert ChooseVariant(f) == Some(BoldMap);
    assert BaseVariant("Hi", f, g) == ApplyUnicodeTransformation("Hi", g.bold);
    HiGlyphs(g.bold, h, i);
  }

  /** "Hi" at size h1 is the two SANS_BOLD glyphs, even with bold and italic requested. */
  lemma HeadingOneExample(g: Registry, h: char, i: char)
    requires Lookup(g.sansBold, 'H') == Some(h) && Lookup(g.sansBold, 'i') == Some(i)
    ensures ConvertToUnicode("Hi", Plain().(size := H1, bold := true, italic := true), DefaultOptions, g) == [h, i]
  {
    var f := Plain().(size := H1, bold := true, italic := true);
    assert ChooseVariant(f) == Some(SansBoldMap);
    assert BaseVariant("Hi", f, g) == ApplyUnicodeTransformation("Hi", g.sansBold);
    HiGlyphs(g.sansBold, h, i);
  }

  /** A table holds at most one glyph per key. */
  lemma LookupEntryValue(t: GlyphTable, c: char, v: char, w: char)
    requires Lookup(t, c) == Some(v) && (c, w) in t
    ensures w == v
  {
    var a :| 0 <= a < |t| && t[a] == (c, v);
    var b :| 0 <= b < |t| && t[b] == (c, w);
    assert a == b;
  }

  // ---------------------------------------------------------------------
  // The inverse index

  /**
   * The last write wins: if from entry j onward every entry with glyph s has
   * plain character p, the index maps s to p.
   */
  lemma {:induction false} ExtendSettled(m: map<char, char>, es: seq<Entry>, j: nat, p: char, s: char)
    requires j < |es| && es[j] == (p, s)
    requires forall q :: j <= q < |es| && es[q].1 == s ==> es[q].0 == p
    ensures s in Extend(m, es) && Extend(m, es)[s] == p
  {
    var n := |es|;
    if j < n - 1 && es[n - 1].1 != s {
      var init := es[..n - 1];
      assert forall q :: j <= q < |init| ==> init[q] == es[q];
      ExtendSettled(m, init, j, p, s);
    }
  }

  /** No table added after the k-th reuses one of its glyphs for a different plain character. */
  ghost predicate NoLaterConflict(g: Registry, k: nat)
    requires k < |ReverseIndexed|
  {
    var ts := IndexedTables(g);
    forall k', e :: k < k' < |ts| && e in ts[k'] && e.1 in Glyphs(ts[k]) ==> e in ts[k]
  }

  /**
   * A glyph of the k-th indexed table maps back to its plain character when
   * that table is injective and no later table reuses the glyph differently.
   */
  lemma ReverseIndexSettled(g: Registry, k: nat, j: nat)
    requires k < |ReverseIndexed| && j < |IndexedTables(g)[k]|
    requires Injective(IndexedTables(g)[k])
    requires NoLaterConflict(g, k)
    ensures IndexedTables(g)[k][j].1 in ReverseIndex(g)
    ensures ReverseIndex(g)[IndexedTables(g)[k][j].1] == IndexedTables(g)[k][j].0
  {
    FlattenSettled(IndexedTables(g), k, j);
  }

  /** The same for any list of tables flattened into one index. */
  lemma FlattenSettled(ts: seq<GlyphTable>, k: nat, j: nat)
    requires k < |ts| && j < |ts[k]|
    requires Injective(ts[k])
    requires forall k', e :: k < k' < |ts| && e in ts[k'] && e.1 in Glyphs(ts[k]) ==> e in ts[k]
    ensures ts[k][j].1 in Extend(map[], Flatten(ts))
    ensures Extend(map[], Flatten(ts))[ts[k][j].1] == ts[k][j].0
  {
    var t := ts[k];
    var p, s := t[j].0, t[j].1;
    var pre, post := Flatten(ts[..k]), Flatten(ts[k + 1..]);
    assert ts == (ts[..k] + [t]) + ts[k + 1..];
    FlattenAppend(ts[..k] + [t], ts[k + 1..]);
    FlattenAppend(ts[..k], [t]);
    assert [t][..0] == [];
    var es := Flatten(ts);
    assert es == pre + t + post;
    var q0 := |pre| + j;
    forall q | q0 <= q < |es| && es[q].1 == s
      ensures es[q].0 == p
    {
      if q < |pre| + |t| {
        assert es[q] == t[q - |pre|];
      } else {
        assert es[q] == post[q - |pre| - |t|];
        LaterEntryAgrees(ts, k, j, es[q]);
      }
    }
    ExtendSettled(map[], es, q0, p, s);
  }

  /** An entry of a later table with the same glyph has the same plain character. */
  lemma LaterEntryAgrees(ts: seq<GlyphTable>, k: nat, j: nat, e: Entry)
    requires k < |ts| && j < |ts[k]|
    requires Injective(ts[k])
    requires forall k', e :: k < k' < |ts| && e in ts[k'] && e.1 in Glyphs(ts[k]) ==> e in ts[k]
    requires e in Flatten(ts[k + 1..]) && e.1 == ts[k][j].1
    ensures e.0 == ts[k][j].0
  {
    var t := ts[k];
    FlattenMember(ts[k + 1..], e);
    var k3 :| 0 <= k3 < |ts[k + 1..]| && e in ts[k + 1..][k3];
    assert e in ts[k + 1 + k3];
    assert t[j] in t;
    assert e in t;
    var j2 :| 0 <= j2 < |t| && t[j2] == e;
  }

  // ---------------------------------------------------------------------
  // The normaliser

  /** Combining marks make no difference to the normaliser. */
  lemma NormalizeIgnoresMarks(text: seq<char>, mark: char, options: TransformOptions, g: Registry)
    requires IsCombiningMark(mark)
    ensures Normalize(ApplySpecialFormat(text, mark, options), g) == Normalize(text, g)
  {
  }

  /** Text without marks and without styled glyphs passes through unchanged. */
  lemma NormalizePassesPlainText(text: seq<char>, g: Registry)
    requires forall i :: 0 <= i < |text| ==> !IsCombiningMark(text[i]) && text[i] !in IndexedGlyphs(g)
    ensures Normalize(text, g) == text
  {
    StripMarksNoMarks(text);
  }

  /**
   * Round trip through the k-th indexed table: normalising the mapped text
   * gives the text back, provided the text has no marks and no styled
   * glyphs, the table is injective and maps to no mark, and no later table
   * reuses one of its glyphs for a different plain character.
   */
  lemma TableRoundTrip(g: Registry, k: nat, text: seq<char>)
    requires k < |ReverseIndexed|
    requires Injective(IndexedTables(g)[k])
    requires forall e :: e in IndexedTables(g)[k] ==> !IsCombiningMark(e.1)
    requires NoLaterConflict(g, k)
    requires forall i :: 0 <= i < |text| ==> !IsCombiningMark(text[i]) && text[i] !in IndexedGlyphs(g)
    ensures Normalize(ApplyUnicodeTransformation(text, IndexedTables(g)[k]), g) == text
  {
    var t := IndexedTables(g)[k];
    var out := ApplyUnicodeTransformation(text, t);
    var R := ReverseIndex(g);
    forall i | 0 <= i < |out|
      ensures !IsCombiningMark(out[i])
    {
      if Lookup(t, text[i]).Some? {
        assert (text[i], out[i]) in t;
      }
    }
    StripMarksNoMarks(out);
    var r := Normalize(out, g);
    forall i | 0 <= i < |text|
      ensures r[i] == text[i]
    {
      if Lookup(t, text[i]).Some? {
        var j :| 0 <= j < |t| && t[j] == (text[i], out[i]);
        ReverseIndexSettled(g, k, j);
      }
    }
  }

  /** The BOLD round trip: BOLD is the first table indexed, so only later tables can override it. */
  lemma BoldRoundTrip(g: Registry, text: seq<char>)
    requires Injective(g.bold)
    requires forall e :: e in g.bold ==> !IsCombiningMark(e.1)
    requires NoLaterConflict(g, 0)
    requires forall i :: 0 <= i < |text| ==> !IsCombiningMark(text[i]) && text[i] !in IndexedGlyphs(g)
    ensures Normalize(ApplyUnicodeTransformation(text, g.bold), g) == text
  {
    TableRoundTrip(g, 0, text);
  }

  /**
   * A conversion whose selected table is the k-th indexed one is undone by the
   * normaliser, underline and strikethrough included, as long as phrase mode
   * (which turns spaces into no-break spaces) is off.
   */
  lemma ConvertRoundTrip(text: seq<char>, f: TextFormat, options: TransformOptions, g: Registry, k: nat)
    requires k < |ReverseIndexed| && ChooseVariant(f) == Some(ReverseIndexed[k]) && !f.underlinePhrase
    requires Injective(IndexedTables(g)[k])
    requires forall e :: e in IndexedTables(g)[k] ==> !IsCombiningMark(e.1)
    requires NoLaterConflict(g, k)
    requires forall i :: 0 <= i < |text| ==> !IsCombiningMark(text[i]) && text[i] !in IndexedGlyphs(g)
    ensures Normalize(ConvertToUnicode(text, f, options, g), g) == text
  {
    ConvertAddsOnlyMarks(text, f, options, g);
    TableRoundTrip(g, k, text);
  }

  /** Phrase mode is not undone: a space comes back as a no-break space. */
  lemma PhraseSpaceNotRestored(g: Registry)
    requires NBSP !in IndexedGlyphs(g)
    ensures Normalize(ConvertToUnicode(" ", Plain().(underlinePhrase := true), DefaultOptions, g), g) == [NBSP]
  {
    var u := ConvertToUnicode(" ", Plain().(underlinePhrase := true), DefaultOptions, g);
    assert u == [NBSP, UNDERLINE];
    assert StripMarks(u) == [NBSP];
  }

  /**
   * DOUBLESTRUCK is not indexed, so size h3 is not undone: a glyph that only
   * DOUBLESTRUCK produces stays styled.
   */
  lemma DoubleStruckNotReversed(text: seq<char>, f: TextFormat, g: Registry)
    requires ChooseVariant(f) == Some(DoubleStruckMap) && !f.underlinePhrase
    requires forall i :: 0 <= i < |text| ==> !IsCombiningMark(text[i])
    requires forall e :: e in g.doubleStruck ==> !IsCombiningMark(e.1) && e.1 !in IndexedGlyphs(g)
    requires forall i :: 0 <= i < |text| ==> text[i] !in IndexedGlyphs(g)
    ensures Normalize(ConvertToUnicode(text, f, DefaultOptions, g), g)
         == ApplyUnicodeTransformation(text, g.doubleStruck)
  {
    var out := ApplyUnicodeTransformation(text, g.doubleStruck);
    forall i | 0 <= i < |out|
      ensures !IsCombiningMark(out[i]) && out[i] !in IndexedGlyphs(g)
    {
      if Lookup(g.doubleStruck, text[i]).Some? {
        assert (text[i], out[i]) in g.doubleStruck;
      }
    }
    assert BaseVariant(text, f, g) == out;
    var r := ConvertToUnicode(text, f, DefaultOptions, g);
    ConvertAddsOnlyMarks(text, f, DefaultOptions, g);
    StripMarksNoMarks(out);
    assert StripMarks(r) == out;
    NormalizePassesPlainText(out, g);
    assert Normalize(r, g) == MapJoin(out, Unstyler(ReverseIndex(g)));
  }
}
