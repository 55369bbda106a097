/**
 * The style-mapping conversion engine: table application, combining-mark
 * application, the variant selector, the two forward entry points and the
 * reverse normaliser. The glyph tables are the parameter `g`.
 */
module Converter {
  import opened Wrappers
  import opened Strings
  import opened CodePoints
  import opened GlyphMaps
  import opened FormatTypes

  // ---------------------------------------------------------------------
  // Table application

  /** The piece of one code point under a table: its glyph, or itself. */
  function Styler(t: GlyphTable): char -> seq<char> {
    c => [MapChar(t, c)]
  }

  /**
   * Maps every code point through one table. Position i of the result is the
   * table's glyph for position i of the input when the table has one, and the
   * input code point otherwise.
   */
  function ApplyUnicodeTransformation(text: seq<char>, t: GlyphTable): (r: seq<char>)
    ensures |r| == |text|
    ensures forall i :: 0 <= i < |text| ==>
      if Lookup(t, text[i]).Some? then (text[i], r[i]) in t else r[i] == text[i]
  {
    MapJoinUnitPieces(text, Styler(t));
    MapJoin(text, Styler(t))
  }

  // ---------------------------------------------------------------------
  // Combining marks

  /** A code point keeps itself and nothing else. */
  function Keep(c: char): seq<char> {
    [c]
  }

  lemma KeepJoin(s: seq<char>)
    ensures MapJoin(s, Keep) == s
  {
    MapJoinUnitPieces(s, Keep);
  }

  /** Whitespace stays bare when skipping; every other code point gets the mark after it. */
  function Marker(mark: char, skip: bool): char -> seq<char> {
    c => if skip && IsJsWhitespace(c) then [c] else [c, mark]
  }

  lemma MarkerStrip(mark: char, skip: bool)
    requires IsCombiningMark(mark)
    ensures forall c :: StripMarks(Marker(mark, skip)(c)) == StripMarks(Keep(c))
  {
    forall c ensures StripMarks(Marker(mark, skip)(c)) == StripMarks(Keep(c)) {
      StripMarksAppend([c], [mark]);
    }
  }

  lemma MarkerLength(text: seq<char>, mark: char, skip: bool)
    ensures |text| <= |MapJoin(text, Marker(mark, skip))| <= 2 * |text|
    ensures !skip ==>
      && |MapJoin(text, Marker(mark, skip))| == 2 * |text|
      && forall i :: 0 <= i < |text| ==>
           MapJoin(text, Marker(mark, skip))[2 * i] == text[i] && MapJoin(text, Marker(mark, skip))[2 * i + 1] == mark
  {
    MapJoinBounds(text, Marker(mark, skip));
    if !skip {
      MapJoinPairPieces(text, Marker(mark, skip));
    }
  }

  /**
   * Appends `formatChar` after every code point, except after whitespace when
   * skipping is on (the default). Without skipping every code point is
   * followed by exactly one mark. Appending a combining mark adds nothing but
   * combining marks.
   */
  function ApplySpecialFormat(text: seq<char>, formatChar: char, options: TransformOptions): (r: seq<char>)
    ensures |text| <= |r| <= 2 * |text|
    ensures !SkipSpaces(options) ==>
      && |r| == 2 * |text|
      && forall i :: 0 <= i < |text| ==> r[2 * i] == text[i] && r[2 * i + 1] == formatChar
    ensures IsCombiningMark(formatChar) ==> StripMarks(r) == StripMarks(text)
  {
    var skip := SkipSpaces(options);
    var piece := Marker(formatChar, skip);
    MarkerLength(text, formatChar, skip);
    if IsCombiningMark(formatChar) then
      MarkerStrip(formatChar, skip);
      StripMarksMapJoin(text, piece, Keep);
      KeepJoin(text);
      MapJoin(text, piece)
    else
      MapJoin(text, piece)
  }

  /** Phrase mode: a space becomes NBSP plus underline; skipped whitespace stays bare; the rest is underlined. */
  function PhraseMarker(skip: bool): char -> seq<char> {
    c => if c == SPACE then [NBSP, UNDERLINE]
         else if skip && IsJsWhitespace(c) then [c]
         else [c, UNDERLINE]
  }

  /** A space becomes a no-break space, everything else stays. */
  function NbspForSpace(c: char): seq<char> {
    if c == SPACE then [NBSP] else [c]
  }

  /** The text with every space replaced by a no-break space. */
  function SpacesToNbsp(text: seq<char>): seq<char> {
    MapJoin(text, NbspForSpace)
  }

  /**
   * Underlines a whole phrase: spaces turn into underlined no-break spaces so
   * the line runs across word gaps. Apart from the marks, the result is the
   * input with its spaces replaced by no-break spaces.
   */
  function ApplyPhraseUnderline(text: seq<char>, options: TransformOptions): (r: seq<char>)
    ensures |text| <= |r| <= 2 * |text|
    ensures StripMarks(r) == StripMarks(SpacesToNbsp(text))
  {
    var piece := PhraseMarker(SkipSpaces(options));
    MapJoinBounds(text, piece);
    assert forall c :: StripMarks(piece(c)) == StripMarks(NbspForSpace(c)) by {
      forall c ensures StripMarks(piece(c)) == StripMarks(NbspForSpace(c)) {
        if c == SPACE {
          StripMarksAppend([NBSP], [UNDERLINE]);
        } else {
          StripMarksAppend([c], [UNDERLINE]);
        }
      }
    }
    StripMarksMapJoin(text, piece, NbspForSpace);
    MapJoin(text, piece)
  }

  // ---------------------------------------------------------------------
  // Variant selection

  /**
   * Picks at most one base table: a font other than normal decides first,
   * then a heading size, then the bold and italic flags.
   */
  function ChooseVariant(f: TextFormat): (r: Option<TableName>)
    ensures r.None? <==> f.font.NormalFont? && f.size.NormalSize? && !f.bold && !f.italic
    ensures r == Some(BoldItalicMap) <==> f.font.NormalFont? && f.size.NormalSize? && f.bold && f.italic
    ensures r == Some(DoubleStruckMap) <==> f.font.NormalFont? && f.size.H3?
    ensures r != Some(H1Map) && r != Some(FullwidthMap)
  {
    if f.font == Monospace then Some(MonospaceMap)
    else if f.font == Script then Some(ScriptMap)
    else if f.font == Serif then Some(SerifMap)
    else if f.size == H1 then Some(SansBoldMap)
    else if f.size == H2 then Some(BoldMap)
    else if f.size == H3 then Some(DoubleStruckMap)
    else if f.size == H4 then Some(SansMap)
    else if f.size == H5 then Some(ItalicMap)
    else if f.bold && f.italic then Some(BoldItalicMap)
    else if f.bold then Some(BoldMap)
    else if f.italic then Some(ItalicMap)
    else None
  }

  // ---------------------------------------------------------------------
  // Forward entry points

  /** Step 1 of the conversion: the text through the chosen table, if any. */
  function BaseVariant(text: seq<char>, format: TextFormat, g: Registry): (r: seq<char>)
    ensures |r| == |text|
    ensures ChooseVariant(format).None? ==> r == text
  {
    match ChooseVariant(format)
    case Some(n) => ApplyUnicodeTransformation(text, Table(g, n))
    case None => text
  }

  /**
   * Step 2: phrase underline wins over plain underline, which always skips
   * whitespace, whatever the caller's options say.
   */
  function Underlined(base: seq<char>, format: TextFormat, options: TransformOptions): (r: seq<char>)
    ensures format.underlinePhrase ==> r == ApplyPhraseUnderline(base, DefaultOptions)
    ensures !format.underlinePhrase && format.underline ==> r == ApplySpecialFormat(base, UNDERLINE, DefaultOptions)
    ensures !format.underlinePhrase && !format.underline ==> r == base
  {
    if format.underlinePhrase then ApplyPhraseUnderline(base, DefaultOptions)
    else if format.underline then
      ApplySpecialFormat(base, UNDERLINE, options.(skipSpacesForCombining := Some(true)))
    else base
  }

  /** Step 3's options: phrase mode forces skipping off so the inserted no-break spaces are struck too. */
  function StrikeOptions(format: TextFormat, options: TransformOptions): (r: TransformOptions)
    ensures SkipSpaces(r) <==> !format.underlinePhrase && SkipSpaces(options)
  {
    if format.underlinePhrase then options.(skipSpacesForCombining := Some(false)) else options
  }

  /**
   * Applies one base table, then the underline, then the strikethrough.
   * Empty text stays empty, and a request for no styling at all gives the
   * text back. Outside phrase mode plain underline is the default-options
   * mark pass whatever the caller asks, and strikethrough is the mark pass
   * with the caller's options; in phrase mode U+0336 follows every code
   * point of the phrase-underlined text.
   */
  function ConvertToUnicode(text: seq<char>, format: TextFormat, options: TransformOptions, g: Registry): (r: seq<char>)
    ensures |text| <= |r|
    ensures text == [] ==> r == []
    ensures ChooseVariant(format).None? && !format.underlinePhrase && !format.underline && !format.strikethrough
      ==> r == text
    ensures !format.underlinePhrase ==>
      var u := if format.underline then ApplySpecialFormat(BaseVariant(text, format, g), UNDERLINE, DefaultOptions)
               else BaseVariant(text, format, g);
      r == if format.strikethrough then ApplySpecialFormat(u, STRIKETHROUGH, options) else u
    ensures format.underlinePhrase ==>
      var u := ApplyPhraseUnderline(BaseVariant(text, format, g), DefaultOptions);
      if format.strikethrough then
        && |r| == 2 * |u|
        && forall k :: 0 <= k < |u| ==> r[2 * k] == u[k] && r[2 * k + 1] == STRIKETHROUGH
      else r == u
  {
    var out := Underlined(BaseVariant(text, format, g), format, options);
    if format.strikethrough then ApplySpecialFormat(out, STRIKETHROUGH, StrikeOptions(format, options))
    else out
  }

  /**
   * Applies a table the caller chose, then underline and strikethrough when
   * asked, both with the caller's options. The marks are all it adds.
   */
  function MapStringWithVariant(text: seq<char>, variantMap: GlyphTable, combining: CombiningOptions,
                                options: TransformOptions): (r: seq<char>)
    ensures |text| <= |r|
    ensures StripMarks(r) == StripMarks(ApplyUnicodeTransformation(text, variantMap))
    ensures !combining.underline && !combining.strikethrough ==> r == ApplyUnicodeTransformation(text, variantMap)
  {
    var result := ApplyUnicodeTransformation(text, variantMap);
    var result := if combining.underline then ApplySpecialFormat(result, UNDERLINE, options) else result;
    if combining.strikethrough then ApplySpecialFormat(result, STRIKETHROUGH, options) else result
  }

  // ---------------------------------------------------------------------
  // Reverse normaliser

  /** The tables the normaliser indexes, in the order it adds them; DOUBLESTRUCK is not among them. */
  const ReverseIndexed: seq<TableName> :=
    [BoldMap, ItalicMap, BoldItalicMap, ScriptMap, MonospaceMap, SerifMap, H1Map, SansMap, SansBoldMap, FullwidthMap]

  function IndexedTables(g: Registry): (ts: seq<GlyphTable>)
    ensures |ts| == |ReverseIndexed|
  {
    seq(|ReverseIndexed|, k requires 0 <= k < |ReverseIndexed| => Table(g, ReverseIndexed[k]))
  }

  /** The entries of several tables, table after table. */
  function Flatten(ts: seq<GlyphTable>): seq<Entry> {
    if ts == [] then [] else Flatten(ts[..|ts| - 1]) + ts[|ts| - 1]
  }

  /** `reverse.set(styled, plain)` for every entry in order: a later entry overwrites an earlier one. */
  function Extend(m: map<char, char>, es: seq<Entry>): map<char, char> {
    if es == [] then m else Extend(m, es[..|es| - 1])[es[|es| - 1].1 := es[|es| - 1].0]
  }

  /** The glyphs of the ten tables the normaliser adds, named one by one: DOUBLESTRUCK's are not among them. */
  ghost function IndexedGlyphs(g: Registry): set<char> {
    Glyphs(g.bold) + Glyphs(g.italic) + Glyphs(g.boldItalic) + Glyphs(g.script) + Glyphs(g.monospace)
    + Glyphs(g.serif) + Glyphs(g.h1) + Glyphs(g.sans) + Glyphs(g.sansBold) + Glyphs(g.fullwidth)
  }

  /**
   * The inverse index: styled glyph to plain character. Its keys are exactly
   * the glyphs of the ten indexed tables, and every key maps to a plain
   * character that one of those tables pairs with it.
   */
  function ReverseIndex(g: Registry): (r: map<char, char>)
    ensures r.Keys == IndexedGlyphs(g)
    ensures forall s :: s in r ==> exists k :: 0 <= k < |ReverseIndexed| && (r[s], s) in IndexedTables(g)[k]
  {
    ExtendKeys(map[], Flatten(IndexedTables(g)));
    IndexedGlyphsFlatten(g);
    ReverseIndexValues(g);
    Extend(map[], Flatten(IndexedTables(g)))
  }

  /** The piece of one code point under the inverse index: its plain character, or itself. */
  function Unstyler(m: map<char, char>): char -> seq<char> {
    c => [if c in m then m[c] else c]
  }

  /**
   * Strips the marks, then maps every code point back through the inverse
   * index: one code point out per remaining code point, the plain character
   * an indexed table pairs with it when it is an indexed glyph, and itself
   * otherwise.
   */
  function Normalize(text: seq<char>, g: Registry): (r: seq<char>)
    ensures var s := StripMarks(text);
            && |r| == |s|
            && forall i :: 0 <= i < |s| ==>
                 if s[i] in IndexedGlyphs(g) then r[i] == ReverseIndex(g)[s[i]] else r[i] == s[i]
  {
    MapJoinUnitPieces(StripMarks(text), Unstyler(ReverseIndex(g)));
    MapJoin(StripMarks(text), Unstyler(ReverseIndex(g)))
  }

  lemma {:induction false} ExtendAppend(m: map<char, char>, a: seq<Entry>, b: seq<Entry>)
    ensures Extend(m, a + b) == Extend(Extend(m, a), b)
  {
    if b != [] {
      assert (a + b)[..|a + b| - 1] == a + b[..|b| - 1];
      ExtendAppend(m, a, b[..|b| - 1]);
    } else {
      assert a + b == a;
    }
  }

  /** Adding entries adds exactly their glyphs as keys. */
  lemma {:induction false} ExtendKeys(m: map<char, char>, es: seq<Entry>)
    ensures Extend(m, es).Keys == m.Keys + Glyphs(es)
  {
    if es != [] {
      var init := es[..|es| - 1];
      ExtendKeys(m, init);
      assert es == init + [es[|es| - 1]];
      assert Glyphs(es) == Glyphs(init) + {es[|es| - 1].1};
    }
  }

  lemma {:induction false} FlattenAppend(a: seq<GlyphTable>, b: seq<GlyphTable>)
    ensures Flatten(a + b) == Flatten(a) + Flatten(b)
  {
    if b == [] {
      assert a + b == a;
    } else {
      assert (a + b)[..|a + b| - 1] == a + b[..|b| - 1];
      FlattenAppend(a, b[..|b| - 1]);
    }
  }

  /** Every flattened entry comes from one of the tables. */
  lemma {:induction false} FlattenMember(ts: seq<GlyphTable>, e: Entry)
    requires e in Flatten(ts)
    ensures exists k :: 0 <= k < |ts| && e in ts[k]
  {
    var n := |ts|;
    if e !in ts[n - 1] {
      FlattenMember(ts[..n - 1], e);
      var k :| 0 <= k < n - 1 && e in ts[..n - 1][k];
      assert e in ts[k];
    }
  }


  /** Every key of the index is the glyph of an entry added, or an old key left alone. */
  lemma {:induction false} ExtendValues(m: map<char, char>, es: seq<Entry>)
    ensures forall s :: s in Extend(m, es) ==> (Extend(m, es)[s], s) in es || (s in m && Extend(m, es)[s] == m[s])
  {
    if es != [] {
      var init := es[..|es| - 1];
      ExtendValues(m, init);
      assert es == init + [es[|es| - 1]];
    }
  }

  lemma FlattenSnoc(a: seq<GlyphTable>, t: GlyphTable)
    ensures Glyphs(Flatten(a + [t])) == Glyphs(Flatten(a)) + Glyphs(t)
  {
    assert (a + [t])[..|a + [t]| - 1] == a;
    var f := Flatten(a + [t]);
    assert f == Flatten(a) + t;
    forall x ensures x in Glyphs(f) <==> x in Glyphs(Flatten(a)) + Glyphs(t) {
      if x in Glyphs(f) {
        var e :| e in f && e.1 == x;
        assert e in Flatten(a) || e in t;
      }
    }
  }

  /** The entries the index is built from carry exactly the glyphs of the ten named tables. */
  lemma IndexedGlyphsFlatten(g: Registry)
    ensures Glyphs(Flatten(IndexedTables(g))) == IndexedGlyphs(g)
  {
    var t0: seq<GlyphTable> := [];
    var t1 := t0 + [g.bold];
    var t2 := t1 + [g.italic];
    var t3 := t2 + [g.boldItalic];
    var t4 := t3 + [g.script];
    var t5 := t4 + [g.monospace];
    var t6 := t5 + [g.serif];
    var t7 := t6 + [g.h1];
    var t8 := t7 + [g.sans];
    var t9 := t8 + [g.sansBold];
    var t10 := t9 + [g.fullwidth];
    assert IndexedTables(g) == t10;
    assert Glyphs(Flatten(t0)) == {};
    FlattenSnoc(t0, g.bold);
    FlattenSnoc(t1, g.italic);
    FlattenSnoc(t2, g.boldItalic);
    FlattenSnoc(t3, g.script);
    FlattenSnoc(t4, g.monospace);
    FlattenSnoc(t5, g.serif);
    FlattenSnoc(t6, g.h1);
    FlattenSnoc(t7, g.sans);
    FlattenSnoc(t8, g.sansBold);
    FlattenSnoc(t9, g.fullwidth);
  }

  /** Every key of the index maps to a plain character one of the indexed tables pairs with it. */
  lemma ReverseIndexValues(g: Registry)
    ensures var r := Extend(map[], Flatten(IndexedTables(g)));
            forall s :: s in r ==> exists k :: 0 <= k < |ReverseIndexed| && (r[s], s) in IndexedTables(g)[k]
  {
    var r := Extend(map[], Flatten(IndexedTables(g)));
    ExtendValues(map[], Flatten(IndexedTables(g)));
    forall s | s in r
      ensures exists k :: 0 <= k < |ReverseIndexed| && (r[s], s) in IndexedTables(g)[k]
    {
      FlattenMember(IndexedTables(g), (r[s], s));
    }
  }

  /** `add(m)`: one table's entries into the index, in order. */
  method AddTable(reverse: map<char, char>, m: GlyphTable) returns (r: map<char, char>)
    ensures r == Extend(reverse, m)
  {
    r := reverse;
    for j := 0 to |m|
      invariant r == Extend(reverse, m[..j])
    {
      assert m[..j + 1][..j] == m[..j];
      r := r[m[j].1 := m[j].0];
    }
    assert m[..|m|] == m;
  }

  /** Builds the inverse index table by table, then strips marks and maps back. */
  method NormalizeStyledText(text: seq<char>, g: Registry) returns (r: seq<char>)
    ensures r == Normalize(text, g)
  {
    var tables := IndexedTables(g);
    var reverse: map<char, char> := map[];
    for k := 0 to |tables|
      invariant reverse == Extend(map[], Flatten(tables[..k]))
    {
      assert tables[..k + 1][..k] == tables[..k];
      ExtendAppend(map[], Flatten(tables[..k]), tables[k]);
      reverse := AddTable(reverse, tables[k]);
    }
    assert tables[..|tables|] == tables;
    r := MapJoin(StripMarks(text), Unstyler(reverse));
  }
}
