/**
 * The glyph tables of the maps module. Their contents are not part of this
 * model: a table is any list of (plain, styled) pairs with distinct plain
 * characters, in the order `Object.entries` lists them.
 */
module GlyphMaps {
  import opened Wrappers

  /** One table property: a plain code point and the styled code point it maps to. */
  type Entry = (char, char)

  predicate DistinctKeys(t: seq<Entry>) {
    forall i, j :: 0 <= i < j < |t| ==> t[i].0 != t[j].0
  }

  /** A `Record<string, string>` over single code points: no plain character twice. */
  type GlyphTable = t: seq<Entry> | DistinctKeys(t)

  /** No two plain characters share a styled glyph. */
  predicate Injective(t: GlyphTable) {
    forall i, j :: 0 <= i < j < |t| ==> t[i].1 != t[j].1
  }

  /** The styled glyphs of some entries. */
  ghost function Glyphs(es: seq<Entry>): set<char> {
    set e | e in es :: e.1
  }

  /** `map[ch]`: the styled glyph of `c`, or nothing when `c` is not a key. */
  function Lookup(t: GlyphTable, c: char): (r: Option<char>)
    ensures r.Some? ==> (c, r.value) in t
    ensures r.None? <==> forall i :: 0 <= i < |t| ==> t[i].0 != c
  {
    if t == [] then None
    else if t[0].0 == c then Some(t[0].1)
    else Lookup(t[1..], c)
  }

  /** Every entry is found by its own key. */
  lemma LookupEntry(t: GlyphTable, i: nat)
    requires i < |t|
    ensures Lookup(t, t[i].0) == Some(t[i].1)
  {
    var r := Lookup(t, t[i].0);
    var j :| 0 <= j < |t| && t[j] == (t[i].0, r.value);
    assert j == i;
  }

  /** `map[ch] ?? ch`: the styled glyph, or `c` itself when the table has no entry for it. */
  function MapChar(t: GlyphTable, c: char): (r: char)
    ensures Lookup(t, c).None? ==> r == c
    ensures Lookup(t, c).Some? ==> (c, r) in t && r in Glyphs(t)
  {
    Lookup(t, c).GetOr(c)
  }

  /** The tables the maps module exports. */
  datatype TableName =
    | BoldMap | ItalicMap | BoldItalicMap | ScriptMap | MonospaceMap | SerifMap
    | H1Map | SansMap | SansBoldMap | FullwidthMap | DoubleStruckMap

  /** The contents of every table, fixed once for the whole program. */
  datatype Registry = Registry(
    bold: GlyphTable, italic: GlyphTable, boldItalic: GlyphTable, script: GlyphTable,
    monospace: GlyphTable, serif: GlyphTable, h1: GlyphTable, sans: GlyphTable,
    sansBold: GlyphTable, fullwidth: GlyphTable, doubleStruck: GlyphTable)

  function Table(g: Registry, n: TableName): GlyphTable {
    match n
    case BoldMap => g.bold
    case ItalicMap => g.italic
    case BoldItalicMap => g.boldItalic
    case ScriptMap => g.script
    case MonospaceMap => g.monospace
    case SerifMap => g.serif
    case H1Map => g.h1
    case SansMap => g.sans
    case SansBoldMap => g.sansBold
    case FullwidthMap => g.fullwidth
    case DoubleStruckMap => g.doubleStruck
  }
}
