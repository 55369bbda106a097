# Fontier style-mapping engine in Dafny

This project models the conversion core of Fontier, a tool that turns plain
text into "styled" text by substituting Unicode look-alike glyphs
(mathematical bold, italic, script, monospace, double-struck, sans,
fullwidth) and by appending combining marks for underline (U+0332) and
strikethrough (U+0336). It also models the best-effort reverse normaliser
and the browser tray's detector that decides whether a selection already
looks styled.

Modules:

- `Wrappers` — `Option`, used for table misses (`map[ch] ?? ch`) and optional fields.
- `Strings` — `MapJoin`, the `Array.from(text).map(piece).join("")` shape every
  converter step uses, with lemmas on where each piece lands.
- `CodePoints` — the two marks, NBSP, JavaScript's `\s` class on one code
  point, and mark stripping.
- `GlyphMaps` — the glyph tables. Their contents are not modelled: a table is
  any list of (plain, styled) pairs with distinct plain characters, in the
  order `Object.entries` yields them; `Registry` holds the eleven tables.
- `FormatTypes` — `TextFormat` (with the optional `underlinePhrase` and the
  `h5` size), the per-call options and the combining options.
- `Converter` — table application, mark application, phrase underline, the
  variant selector, `convertToUnicode`, `mapStringWithVariant`, and the
  normaliser: its specification (`Normalize`, `ReverseIndex`) and the
  imperative `NormalizeStyledText`, which builds the inverse index by updating
  a map in a loop, table by table, as the source does.
- `ConverterProperties` — lemmas relating the operations: mark placement,
  priority, identity, phrase mode, and the conditional round trip.
- `ContentUtils` — `containsStyledUnicode` over UTF-16 code units, as written,
  and the detector it was evidently meant to be.

Text is `seq<char>` with Unicode scalar values, because `Array.from` walks
a string by code point. Only the detector works on UTF-16 code units,
because a regular expression without the `u` flag does.

Behaviour of the code that is easy to miss:
- Phrase underline leaves every `\s` code point bare, not only newline,
  carriage return and tab. This includes an input NBSP, U+3000 and the
  other space separators. Only the plain space U+0020 becomes an
  underlined NBSP.
- The normaliser indexes ten tables. DOUBLESTRUCK is not among them, so
  h3 output is not undone.
- The detector returns true for ASCII digits and letters (see Findings).
- Size h1 selects SANS_BOLD. The H1 table is only used by the normaliser.

## Model

| member | source | states |
|---|---|---|
| GlyphMaps.Lookup | src/core/converter.ts:49 | a hit returns the table's own pair for the key; a miss happens exactly when no entry has that key |
| GlyphMaps.MapChar | src/core/converter.ts:49 | the table's glyph for the key when there is one, the code point itself on a miss |
| GlyphMaps.LookupEntry | src/core/converter.ts:49 | every entry of a table is found under its own plain character |
| CodePoints.StripMarks | src/core/converter.ts:161 | removing the marks keeps every other code point and leaves no U+0332/U+0336 |
| CodePoints.IsJsWhitespace | src/core/converter.ts:35 | `/\s/` on one code point: space, NBSP, tab, LF and CR are whitespace; ASCII letters, digits and the two marks are not |
| Converter.ApplyUnicodeTransformation | src/core/converter.ts:43-50 | keeps the code-point count; position i is the table's glyph for input i when the table has one, else the input code point |
| Converter.ApplySpecialFormat | src/core/converter.ts:52-64 | output is between 1x and 2x the input length; without skipping every code point is followed by exactly one mark; appending a combining mark adds nothing but marks |
| Converter.ApplyPhraseUnderline | src/core/converter.ts:22-41 | apart from the marks, the output is the input with spaces turned into NBSP; length between 1x and 2x |
| Converter.ChooseVariant | src/core/converter.ts:66-90 | none exactly when font and size are normal and neither bold nor italic; BOLD_ITALIC exactly for bold and italic at normal font and size; DOUBLESTRUCK exactly for h3 at normal font; H1 and FULLWIDTH are never chosen |
| Converter.BaseVariant | src/core/converter.ts:100-102 | step 1 keeps the code-point count, and with no table chosen it leaves the text as it is |
| Converter.Underlined | src/core/converter.ts:104-112 | phrase mode gives the default phrase underline; otherwise plain underline is the default-options mark pass whatever the caller's options; neither leaves the text as it is |
| Converter.StrikeOptions | src/core/converter.ts:114-118 | strikethrough skips whitespace exactly when phrase mode is off and the caller's options skip |
| Converter.ConvertToUnicode | src/core/converter.ts:92-123 | never shortens; empty text gives empty text; with no styling the output is the input; outside phrase mode plain underline is the default-options (whitespace-skipping) mark pass whatever the caller asks, and strikethrough is the mark pass with the caller's options over it; in phrase mode U+0336 follows every code point of the phrase-underlined text |
| Converter.MapStringWithVariant | src/core/converter.ts:125-140 | never shortens; apart from the marks, the output is the table-mapped input; with no mark requested it is exactly the table-mapped input, whatever the options |
| Converter.ReverseIndex | src/core/converter.ts:144-158 | the keys are exactly the glyphs of BOLD, ITALIC, BOLD_ITALIC, SCRIPT, MONOSPACE, SERIF, H1, SANS, SANS_BOLD and FULLWIDTH, so not those only DOUBLESTRUCK has; each key maps to a plain character an indexed table pairs with it |
| Converter.Normalize | src/core/converter.ts:160-163 | one code point out per code point left after stripping the marks: the index's plain character for an indexed glyph, the code point itself otherwise |
| Converter.IndexedGlyphsFlatten | src/core/converter.ts:149-158 | the entries added table by table carry exactly the glyphs of the ten named tables |
| Converter.ExtendKeys | src/core/converter.ts:146 | the index's keys are the old keys plus every styled glyph added |
| Converter.AddTable | src/core/converter.ts:145-147 | the index after `add` is the old index with each entry's styled-to-plain pair written in entry order |
| Converter.NormalizeStyledText | src/core/converter.ts:142-164 | the loop-built inverse index followed by stripping and reverse mapping gives `Normalize` |
| ConverterProperties.SpecialFormatAt | src/core/converter.ts:52-64 | input code point i sits at the offset of its marked prefix; whitespace under skipping takes one position, every other code point two, the second being the mark |
| ConverterProperties.PhraseUnderlineAt | src/core/converter.ts:23-41 | a space becomes NBSP then U+0332; skipped whitespace is copied bare; every other code point is followed by U+0332 |
| ConverterProperties.SkipByDefault | src/core/converter.ts:58 | absent `skipSpacesForCombining` behaves as true |
| ConverterProperties.FontDecides | src/core/converter.ts:71-74 | a monospace, script or serif font alone decides the table, whatever the size and flags |
| ConverterProperties.SizeDecidesOverStyle | src/core/converter.ts:76-82 | at normal font, sizes h1..h5 decide the table (SANS_BOLD, BOLD, DOUBLESTRUCK, SANS, ITALIC) whatever bold and italic say |
| ConverterProperties.StyleFlagsDecideLast | src/core/converter.ts:84-89 | at normal font and size: both flags give BOLD_ITALIC, bold gives BOLD, italic gives ITALIC, none gives no table |
| ConverterProperties.PhraseUnderlineWins | src/core/converter.ts:104-112 | with phrase underline on, the plain underline flag changes nothing |
| ConverterProperties.UnderlineIgnoresSkipOption | src/core/converter.ts:107-111 | without strikethrough the caller's skip option never changes the output |
| ConverterProperties.ConvertAddsOnlyMarks | src/core/converter.ts:97-122 | outside phrase mode the output, marks removed, equals the base-table output, marks removed |
| ConverterProperties.ConvertPhraseAddsNbspAndMarks | src/core/converter.ts:104-106 | in phrase mode the output, marks removed, is the base-table output with spaces turned into NBSP |
| ConverterProperties.PhraseStrikeMarksEveryCodePoint | src/core/converter.ts:114-120 | under phrase mode U+0336 follows every code point of the underlined text, NBSPs and U+0332 marks included |
| ConverterProperties.PlainUnderlineAlwaysSkips | src/core/converter.ts:107-111 | plain underline is the default-options (whitespace-skipping) pass for every caller option, and without strikethrough it is the whole output |
| ConverterProperties.StrikeFollowsCallerOptions | src/core/converter.ts:114-120 | outside phrase mode strikethrough is the mark pass with the caller's options over the underline stage's output; with skipping off U+0336 follows every code point of it |
| ConverterProperties.StrikeExample | src/core/converter.ts:114-120 | "a " with strikethrough and default options is a, U+0336, space |
| ConverterProperties.UnderlineStrikeDefaultExample | src/core/converter.ts:107-120 | "a " with underline and strikethrough and default options is a, U+0336, U+0332, U+0336, space |
| ConverterProperties.UnderlineStrikeExample | src/core/converter.ts:107-120 | "a " with underline, strikethrough and skipping off is a, U+0336, U+0332, U+0336, space, U+0336: the space is struck but not underlined |
| ConverterProperties.MapStringWithVariantAgrees | src/core/converter.ts:126-140 | for the selected table, no phrase mode and skipping on, the table-forcing entry point equals `convertToUnicode` |
| ConverterProperties.MapStringWithVariantUnderline | src/core/converter.ts:133-135 | the underline pass is the mark pass with the caller's options over the mapped text; with skipping off U+0332 follows every mapped code point |
| ConverterProperties.MapStringWithVariantStrike | src/core/converter.ts:133-138 | the strikethrough pass is the mark pass with the caller's options over the underline pass's output; with skipping off U+0336 follows every code point of it |
| ConverterProperties.MapStringWithVariantExample | src/core/converter.ts:126-140 | "a " through a table without those keys, with both marks and default options, is a, U+0336, U+0332, U+0336, space |
| ConverterProperties.PhraseExample | src/core/converter.ts:31-38 | "a b" in phrase mode is a, U+0332, NBSP, U+0332, b, U+0332 |
| ConverterProperties.PhraseExampleWhitespace | src/core/converter.ts:35-37 | in phrase mode an input NBSP and a tab stay bare |
| ConverterProperties.PhraseStrikeExample | src/core/converter.ts:114-120 | with strikethrough added, U+0336 directly follows the inserted NBSP |
| ConverterProperties.BoldExample | src/core/converter.ts:86 | "Hi" in bold is the two BOLD glyphs |
| ConverterProperties.HeadingOneExample | src/core/converter.ts:77 | "Hi" at h1 is the two SANS_BOLD glyphs even with bold and italic set |
| ConverterProperties.ExtendSettled | src/core/converter.ts:146 | the last write wins: a glyph maps to p when every entry from some (p, glyph) onward that has this glyph has plain p |
| ConverterProperties.ReverseIndexSettled | src/core/converter.ts:149-158 | a glyph of an injective indexed table maps back to its plain character unless a later table reuses it differently |
| ConverterProperties.NormalizeIgnoresMarks | src/core/converter.ts:161 | appending combining marks makes no difference to the normaliser |
| ConverterProperties.NormalizePassesPlainText | src/core/converter.ts:162 | text with no marks and no styled glyphs passes through unchanged |
| ConverterProperties.TableRoundTrip | src/core/converter.ts:143-164 | normalising the output of any indexed table gives the text back under the no-mark, no-glyph, injectivity and no-later-conflict conditions |
| ConverterProperties.BoldRoundTrip | src/core/converter.ts:149 | `normalize(applyUnicodeTransformation(t, BOLD)) == t` under those conditions |
| ConverterProperties.ConvertRoundTrip | src/core/converter.ts:93-123 | a conversion through an indexed table with underline and strikethrough but no phrase mode is undone by the normaliser |
| ConverterProperties.PhraseSpaceNotRestored | src/core/converter.ts:31-34 | a phrase-underlined space normalises to NBSP, not back to a space |
| ConverterProperties.DoubleStruckNotReversed | src/core/converter.ts:79 | h3 output whose glyphs none of the ten named indexed tables produces stays styled after normalising |
| ContentUtils.Utf16Units | extension/src/content/utils.ts:37 | one unit inside the Basic Multilingual Plane; otherwise a high and a low surrogate that decode back to the code point |
| ContentUtils.PatternTest | extension/src/content/utils.ts:35-37 | the test succeeds exactly when some code unit is in the class |
| ContentUtils.InPatternClass | extension/src/content/utils.ts:36 | the class as written, read without the `u` flag, is exactly U+0030..U+1D7F, U+2100..U+214F and U+FF00..U+FFEF |
| ContentUtils.EncodedPatternIff | extension/src/content/utils.ts:35-37 | the class finds a unit of the UTF-16 encoding exactly when some code point of the text matches on its own |
| ContentUtils.ContainsStyledUnicode | extension/src/content/utils.ts:34-38 | detection holds exactly when some code point of the Basic Multilingual Plane in the text is in the class |
| ContentUtils.MarksDetected | extension/src/content/utils.ts:36 | text with U+0332 or U+0336 is detected |
| ContentUtils.LetterlikeAndFullwidthDetected | extension/src/content/utils.ts:36 | any Letterlike Symbol or Halfwidth/Fullwidth Form is detected |
| ContentUtils.AsciiLettersAndDigitsDetected | extension/src/content/utils.ts:36 | any code point from '0' to U+1D7F, so every ASCII digit and letter, is detected |
| ContentUtils.AstralGlyphsNotDetected | extension/src/content/utils.ts:35-37 | text made only of code points above U+FFFF, such as mathematical bold letters, is not detected |
| ContentUtils.EmptyNotDetected | extension/src/content/utils.ts:37 | the empty string is not detected |
| ContentUtils.DetectionMonotone | extension/src/content/utils.ts:35-37 | if every code point of s occurs in t and s is detected, t is detected, in any order |
| ContentUtils.StrikethroughOutputDetected | src/core/converter.ts:114-120 | a non-empty strikethrough conversion with skipping off is detected |
| ContentUtils.ContainsStyledGlyph | extension/src/content/utils.ts:34-38 | corrected detector: true exactly when a mark, Letterlike Symbol, Mathematical Alphanumeric Symbol or Halfwidth/Fullwidth Form occurs |
| ContentUtils.PlainAsciiNotStyled | extension/src/content/utils.ts:34-38 | the corrected detector is false on plain ASCII |
| ContentUtils.StyledGlyphsDetected | extension/src/content/utils.ts:34-38 | the corrected detector catches every mathematical alphanumeric glyph and every mark |
| ContentUtils.IdentityConversionNotStyled | src/core/converter.ts:97-122 | ASCII converted with no styling is not taken for styled by the corrected detector |
| ContentUtils.AsWrittenMisclassifies | extension/src/content/utils.ts:35-37 | as written, "Hi" is detected and U+1D400 alone is not; the corrected detector says the opposite |

## Findings

| source | as written | input that shows it | evidently intended | confidence | as-written member | corrected member |
|---|---|---|---|---|---|---|
| extension/src/content/utils.ts:35-37 | the class has no `u` flag, so the range written for U+1D400..U+1D7FF reads as U+1D40, the range '0'..U+1D7F and 'F', and the test runs per UTF-16 unit | "Hi" is detected as styled; U+1D400 MATHEMATICAL BOLD CAPITAL A alone is not | detect U+1D400..U+1D7FF per code point (the `u` flag with `\u{1D400}-\u{1D7FF}`), so plain ASCII is not detected and the tray does not open in reverse mode for it | high; not executed | ContentUtils.AsWrittenMisclassifies | ContentUtils.ContainsStyledGlyph |

## Left out

- React components, popup and tray UI, theming: rendering and component state only.
- Content-script glue (selection caching and replacement, clipboard, timers,
  events) and the DOM helpers `isEditable`, `activeEditable`,
  `getSelectionRect`, `blink`: they need the DOM and timers.
- `convertFromUnicode`, which the tray calls, lives in an extension converter that is not part of this model.
- The legacy per-character priority chains in the old entry scripts: they
  read mutable UI state, and their tables are not part of this model.
  `convertToUnicode` supersedes them.
- Glyph table contents: the maps module is not part of this model. Every
  property holds for any tables, and the round trip states the conditions on
  the tables it needs.
- Tables map one code point to one code point. A key longer than one code
  point is never consulted by the per-code-point lookup. A value longer
  than one code point is not modelled.
- Lone surrogates: a Dafny `char` is a Unicode scalar value, so text with
  an unpaired surrogate is not modelled.
- Out-of-union runtime values of `size` or `font`, such as "h6": the types
  close both enumerations. Such values would fall through every rule as
  "normal".
- Caching of the inverse index: the source rebuilds it on every call. The
  model does the same, so no cache is modelled.
