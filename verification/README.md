# webhostinghub-glyphs: Fontello configuration builder

The build script of webhostinghub-glyphs reads the WebHostingHub Glyphs SVG
font and sends Fontello a configuration that lists every glyph of the font
that has a path.
This project models the pure part of that script in Dafny and proves its
properties. That part has three steps:

1. **Glyph-name fix** (`build/script.js:19`). Wherever a glyph element reads
   `glyph-name="X" unicode="Y"`, the name becomes `Y`.
2. **Code base** (`build/script.js:27-28`). The font-face `unicode-range`
   loses its `U+`, is cut at the first `-`, and is read as hexadecimal:
   `U+E000-E0FF` gives 0xE000.
3. **Configuration** (`build/script.js:30-58`). The header is fixed: the name
   `webhostinghub-glyphs`, `css_use_suffix` false and `css_prefix_text`
   `icon-`. The glyph loop then walks the glyph elements in font order. It
   skips a glyph whose `d` is absent or empty. For every other glyph it pushes
   one record: `css` is the glyph name, `src` is `custom_icons`, `code` is the
   code base plus the glyph's position `i` in the full, unfiltered list,
   `selected` is true, `svg` holds the unchanged path and width 1000, and
   `search` is `[name]`.

Modules, one per concept:

- `wrappers.dfy`, module `Wrappers`: `Option` stands for JavaScript's
  `undefined` and `NaN`. `Result` stands for a TypeError that ends the script.
- `attributes.dfy`, module `Attributes`: an element's parsed attributes, kept
  in document order, and the property read `element.$[key]`.
- `glyph_names.dfy`, module `GlyphNames`: the name fix, applied to parsed
  attribute lists.
- `unicode_range.dfy`, module `UnicodeRange`: `replace` with a string
  pattern and `split(...)[0]`, both built on `IndexOf`, the search for the
  first occurrence that underlies them; and `parseInt` in radix 16.
- `fontello_config.dfy`, module `FontelloConfig`: the configuration records,
  the glyph loop (both as a reference function and as a loop), and the whole
  build.

Facts about the script that the model keeps:

- Codes are `unicodeStart + i` with `i` counted over ALL glyph elements. A
  skipped glyph still uses up a code, so codes have gaps (`CodeCountsSkipped`,
  `CodeGap`). The base always comes from `unicode-range`.
- Names are not made unique. Two glyphs with the same name give two records
  with the same `css` (`DuplicateNamesKept`). There is no selection table, no
  rename table and no path transform. The path is copied unchanged.
- The header has no `hinting` field.

## Model

| member | source | states |
|---|---|---|
| Attributes.Lookup | build/script.js:38-46 | `glyph.$[key]` for `d` (line 41) and `glyph-name` (line 46); no contract of its own, its meaning is stated by `LookupSpec` |
| Attributes.LookupSpec | build/script.js:38-46 | reading `glyph.$[key]` yields nothing exactly when no attribute has that name, and otherwise the value of the earliest attribute with that name |
| GlyphNames.Rewrite | build/script.js:19 | on parsed attributes, where a match is an adjacent `glyph-name`/`unicode` pair, the name fix keeps the number of attributes and the name of every attribute; only values can change (a match that runs across other attributes in the raw text is not covered, see Left out) |
| GlyphNames.RewritePointwise | build/script.js:19 | the left-to-right global replace misses no pair: a `glyph-name` directly followed by `unicode`, both non-empty, takes the unicode value, and every other attribute is unchanged |
| GlyphNames.RewriteKeepsPairs | build/script.js:19 | after the fix the same positions hold a name/unicode pair as before |
| GlyphNames.RewriteIdempotent | build/script.js:19 | running the name fix a second time changes nothing |
| GlyphNames.RewriteNamesByUnicode | build/script.js:17-19 | in a glyph with distinct attribute names that carries the pair, the name read after the fix equals the unicode value, and the unicode value is untouched |
| GlyphNames.RewriteUnchangedIff | build/script.js:19 | a glyph is left unchanged exactly when each of its pairs already has equal name and unicode values; a glyph without the pair is never changed |
| GlyphNames.RewriteKeepsOtherAttrs | build/script.js:19 | for the adjacent pairs the model covers, every attribute other than `glyph-name`, including the path `d`, reads the same after the fix |
| GlyphNames.RewriteGlyphs | build/script.js:18-19 | applied glyph by glyph to adjacent pairs, the fix keeps the number of glyphs, the number of attributes of each glyph and each glyph's path |
| UnicodeRange.DigitValue | build/script.js:28 | a hex digit of either case denotes a value below 16, and it is the digit spelling that value in lower or in upper case, so `a`-`f` and `A`-`F` both read as 10-15; `HexChar` inverts it on the upper-case digits |
| UnicodeRange.HexValue | build/script.js:28 | a run of n hex digits denotes a number below 16^n; reading back a spelled-out number is stated by `HexRoundTrip` |
| UnicodeRange.HexPrefixLength | build/script.js:28 | `parseInt` reads the longest run of hex digits at the front: the run is all digits, and the character after it is not a digit |
| UnicodeRange.ParseIntHex | build/script.js:28 | `parseInt("0x" + s, 16)` is NaN exactly when `s` is empty or does not start with a hex digit |
| UnicodeRange.HexPrefixOfDigits | build/script.js:28 | the digit run at the front of `h + t` is exactly `h` when `t` does not start with a digit |
| UnicodeRange.ParseIntHexStops | build/script.js:28 | a digit run followed by a non-digit reads as the digit run's value; the rest is ignored |
| UnicodeRange.IndexOf | build/script.js:27 | the search returns the first occurrence at or after the start, or nothing when there is no occurrence |
| UnicodeRange.RemoveFirst | build/script.js:27 | `replace("U+", "")` removes only the first occurrence, and leaves text without one unchanged |
| UnicodeRange.BeforeFirst | build/script.js:27 | `split("-")[0]` is the text before the first dash, or all of the text when there is no dash |
| UnicodeRange.HexChar | build/script.js:28 | spelling a digit value in upper case and reading it back gives the value |
| UnicodeRange.HexRoundTrip | build/script.js:28 | reading the hex spelling of any number gives that number back |
| UnicodeRange.RemoveLeadingPrefix | build/script.js:27 | stripping `U+` from text that starts with it leaves the rest |
| UnicodeRange.CutAtDash | build/script.js:27 | cutting `h-rest` at the first dash gives `h` when `h` has no dash |
| UnicodeRange.CutWithoutDash | build/script.js:27 | text without a dash is not cut |
| UnicodeRange.RangeStart | build/script.js:27-28 | the code base is NaN exactly when the text left after stripping the first `U+` and cutting at the first `-` is empty or does not start with a hex digit; its value is stated by `RangeStartOfDigits` and `RangeStartRoundTrip` |
| UnicodeRange.RangeStartOfDigits | build/script.js:27-28 | `U+<h>-<rest>` and `U+<h>` both start at the value of the hex run `h`, whatever follows the dash |
| UnicodeRange.RangeStartRoundTrip | build/script.js:27-28 | writing any number as the start of a range and parsing it back gives the number |
| UnicodeRange.HexValueCaseless | build/script.js:28 | `parseInt` in radix 16 ignores letter case: digit strings that differ only in the case of `a`-`f` denote the same number |
| UnicodeRange.RangeStartExample | build/script.js:27-28 | `U+E000-E0FF` starts at 57344 |
| FontelloConfig.HasPath | build/script.js:41-43 | `glyph.d` is truthy: the attribute is present and not empty; no contract of its own, the glyphs it selects are stated by `KeptSortedComplete` |
| FontelloConfig.CodeAt | build/script.js:48 | `unicodeStart + i`, NaN when the base is NaN; no contract of its own, its consequences are stated by `CodesIncrease` and `CodeCountsSkipped` |
| FontelloConfig.Emit | build/script.js:45-57 | the record pushed for one glyph; no contract of its own, its fields are stated by `GlyphsSubsequence` and `GlyphsHavePaths` |
| FontelloConfig.Glyphs | build/script.js:37-58 | the finished glyph list; no contract of its own, it is characterized by `GlyphsSubsequence` and `GlyphsUpToAreKept` |
| FontelloConfig.GlyphsUpTo | build/script.js:35-58 | after any number of loop steps, the list holds at most one record per glyph seen; every record has source `custom_icons`, is selected, has width 1000 and a non-empty path, and has `search` equal to `[css]`; with a parsed base, every code is at least the base |
| FontelloConfig.KeptUpTo | build/script.js:37-43 | every position the loop keeps lies within the glyphs seen and holds a glyph with a non-empty `d` |
| FontelloConfig.KeptSortedComplete | build/script.js:37-43 | the kept positions are strictly increasing, and every glyph with a path is among them |
| FontelloConfig.GlyphsUpToAreKept | build/script.js:37-58 | the loop's output is the record of each kept glyph, in order, each built from its position in the full list |
| FontelloConfig.KeptPlusSkipped | build/script.js:37-43 | every glyph is either kept or skipped |
| FontelloConfig.KeptPrefix | build/script.js:37-43 | the positions kept after m glyphs are a prefix of those kept after n glyphs |
| FontelloConfig.GlyphsOnlyGrow | build/script.js:35-45 | the glyph list starts empty and each step only appends, so an earlier list is a prefix of every later one |
| FontelloConfig.GlyphsSubsequence | build/script.js:37-58 | the output is a subsequence of the input: the positions are strictly increasing and are exactly the glyphs with a path; there are no more records than glyphs; each record's `css`, `search`, path and code come from the glyph at its position |
| FontelloConfig.GlyphsHavePaths | build/script.js:41-57 | no record has an empty path, and every record has the fixed `src`, `selected`, width and `search == [css]` |
| FontelloConfig.CodesIncrease | build/script.js:37-48 | with a parsed base, every code is present and at least the base, and codes increase strictly in output order, so no two records share a code |
| FontelloConfig.CodeGap | build/script.js:37-48 | between consecutive records the code grows by the distance between their source positions, and every glyph in between lacks a path |
| FontelloConfig.KeptRank | build/script.js:37-43 | the k-th kept position has exactly k kept positions before it |
| FontelloConfig.CodeCountsSkipped | build/script.js:37-48 | the k-th record's code is the base plus k plus the number of glyphs skipped before its source, so each skipped glyph uses up a code |
| FontelloConfig.CodesContiguousIff | build/script.js:37-48 | the codes are exactly base, base+1, ... over the whole font if and only if no glyph is skipped |
| FontelloConfig.AllKeptIsIdentity | build/script.js:37-43 | when every glyph has a path, every position is kept, in order |
| FontelloConfig.AllKeptHavePaths | build/script.js:37-43 | when as many glyphs are kept as were seen, every glyph had a path |
| FontelloConfig.KeptAgrees | build/script.js:19-43 | two fonts whose glyphs agree on `d` keep the same positions, so a fix limited to adjacent pairs does not change which glyphs are kept |
| FontelloConfig.RenamedGlyphsFromSource | build/script.js:19-58 | after the name fix, the k-th record comes from the k-th glyph with a path in the font as read; its path and code are that glyph's, and in a well-formed glyph carrying the name/unicode pair its `css` is the unicode value |
| FontelloConfig.DuplicateNamesKept | build/script.js:45-57 | names are not made unique: any glyph with a path that occurs twice gives two records with the same `css`, its `glyph-name` |
| FontelloConfig.GlyphLoop | build/script.js:37-58 | the loop fails, at the first glyph element with no attributes, exactly when one exists; otherwise it returns the reference glyph list |
| FontelloConfig.BuildConfig | build/script.js:19-58 | a missing `unicode-range` fails first, then a font with no glyph elements; any other failure is the first glyph without attributes; otherwise the header is fixed (`webhostinghub-glyphs`, no suffix, prefix `icon-`, the font's ascent and units per em), and the glyphs are the loop over the renamed font, with the parsed range start as base |

## Left out

- Reading the SVG font, and writing and deleting `config.json` (`build/script.js:18`, 61-62, 72). These are file I/O.
- XML parsing with xml2js (`build/script.js:22-26`). The model takes the font already parsed: the font-face attributes it reads, and each glyph element's attributes in document order. Locating `svg.defs[0].font[0]` and `font-face[0]` is not modelled. A missing element there throws in the script.
- The Fontello upload and download with restler, and ZIP extraction and directory copies with AdmZip and wrench (`build/script.js:65-109`). These are network and file I/O with asynchronous callbacks.
- `JSON.stringify` and `console.log` (`build/script.js:20`, 61, 63, 73, 85, 96, 107). JSON writes a NaN code as `null`, drops an undefined `css`, and writes an undefined search term as `null`. The model keeps these values as `None`.
- The unary `+` conversion of `ascent` and `units-per-em` (`build/script.js:31-32`). The model takes both as given integers.
- GlyphNames.Rewrite: the model applies the replace to parsed attributes. It rewrites a `glyph-name` directly followed by `unicode`, when both values are non-empty. On raw text the lazy pattern can behave differently. It can run across other attributes on the same line, for example across an attribute between the two or across an empty name. It misses attributes in single quotes, or attributes separated by anything other than one space. It also applies to elements other than `<glyph>`. The model covers none of these cases. A match that runs across other attributes is replaced as a whole by `glyph-name="Y" unicode="Y"`, so every attribute between the two is deleted. If `d` is among them, the glyph loses its path and line 41 skips it. A match that runs from one `<glyph>` into a later one on the same line merges the two elements into one. Every later glyph then has a smaller index `i`, and so a different code on line 48.
- UnicodeRange.ParseIntHex: `parseInt` returns a double and loses precision above 2^53. The model reads an exact natural number, and `unicodeStart + i` is exact too.
- Attributes.LookupSpec: a repeated attribute name, which XML forbids, resolves to the first occurrence. What xml2js does in that case is not modelled.
