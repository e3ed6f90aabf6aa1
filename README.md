# FontDetails: per-font usage tracking and text encoding

This project models `FontDetails`, the class of the iText PDF library (as shipped in pdftk) that exists once per font per document. It does two jobs:

- it converts every text run drawn with the font into the bytes that go into a page content stream;
- it records which byte values, CID codes or glyphs those runs used, so that at close the font is described with only those (font subsetting).

The font kind is read once, when the tracker is constructed, and picks one of four behaviours:

- **simple fonts** (Type 1 and TrueType with a single-byte encoding) keep 256 flags, one per byte value. At close the flags are reduced to the `FirstChar`/`LastChar` range of the font dictionary (ISO 32000-1, section 9.6.2);
- **CJK composite fonts** keep the set of CID codes used;
- **Unicode TrueType fonts** keep a map from glyph id to `{glyph, width, code}`. A non-symbolic font records the first code seen for a glyph. A symbolic font goes through the "symboltt" byte table and overwrites the entry every time. In both modes the glyph ids found are emitted as 2-byte big-endian units;
- **Type 3 and imported-document fonts** are encoded by the font itself, and nothing is tracked.

Modules:

- `JavaPrimitives` (`java_primitives.dfy`): Java `byte` (`int8`) and `char` (`JChar`), `b & 0xff`, the `(byte)` and `(char)` casts, and the big-endian UTF-16 encoding with its decoder.
- `BaseFonts` (`base_font.dfy`): the font object. Its queries (`convertToBytes`, `getCidCode`, `getMetricsTT`, `getUnicodeDifferences`, the "symboltt" table) are function-valued fields. The only thing assumed of them is that the "symboltt" table gives at most one byte per char (see "## Left out").
- `FontUsage` (`font_usage.dfy`): what each kind records and emits, as functions of the text seen, and the lemmas about them. The Unicode TrueType functions describe the state after the first `n` units of a run, the way the loop in `convertToBytes` reaches it.
- `PdfFontDetails` (`font_details.dfy`): the class `FontDetails`, with the tracker fields updated in place. Its methods are proved against `FontUsage`.
- `FontDetailsScenarios` (`scenarios.dfy`): client methods that drive a tracker with concrete fonts. From the contracts alone they derive the range `(65, 66)`, the `(255, 255)` fallback, the CID set `{10, 20}` for "AAB", first-code-wins, last-byte-wins, and that empty text changes nothing.

Three behaviours of the code that are easy to get wrong:

- An imported-document font (`FONT_TYPE_DOCUMENT`) is not written at all. The `switch` in `writeFont` has no case for it, so `WriteFont` returns `NotWritten`. Only a Type 3 font is written with no extra data.
- The glyph map is a `HashMap`, which keeps no insertion order. The model uses a `map`, which has no order either.
- Nothing stops `writeFont` from being called twice, or text from being converted after it. The model does not forbid either.

## Model

| member | source | states |
|---|---|---|
| `JavaPrimitives.Unsigned` | java/com/lowagie/text/pdf/FontDetails.java:152 | `b & 0xff` is a slot index in 0..255 |
| `JavaPrimitives.UnsignedIsLowByte` | java/com/lowagie/text/pdf/FontDetails.java:152 | `b & 0xff` is congruent to the signed byte modulo 256, and distinct bytes select distinct slots |
| `JavaPrimitives.Narrow` | java/com/lowagie/text/pdf/FontDetails.java:197 | the `(byte)` narrowing inside `getBytes` keeps a value that already fits in a signed byte unchanged (its general effect, the value modulo 256, is `NarrowKeepsLowByte`) |
| `JavaPrimitives.CharCast` | java/com/lowagie/text/pdf/FontDetails.java:180 | the `(char)` cast of a glyph id keeps an id that fits in 16 bits unchanged; for larger ids, `GlyphBytes` states that the id is kept modulo 65536 |
| `JavaPrimitives.CharCasts` | java/com/lowagie/text/pdf/FontDetails.java:170-193 | the glyph buffer receives, slot by slot, the `(char)` cast of each glyph id, and as many chars as ids |
| `JavaPrimitives.NarrowKeepsLowByte` | java/com/lowagie/text/pdf/FontDetails.java:196-197 | each byte written for a char keeps its 8-bit value modulo 256, and its unsigned read is that value |
| `JavaPrimitives.Utf16BE` | java/com/lowagie/text/pdf/FontDetails.java:196-197 | the char-sequence-to-bytes step yields two bytes per char, and bytes `2i`, `2i+1` read big-endian give back char `i` |
| `JavaPrimitives.DecodeUtf16BE` | java/com/lowagie/text/pdf/FontDetails.java:196-197 | decoding the emitted bytes gives back exactly the chars of the glyph buffer |
| `JavaPrimitives.EncodeUtf16BEDecode` | java/com/lowagie/text/pdf/FontDetails.java:196-197 | every even-length byte run is the encoding of the chars it decodes to, so the encoding is a bijection onto even-length runs |
| `FontUsage.UsedSlots` | java/com/lowagie/text/pdf/FontDetails.java:150-152 | the slots a byte run selects all lie in 0..255; every byte's unsigned value is one of them, and every slot is the unsigned value of some byte |
| `FontUsage.CidCodes` | java/com/lowagie/text/pdf/FontDetails.java:156-158 | the CID set holds the code of every char of the text, and nothing that is not the code of some char |
| `FontUsage.CidCodesAppend` | java/com/lowagie/text/pdf/FontDetails.java:156-158 | tracking two runs one after the other equals tracking their concatenation, so repetition and splitting make no difference |
| `FontUsage.ByteCodes` | java/com/lowagie/text/pdf/FontDetails.java:173-176 | the symbolic mode looks up the unsigned value, in 0..255, of each byte the symbol table produced |
| `FontUsage.ResolvedGlyphs` | java/com/lowagie/text/pdf/FontDetails.java:170-193 | after `n` input units the glyph buffer holds at most `n` glyphs, so it never overflows its `text.length()` capacity |
| `FontUsage.ResolvedGlyphsReadPrefix` | java/com/lowagie/text/pdf/FontDetails.java:175-193 | the glyphs found in the first `n` units depend on those units only: the scan is one pass with no look-ahead |
| `FontUsage.NonSymbolicTagReadPrefix` | java/com/lowagie/text/pdf/FontDetails.java:184-193 | non-symbolic mode: the map after the first `n` chars depends on those chars only |
| `FontUsage.SymbolicTagReadPrefix` | java/com/lowagie/text/pdf/FontDetails.java:175-181 | symbolic mode: the map after the first `n` bytes depends on those bytes only |
| `FontUsage.ResolvedGlyphsAppend` | java/com/lowagie/text/pdf/FontDetails.java:175-193 | resolution is unit by unit and keeps input order: the glyphs of a concatenation are the glyphs of the parts, concatenated |
| `FontUsage.ResolvedGlyphsSkip` | java/com/lowagie/text/pdf/FontDetails.java:186-188 | a unit whose metrics are null contributes no glyph, wherever it stands |
| `FontUsage.NonSymbolicTag` | java/com/lowagie/text/pdf/FontDetails.java:184-193 | the reference fold for the non-symbolic mode, with insert-if-absent at :189-192: it never drops a key. The `Track*` loop is proved equal to it, and `NonSymbolicTagKeys`, `NonSymbolicKeepsEntries` and `NonSymbolicFirstWins` describe it completely |
| `FontUsage.SymbolicTag` | java/com/lowagie/text/pdf/FontDetails.java:175-181 | the reference fold for the symbolic mode, where the `put` at :179 overwrites: it never drops a key. The `Track*` loop is proved equal to it, and `SymbolicTagKeys`, `SymbolicLastWins` and `SymbolicKeepsUnreached` describe it completely |
| `FontUsage.GlyphBytes` | java/com/lowagie/text/pdf/FontDetails.java:193-197 | output length is 2 × the number of resolved units, and output unit `i` is the `i`-th resolved glyph id modulo 65536, big-endian |
| `FontUsage.NonSymbolicTagKeys` | java/com/lowagie/text/pdf/FontDetails.java:184-193 | non-symbolic mode: after a run the map's keys are the old keys plus exactly the glyphs some char resolves to |
| `FontUsage.NonSymbolicKeepsEntries` | java/com/lowagie/text/pdf/FontDetails.java:190-192 | non-symbolic mode: an existing entry is never modified |
| `FontUsage.NonSymbolicFirstWins` | java/com/lowagie/text/pdf/FontDetails.java:184-193 | non-symbolic mode: a new glyph is recorded with the width and the code of the first char that resolves to it |
| `FontUsage.SymbolicTagKeys` | java/com/lowagie/text/pdf/FontDetails.java:175-181 | symbolic mode: after a run the map's keys are the old keys plus exactly the glyphs some byte resolves to |
| `FontUsage.SymbolicLastWins` | java/com/lowagie/text/pdf/FontDetails.java:175-181 | symbolic mode: a glyph's entry holds the width and the `getUnicodeDifferences` code of the last byte that resolves to it, whatever was there before |
| `FontUsage.SymbolicKeepsUnreached` | java/com/lowagie/text/pdf/FontDetails.java:176-178 | symbolic mode: an entry whose glyph no byte of the run reaches is left unchanged |
| `FontUsage.TagsStayKeyedByGlyph` | java/com/lowagie/text/pdf/FontDetails.java:179-192 | both modes store every `{glyph, width, code}` entry under its own glyph id |
| `FontUsage.NonSymbolicTagAppend` | java/com/lowagie/text/pdf/FontDetails.java:184-193 | non-symbolic mode: tracking two runs in turn leaves the same map as tracking their concatenation |
| `FontUsage.SymbolicTagAppend` | java/com/lowagie/text/pdf/FontDetails.java:175-181 | symbolic mode: tracking two byte runs in turn leaves the same map as tracking their concatenation |
| `FontUsage.NonSymbolicSkipsUnresolved` | java/com/lowagie/text/pdf/FontDetails.java:186-188 | non-symbolic mode: a char whose metrics are null leaves the map as it would be without that char, wherever it stands |
| `FontUsage.SymbolicSkipsUnresolved` | java/com/lowagie/text/pdf/FontDetails.java:176-178 | symbolic mode: a byte whose metrics are null leaves the map as it would be without that byte, wherever it stands |
| `FontUsage.FirstSetFrom` | java/com/lowagie/text/pdf/FontDetails.java:222-225 | the forward scan stops at the first set flag at or after its start, or runs off the end when none is set |
| `FontUsage.LastSetDownTo` | java/com/lowagie/text/pdf/FontDetails.java:226-229 | the backward scan stops at the last set flag not below `firstChar`, or one below `firstChar` when none is set |
| `FontUsage.SubsetRange` | java/com/lowagie/text/pdf/FontDetails.java:221-234 | with some flag set, `0 <= firstChar <= lastChar <= 255`, both set, nothing set below the first or above the last; with none set, `(255, 255)` |
| `PdfFontDetails.FontDetails.constructor` | java/com/lowagie/text/pdf/FontDetails.java:93-113 | the font kind selects the one tracker to allocate, empty (256 zero flags for simple fonts); `symbolic` is set only for Unicode TrueType fonts; subsetting starts on |
| `PdfFontDetails.FontDetails.ConvertToBytes` | java/com/lowagie/text/pdf/FontDetails.java:142-206 | per kind: the font's own bytes for Type 3, document, simple and CJK fonts; flags set for exactly the returned bytes, no other slot changed and none cleared; CID set grows by the text's codes; glyph map and glyph bytes as `FontUsage` gives them, in each mode; every other tracker unchanged |
| `PdfFontDetails.FontDetails.MarkSlots` | java/com/lowagie/text/pdf/FontDetails.java:150-152 | flag `i` becomes 1 if some byte has unsigned value `i` and keeps its old value otherwise |
| `PdfFontDetails.FontDetails.RecordCidCodes` | java/com/lowagie/text/pdf/FontDetails.java:156-158 | the new CID set is the old set together with the CID code of every char |
| `PdfFontDetails.FontDetails.EncodeSymbolic` | java/com/lowagie/text/pdf/FontDetails.java:168-197 | the map is overwritten as `SymbolicTag` of the symbol-table bytes, and the result is the big-endian units of the glyphs they resolve to |
| `PdfFontDetails.FontDetails.TrackSymbolic` | java/com/lowagie/text/pdf/FontDetails.java:174-181 | the loop over the symbol-table bytes leaves the map as `SymbolicTag` of all their unsigned values, and the first `i` buffer slots hold the `(char)` casts of exactly the glyphs those bytes resolve to, in order |
| `PdfFontDetails.FontDetails.EncodeNonSymbolic` | java/com/lowagie/text/pdf/FontDetails.java:183-197 | the map gains entries as `NonSymbolicTag` of the text, and the result is the big-endian units of the glyphs the chars resolve to |
| `PdfFontDetails.FontDetails.TrackNonSymbolic` | java/com/lowagie/text/pdf/FontDetails.java:184-194 | the loop over the chars leaves the map as `NonSymbolicTag` of the whole text, and the first `i` buffer slots hold the `(char)` casts of exactly the glyphs the chars resolve to, in order |
| `PdfFontDetails.FontDetails.WriteFont` | java/com/lowagie/text/pdf/FontDetails.java:211-255 | Type 3: written with no extra data; document fonts: not written; CJK: the CID set itself; Unicode TrueType: the glyph map itself; simple and subset: `SubsetRange` of the flags, which stay as they were; simple and not subset: all 256 flags set and `(0, 255)`; the flag array passed is the tracker's own |
| `PdfFontDetails.FontDetails.IsSubset` | java/com/lowagie/text/pdf/FontDetails.java:261-263 | reports the subsetting flag that `WriteFont` consults |
| `PdfFontDetails.FontDetails.SetSubset` | java/com/lowagie/text/pdf/FontDetails.java:270-272 | sets the subsetting flag and nothing else |

## Left out

- `BaseFont.writeFont(writer, reference, extra)` and `PdfWriter` do serialisation and I/O in classes not modelled here. `WriteFont` returns the `extra` argument it would pass, or `NotWritten` when the call is not made.
- `fontName`, `indirectReference` and their getters (`getIndirectReference`, `getFontName`, `getBaseFont`) are identity tokens and trivial getters. They take no part in tracking or encoding.
- The font programs, metrics tables, `getUnicodeDifferences`, `getCidCode`, the font's `convertToBytes` and the "symboltt" table of `PdfEncodings` are not part of this model. They are function-valued fields of `BaseFont` that the tracker only applies.
- `PdfFontDetails.FontDetails.ConvertToBytes` requires, for a symbolic font, that the "symboltt" table yield at most one byte per char. The glyph buffer is sized by the text's length but filled from the table's bytes. The Java code overflows the buffer only when more bytes resolve to a glyph than the text has chars, so a table output longer than the text whose extra bytes have no metrics is accepted by Java but not by the model.
- `JavaPrimitives.Utf16BE` writes every 16-bit unit as its two bytes. This differs from the JDK for a lone unit in the surrogate range 0xD800–0xDFFF, which a glyph id can cast into. The JDK's "UnicodeBigUnmarked" encoder treats such a unit as malformed and writes replacement bytes, while `Utf16BE` writes the unit itself.
- The `UnsupportedEncodingException` and `ExceptionConverter` wrapping are not modelled. The encoding "UnicodeBigUnmarked" is always present, so the exception cannot occur. Exceptions thrown by the font's own `writeFont` are I/O-side and are not modelled either.
- The CID set and the glyph map are values (`set`, `map`) that the methods reassign. In Java they are hashtable objects, and `writeFont` passes those live objects. The model passes their current value, so aliasing by a later caller is not captured. The simple fonts' flag array is passed by reference, as in Java.
