/** The font object a FontDetails tracker works for: the part of BaseFont,
    CJKFont, TrueTypeFontUnicode and PdfEncodings that the tracker calls.
    Their bodies (font programs, metrics tables, encoding tables) are not
    part of this model, so each query is a function-valued field that the
    tracker only ever applies. */
module BaseFonts {
  import opened JavaPrimitives

  /** The kinds that BaseFont.getFontType() reports. */
  datatype FontType =
    | Type1            // FONT_TYPE_T1: a Type 1 font with a single-byte encoding
    | TrueType         // FONT_TYPE_TT: a TrueType font with a single-byte encoding
    | Cjk              // FONT_TYPE_CJK: a CJK composite font
    | TrueTypeUnicode  // FONT_TYPE_TTUNI: a TrueType font addressed by glyph id
    | Document         // FONT_TYPE_DOCUMENT: a font already present in an imported document
    | Type3            // FONT_TYPE_T3: a user-defined Type 3 font

  datatype Option<+T> = None | Some(value: T)

  /** What TrueTypeFontUnicode.getMetricsTT returns when it finds a glyph:
      `{glyph id, advance width}`; a miss (Java's null) is `None`. */
  datatype Metrics = Metrics(glyph: int, width: int)

  datatype BaseFont = BaseFont(
    /** getFontType() */
    fontType: FontType,
    /** isFontSpecific(): a symbolic font, one without a Unicode cmap */
    fontSpecific: bool,
    /** convertToBytes(String): the font's own byte encoding of a text */
    convertToBytes: seq<JChar> -> seq<int8>,
    /** CJKFont.getCidCode(char) */
    cidCode: JChar -> int,
    /** TrueTypeFontUnicode.getMetricsTT(int) */
    metricsTT: int -> Option<Metrics>,
    /** TrueTypeFontUnicode.getUnicodeDifferences(int) */
    unicodeDifferences: int -> int,
    /** PdfEncodings.convertToBytes(text, "symboltt"): the fixed symbol
        encoding table, which maps every char to at most one byte */
    symbolTT: seq<JChar> -> seq<int8>
  )
}
