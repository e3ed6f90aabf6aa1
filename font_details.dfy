/** FontDetails: the per-font, per-document tracker that encodes text for a
    content stream and records which characters or glyphs the text used, so
    that only those are described when the font is written at close. */
module PdfFontDetails {
  import opened JavaPrimitives
  import opened BaseFonts
  import opened FontUsage

  /** The extra argument writeFont hands to BaseFont.writeFont. */
  datatype ExtraData =
    | NoExtra                                                         // null
    | RangeAndFlags(firstChar: int, lastChar: int, flags: array<int8>) // {firstChar, lastChar, shortTag}
    | UsedCids(cids: set<int>)                                        // {cjkTag}
    | GlyphUsages(usages: map<int, GlyphUsage>)                       // {longTag}

  /** What writeFont does: call BaseFont.writeFont with some extra data, or
      not call it at all (the font kinds its switch has no case for). */
  datatype Emission = NotWritten | Written(extra: ExtraData)

  class FontDetails {
    /** The font this tracker works for. */
    const baseFont: BaseFont
    /** The font kind, read once from the font. */
    const fontType: FontType
    /** For a Unicode TrueType font: whether the font is symbolic. */
    const symbolic: bool
    /** Simple fonts: one flag per byte value, 1 once the value was used;
        null for the other kinds. */
    const shortTag: array?<int8>
    /** CJK fonts: the CID codes used. */
    var cjkTag: set<int>
    /** Unicode TrueType fonts: glyph id to `{glyph, width, code}`. */
    var longTag: map<int, GlyphUsage>
    /** Whether only the used glyphs and widths are described. */
    var subset: bool

    /** Exactly the tracking structure of the font kind is in use. */
    ghost predicate Valid()
      reads this, shortTag
    {
      fontType == baseFont.fontType &&
      symbolic == (fontType.TrueTypeUnicode? && baseFont.fontSpecific) &&
      (shortTag != null <==> fontType.Type1? || fontType.TrueType?) &&
      (shortTag != null ==>
         shortTag.Length == 0x100 &&
         forall i :: 0 <= i < 0x100 ==> shortTag[i] == 0 || shortTag[i] == 1) &&
      (!fontType.Cjk? ==> cjkTag == {}) &&
      (!fontType.TrueTypeUnicode? ==> longTag == map[]) &&
      KeyedByGlyph(longTag)
    }

    /** Reads the kind of `baseFont` and allocates the matching tracker,
        empty; subsetting is on. */
    constructor (baseFont: BaseFont)
      ensures Valid()
      ensures this.baseFont == baseFont && subset
      ensures shortTag != null ==> fresh(shortTag) && forall i :: 0 <= i < 0x100 ==> shortTag[i] == 0
      ensures cjkTag == {} && longTag == map[]
    {
      this.baseFont := baseFont;
      fontType := baseFont.fontType;
      symbolic := baseFont.fontType.TrueTypeUnicode? && baseFont.fontSpecific;
      if baseFont.fontType.Type1? || baseFont.fontType.TrueType? {
        shortTag := new int8[0x100](_ => 0);
      } else {
        shortTag := null;
      }
      cjkTag := {};
      longTag := map[];
      subset := true;
    }

    /** Converts `text` into the bytes placed in the content stream and
        records what it used. */
    method ConvertToBytes(text: seq<JChar>) returns (b: seq<int8>)
      requires Valid()
      requires symbolic ==> |baseFont.symbolTT(text)| <= |text|
      modifies this`cjkTag, this`longTag, shortTag
      ensures Valid()
      ensures fontType.Type3? || fontType.Document? || fontType.Type1? || fontType.TrueType? || fontType.Cjk?
              ==> b == baseFont.convertToBytes(text)
      ensures shortTag != null ==>
                (forall i :: 0 <= i < 0x100 ==>
                   shortTag[i] == if i in UsedSlots(b) then 1 else old(shortTag[i])) &&
                (forall k :: 0 <= k < |b| ==> shortTag[Unsigned(b[k])] == 1)
      ensures cjkTag == old(cjkTag) + (if fontType.Cjk? then CidCodes(baseFont.cidCode, text) else {})
      ensures fontType.TrueTypeUnicode? && !symbolic ==>
                longTag == NonSymbolicTag(baseFont.metricsTT, old(longTag), text, |text|) &&
                b == GlyphBytes(ResolvedGlyphs(baseFont.metricsTT, text, |text|))
      ensures symbolic ==>
                var codes := ByteCodes(baseFont.symbolTT(text));
                longTag == SymbolicTag(baseFont.metricsTT, baseFont.unicodeDifferences, old(longTag), codes, |codes|) &&
                b == GlyphBytes(ResolvedGlyphs(baseFont.metricsTT, codes, |codes|))
      ensures !fontType.TrueTypeUnicode? ==> longTag == old(longTag)
    {
      match fontType
      case Type3 =>
        b := baseFont.convertToBytes(text);
      case Type1 | TrueType =>
        b := baseFont.convertToBytes(text);
        MarkSlots(b);
      case Cjk =>
        RecordCidCodes(text);
        b := baseFont.convertToBytes(text);
      case Document =>
        b := baseFont.convertToBytes(text);
      case TrueTypeUnicode =>
        if symbolic {
          b := EncodeSymbolic(text);
        } else {
          b := EncodeNonSymbolic(text);
        }
    }

    /** Simple fonts: sets the flag of every byte of `b`. */
    method MarkSlots(b: seq<int8>)
      requires Valid() && shortTag != null
      modifies shortTag
      ensures Valid()
      ensures forall i :: 0 <= i < 0x100 ==>
                shortTag[i] == if i in UsedSlots(b) then 1 else old(shortTag[i])
    {
      var k := 0;
      while k < |b|
        invariant 0 <= k <= |b|
        invariant forall i :: 0 <= i < 0x100 ==>
                    shortTag[i] == if i in UsedSlots(b[..k]) then 1 else old(shortTag[i])
      {
        UsedSlotsSnoc(b[..k], b[k]);
        assert b[..k + 1] == b[..k] + [b[k]];
        shortTag[Unsigned(b[k])] := 1;
        k := k + 1;
      }
      assert b[..k] == b;
    }

    /** CJK fonts: adds the CID code of every char of `text`. */
    method RecordCidCodes(text: seq<JChar>)
      requires Valid() && fontType.Cjk?
      modifies this`cjkTag
      ensures Valid()
      ensures cjkTag == old(cjkTag) + CidCodes(baseFont.cidCode, text)
    {
      var k := 0;
      while k < |text|
        invariant 0 <= k <= |text|
        invariant cjkTag == old(cjkTag) + CidCodes(baseFont.cidCode, text[..k])
      {
        CidCodesSnoc(baseFont.cidCode, text[..k], text[k]);
        assert text[..k + 1] == text[..k] + [text[k]];
        cjkTag := cjkTag + {baseFont.cidCode(text[k])};
        k := k + 1;
      }
      assert text[..k] == text;
    }

    /** Symbolic Unicode TrueType fonts: encodes `text` with the symbol
        table, looks each byte up, overwrites the entry of every glyph found
        and returns the glyph ids found as big-endian 16-bit units. */
    method EncodeSymbolic(text: seq<JChar>) returns (b: seq<int8>)
      requires Valid() && symbolic
      requires |baseFont.symbolTT(text)| <= |text|
      modifies this`longTag
      ensures Valid()
      ensures var codes := ByteCodes(baseFont.symbolTT(text));
              longTag == SymbolicTag(baseFont.metricsTT, baseFont.unicodeDifferences, old(longTag), codes, |codes|) &&
              b == GlyphBytes(ResolvedGlyphs(baseFont.metricsTT, codes, |codes|))
    {
      var glyph := new JChar[|text|];
      b := baseFont.symbolTT(text);
      TagsStayKeyedByGlyph(baseFont.metricsTT, baseFont.unicodeDifferences, longTag, ByteCodes(b), |b|);
      var i := TrackSymbolic(b, glyph);
      b := Utf16BE(glyph[..i]);
    }

    /** The loop of the symbolic mode: for each byte with metrics, the
        glyph's entry is overwritten and the glyph id is appended to the
        buffer `glyph`; returns how many ids were appended. The unsigned
        value of every byte is read once, before the loop. */
    method TrackSymbolic(b: seq<int8>, glyph: array<JChar>) returns (i: nat)
      requires |b| <= glyph.Length
      modifies this`longTag, glyph
      ensures var codes := ByteCodes(b);
              longTag == SymbolicTag(baseFont.metricsTT, baseFont.unicodeDifferences, old(longTag), codes, |b|) &&
              i <= glyph.Length && glyph[..i] == CharCasts(ResolvedGlyphs(baseFont.metricsTT, codes, |b|))
    {
      var metrics := baseFont.metricsTT;
      var codes := ByteCodes(b);
      ghost var found: seq<int> := [];
      var tag := longTag;
      i := 0;
      var k := 0;
      while k < |codes|
        invariant 0 <= i <= k <= |codes|
        invariant found == ResolvedGlyphs(metrics, codes, k) && |found| == i
        invariant glyph[..i] == CharCasts(found)
        invariant tag == SymbolicTag(metrics, baseFont.unicodeDifferences, longTag, codes, k)
        modifies glyph
      {
        var code := codes[k];
        var m := metrics(code);
        if m.Some? {
          tag := tag[m.value.glyph := GlyphUsage(m.value.glyph, m.value.width,
                                                baseFont.unicodeDifferences(code))];
          glyph[i] := CharCast(m.value.glyph);
          CharCastsSnoc(found, m.value.glyph);
          assert glyph[..i + 1] == glyph[..i] + [glyph[i]];
          found := found + [m.value.glyph];
          i := i + 1;
        }
        k := k + 1;
      }
      longTag := tag;
    }

    /** Non-symbolic Unicode TrueType fonts: looks each char up, records a
        glyph the first time it is found and returns the glyph ids found as
        big-endian 16-bit units. */
    method EncodeNonSymbolic(text: seq<JChar>) returns (b: seq<int8>)
      requires Valid() && fontType.TrueTypeUnicode?
      modifies this`longTag
      ensures Valid()
      ensures longTag == NonSymbolicTag(baseFont.metricsTT, old(longTag), text, |text|)
      ensures b == GlyphBytes(ResolvedGlyphs(baseFont.metricsTT, text, |text|))
    {
      var glyph := new JChar[|text|];
      TagsStayKeyedByGlyph(baseFont.metricsTT, baseFont.unicodeDifferences, longTag, text, |text|);
      var i := TrackNonSymbolic(text, glyph);
      b := Utf16BE(glyph[..i]);
    }

    /** The loop of the non-symbolic mode: for each char with metrics, the
        glyph gets an entry if it has none yet, and the glyph id is appended
        to the buffer `glyph`; returns how many ids were appended. */
    method TrackNonSymbolic(text: seq<JChar>, glyph: array<JChar>) returns (i: nat)
      requires |text| <= glyph.Length
      modifies this`longTag, glyph
      ensures longTag == NonSymbolicTag(baseFont.metricsTT, old(longTag), text, |text|)
      ensures i <= glyph.Length && glyph[..i] == CharCasts(ResolvedGlyphs(baseFont.metricsTT, text, |text|))
    {
      var metrics := baseFont.metricsTT;
      ghost var found: seq<int> := [];
      var tag := longTag;
      i := 0;
      var k := 0;
      while k < |text|
        invariant 0 <= i <= k <= |text|
        invariant found == ResolvedGlyphs(metrics, text, k) && |found| == i
        invariant glyph[..i] == CharCasts(found)
        invariant tag == NonSymbolicTag(metrics, longTag, text, k)
        modifies glyph
      {
        var c := text[k];
        var m := metrics(c);
        if m.Some? {
          if m.value.glyph !in tag {
            tag := tag[m.value.glyph := GlyphUsage(m.value.glyph, m.value.width, c)];
          }
          glyph[i] := CharCast(m.value.glyph);
          CharCastsSnoc(found, m.value.glyph);
          assert glyph[..i + 1] == glyph[..i] + [glyph[i]];
          found := found + [m.value.glyph];
          i := i + 1;
        }
        k := k + 1;
      }
      longTag := tag;
    }

    /** Describes the font at close: reduces the tracker to what the font
        kind emits and returns the extra data passed to the font's own
        writeFont. With subsetting off, a simple font marks all 256 slots. */
    method WriteFont() returns (e: Emission)
      requires Valid()
      modifies shortTag
      ensures Valid()
      ensures fontType.Type3? ==> e == Written(NoExtra)
      ensures fontType.Document? ==> e == NotWritten
      ensures fontType.Cjk? ==> e == Written(UsedCids(cjkTag))
      ensures fontType.TrueTypeUnicode? ==> e == Written(GlyphUsages(longTag))
      ensures shortTag != null ==>
                e.Written? && e.extra.RangeAndFlags? && e.extra.flags == shortTag &&
                if subset then
                  (e.extra.firstChar, e.extra.lastChar) == SubsetRange(old(shortTag[..])) &&
                  shortTag[..] == old(shortTag[..])
                else
                  e.extra.firstChar == 0 && e.extra.lastChar == 0xff &&
                  forall i :: 0 <= i < 0x100 ==> shortTag[i] == 1
    {
      match fontType
      case Type3 =>
        e := Written(NoExtra);
      case Type1 | TrueType =>
        var firstChar: int;
        var lastChar: int;
        if subset {
          ghost var flags := shortTag[..];
          firstChar := 0;
          while firstChar < 0x100 && shortTag[firstChar] == 0
            invariant 0 <= firstChar <= 0x100
            invariant FirstSetFrom(flags, firstChar) == FirstSetFrom(flags, 0)
          {
            firstChar := firstChar + 1;
          }
          lastChar := 0xff;
          while lastChar >= firstChar && shortTag[lastChar] == 0
            invariant firstChar - 1 <= lastChar <= 0xff
            invariant LastSetDownTo(flags, firstChar, lastChar) == LastSetDownTo(flags, firstChar, 0xff)
          {
            lastChar := lastChar - 1;
          }
          if firstChar > 0xff {
            firstChar := 0xff;
            lastChar := 0xff;
          }
        } else {
          var k := 0;
          while k < shortTag.Length
            invariant 0 <= k <= shortTag.Length
            invariant forall i :: 0 <= i < k ==> shortTag[i] == 1
            invariant forall i :: k <= i < shortTag.Length ==> shortTag[i] == old(shortTag[i])
            modifies shortTag
          {
            shortTag[k] := 1;
            k := k + 1;
          }
          firstChar := 0;
          lastChar := shortTag.Length - 1;
        }
        e := Written(RangeAndFlags(firstChar, lastChar, shortTag));
      case Cjk =>
        e := Written(UsedCids(cjkTag));
      case TrueTypeUnicode =>
        e := Written(GlyphUsages(longTag));
      case Document =>
        e := NotWritten;
    }

    /** Whether only the used glyphs and widths are described. */
    method IsSubset() returns (r: bool)
      ensures r == subset
    {
      r := subset;
    }

    /** Sets whether only the used glyphs and widths are described. */
    method SetSubset(subset: bool)
      modifies this`subset
      ensures this.subset == subset
    {
      this.subset := subset;
    }
  }
}
