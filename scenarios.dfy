/** Clients of FontDetails that drive one tracker through a short document
    with a concrete font and check, from the contracts alone, what the
    tracker records and what it emits at close. */
module FontDetailsScenarios {
  import opened JavaPrimitives
  import opened BaseFonts
  import opened FontUsage
  import opened PdfFontDetails

  /** A font of the given kind whose queries are all fixed by the caller. */
  function Font(kind: FontType, fontSpecific: bool, bytes: seq<int8>, metrics: int -> Option<Metrics>,
                symbol: seq<int8>): BaseFont
  {
    BaseFont(kind, fontSpecific, _ => bytes, c => if c == 0x41 then 10 else 20, metrics,
             u => u + 0xf000, _ => symbol)
  }

  /** A simple font whose text encodes to bytes 65 and 66 reports the range
      (65, 66) when subset, and (0, 255) with every flag set when not. */
  method SimpleFontRange(subsetting: bool) {
    var fd := new FontDetails(Font(Type1, false, [65, 66], _ => None, []));
    var b := fd.ConvertToBytes([0x41, 0x42]);
    assert UsedSlots(b) == {65, 66} by {
      assert Unsigned(b[0]) == 65 && Unsigned(b[1]) == 66;
    }
    fd.SetSubset(subsetting);
    var e := fd.WriteFont();
    if subsetting {
      assert fd.shortTag[65] != 0;
      assert e.extra.firstChar == 65 && e.extra.lastChar == 66;
    } else {
      assert e.extra.firstChar == 0 && e.extra.lastChar == 0xff;
    }
  }

  /** A simple font that was never used reports the range (255, 255). */
  method UnusedSimpleFont() {
    var fd := new FontDetails(Font(TrueType, false, [], _ => None, []));
    var e := fd.WriteFont();
    assert e.extra.firstChar == 0xff && e.extra.lastChar == 0xff;
  }

  /** A CJK font records {10, 20} for "AAB", however often a char repeats. */
  method CjkCodes() {
    var fd := new FontDetails(Font(Cjk, false, [1, 2], _ => None, []));
    var b := fd.ConvertToBytes([0x41, 0x41, 0x42]);
    assert fd.cjkTag == {10, 20} by {
      var text: seq<JChar> := [0x41, 0x41, 0x42];
      assert fd.baseFont.cidCode(text[0]) == 10 && fd.baseFont.cidCode(text[2]) == 20;
    }
    var e := fd.WriteFont();
    assert e == Written(UsedCids({10, 20}));
  }

  /** Non-symbolic Unicode TrueType: 'A' then 'a', both drawn with glyph 7,
      leave 'A' as the recorded code; each resolved char gives two bytes. */
  method FirstCodeWins() {
    var metrics := (c: int) => if c == 0x41 || c == 0x61 then Some(Metrics(7, 500)) else None;
    var fd := new FontDetails(Font(TrueTypeUnicode, false, [], metrics, []));
    var b1 := fd.ConvertToBytes([0x41]);
    var b2 := fd.ConvertToBytes([0x61, 0x20]);
    var first := map[7 := GlyphUsage(7, 500, 0x41)];
    assert fd.longTag == first by {
      var text: seq<JChar> := [0x61, 0x20];
      NonSymbolicKeepsEntries(metrics, first, text, 2, 7);
      forall g | g != 7 ensures g !in fd.longTag {
        NonSymbolicTagKeys(metrics, first, text, 2, g);
      }
    }
    assert |b2| == 2 by {
      assert ResolvedGlyphs(metrics, [0x61, 0x20], 2) == [7];
    }
  }

  /** Symbolic Unicode TrueType: two bytes drawn with one glyph; the second
      overwrites the entry the first made. */
  method LastByteWins() {
    var metrics := (c: int) => if c == 0x41 || c == 0x42 then Some(Metrics(9, 600)) else None;
    var fd := new FontDetails(Font(TrueTypeUnicode, true, [], metrics, [0x41, 0x42]));
    var b := fd.ConvertToBytes([0xf041, 0xf042]);
    var codes := ByteCodes([0x41, 0x42]);
    assert codes[0] == 0x41 && codes[1] == 0x42;
    SymbolicLastWins(metrics, fd.baseFont.unicodeDifferences, map[], codes, 2, 9, 1);
    assert fd.longTag[9] == GlyphUsage(9, 600, 0xf042);
  }

  /** An empty text changes no tracker and gives no bytes. */
  method EmptyText(kind: FontType, fontSpecific: bool) {
    var metrics := (c: int) => Some(Metrics(c, 1));
    var fd := new FontDetails(Font(kind, fontSpecific, [], metrics, []));
    var b := fd.ConvertToBytes([]);
    assert b == [];
    assert fd.cjkTag == {} && fd.longTag == map[];
    if fd.shortTag != null {
      assert forall i :: 0 <= i < 0x100 ==> fd.shortTag[i] == 0;
    }
  }
}
