/** What a FontDetails tracker records and emits, as functions of the text
    it has seen: the flag slots of a simple font, the CID codes of a CJK
    font, the glyph map of a Unicode TrueType font in its two modes, the
    glyph-id byte encoding, and the first/last range of a flag array.
    The class FontDetails (font_details.dfy) is proved against these. */
module FontUsage {
  import opened JavaPrimitives
  import opened BaseFonts

  /** One value of the TrueType glyph map: Java's `int[]{glyph, width, code}`. */
  datatype GlyphUsage = GlyphUsage(glyph: int, width: int, code: int)

  /** Every entry of a glyph map is stored under its own glyph id. */
  ghost predicate KeyedByGlyph(tag: map<int, GlyphUsage>)
  {
    forall g :: g in tag ==> tag[g].glyph == g
  }

  // ---------------------------------------------------------------------
  // Simple fonts: the 256 flag slots

  /** The flag slots a run of bytes selects: `b & 0xff` for each byte `b`. */
  function UsedSlots(bytes: seq<int8>): (slots: set<int>)
    ensures forall s :: s in slots ==> 0 <= s < 0x100
    ensures forall k :: 0 <= k < |bytes| ==> Unsigned(bytes[k]) in slots
    ensures forall s :: s in slots ==> exists k :: 0 <= k < |bytes| && Unsigned(bytes[k]) == s
  {
    set k | 0 <= k < |bytes| :: Unsigned(bytes[k])
  }

  /** One more byte selects one more slot. */
  lemma UsedSlotsSnoc(bytes: seq<int8>, b: int8)
    ensures UsedSlots(bytes + [b]) == UsedSlots(bytes) + {Unsigned(b)}
  {
    var s := bytes + [b];
    assert s[|bytes|] == b;
    forall u | u in UsedSlots(s) ensures u in UsedSlots(bytes) + {Unsigned(b)} {
      var k :| 0 <= k < |s| && Unsigned(s[k]) == u;
      if k < |bytes| { assert s[k] == bytes[k]; }
    }
    forall u | u in UsedSlots(bytes) ensures u in UsedSlots(s) {
      var k :| 0 <= k < |bytes| && Unsigned(bytes[k]) == u;
      assert s[k] == bytes[k];
    }
  }

  // ---------------------------------------------------------------------
  // CJK fonts: the set of used CID codes

  /** The CID codes of the chars of a text. */
  function CidCodes(cidCode: JChar -> int, text: seq<JChar>): (cids: set<int>)
    ensures forall k :: 0 <= k < |text| ==> cidCode(text[k]) in cids
    ensures forall c :: c in cids ==> exists k :: 0 <= k < |text| && cidCode(text[k]) == c
  {
    set k | 0 <= k < |text| :: cidCode(text[k])
  }

  /** One more char adds its CID code. */
  lemma CidCodesSnoc(cidCode: JChar -> int, text: seq<JChar>, c: JChar)
    ensures CidCodes(cidCode, text + [c]) == CidCodes(cidCode, text) + {cidCode(c)}
  {
    var s := text + [c];
    assert s[|text|] == c;
    forall x | x in CidCodes(cidCode, s) ensures x in CidCodes(cidCode, text) + {cidCode(c)} {
      var k :| 0 <= k < |s| && cidCode(s[k]) == x;
      if k < |text| { assert s[k] == text[k]; }
    }
    forall x | x in CidCodes(cidCode, text) ensures x in CidCodes(cidCode, s) {
      var k :| 0 <= k < |text| && cidCode(text[k]) == x;
      assert s[k] == text[k];
    }
  }

  /** Tracking two texts one after the other records what tracking their
      concatenation does, so splitting a text into runs, and repeating a
      char, make no difference to the set. */
  lemma CidCodesAppend(cidCode: JChar -> int, s: seq<JChar>, t: seq<JChar>)
    ensures CidCodes(cidCode, s + t) == CidCodes(cidCode, s) + CidCodes(cidCode, t)
  {
    var st := s + t;
    forall x | x in CidCodes(cidCode, st)
      ensures x in CidCodes(cidCode, s) + CidCodes(cidCode, t)
    {
      var k :| 0 <= k < |st| && cidCode(st[k]) == x;
      if k < |s| { assert st[k] == s[k]; } else { assert st[k] == t[k - |s|]; }
    }
    forall x | x in CidCodes(cidCode, t) ensures x in CidCodes(cidCode, st) {
      var k :| 0 <= k < |t| && cidCode(t[k]) == x;
      assert st[|s| + k] == t[k];
    }
    forall x | x in CidCodes(cidCode, s) ensures x in CidCodes(cidCode, st) {
      var k :| 0 <= k < |s| && cidCode(s[k]) == x;
      assert st[k] == s[k];
    }
  }

  // ---------------------------------------------------------------------
  // Unicode TrueType fonts: glyph resolution and the glyph map
  //
  // Each of the three folds below describes the state after the first `n`
  // codes of a run, so that a loop over the run can name its state after
  // `k` steps directly.

  /** The unsigned values of a run of bytes: the codes that the symbolic
      mode looks up (`b[k] & 0xff`). */
  function ByteCodes(bytes: seq<int8>): (codes: seq<int>)
    ensures |codes| == |bytes|
    ensures forall k {:trigger codes[k]} :: 0 <= k < |bytes| ==> codes[k] == Unsigned(bytes[k]) && 0 <= codes[k] < 0x100
  {
    seq(|bytes|, k requires 0 <= k < |bytes| => Unsigned(bytes[k]))
  }

  /** `code` has metrics, and they name glyph `g`. */
  predicate ResolvesTo(metrics: int -> Option<Metrics>, code: int, g: int)
  {
    metrics(code).Some? && metrics(code).value.glyph == g
  }

  /** The glyph ids of those of the first `n` codes that have metrics, in
      input order; a code without metrics contributes nothing. */
  function ResolvedGlyphs(metrics: int -> Option<Metrics>, codes: seq<int>, n: nat): (glyphs: seq<int>)
    requires n <= |codes|
    ensures |glyphs| <= n
  {
    if n == 0 then []
    else
      var front := ResolvedGlyphs(metrics, codes, n - 1);
      match metrics(codes[n - 1])
      case None => front
      case Some(m) => front + [m.glyph]
  }

  /** The glyph map after the non-symbolic mode has seen the first `n`
      codes: a glyph met for the first time is recorded with the code that
      reached it; an existing entry is left as it is. */
  function NonSymbolicTag(metrics: int -> Option<Metrics>, tag: map<int, GlyphUsage>, codes: seq<int>, n: nat)
    : (r: map<int, GlyphUsage>)
    requires n <= |codes|
    ensures tag.Keys <= r.Keys
  {
    if n == 0 then tag
    else
      var t := NonSymbolicTag(metrics, tag, codes, n - 1);
      var c := codes[n - 1];
      match metrics(c)
      case None => t
      case Some(m) => if m.glyph in t then t else t[m.glyph := GlyphUsage(m.glyph, m.width, c)]
  }

  /** The glyph map after the symbolic mode has seen the first `n` byte
      codes: every code with metrics overwrites its glyph's entry, with the
      code point that `differences` gives for the byte. */
  function SymbolicTag(metrics: int -> Option<Metrics>, differences: int -> int,
                       tag: map<int, GlyphUsage>, codes: seq<int>, n: nat): (r: map<int, GlyphUsage>)
    requires n <= |codes|
    ensures tag.Keys <= r.Keys
  {
    if n == 0 then tag
    else
      var t := SymbolicTag(metrics, differences, tag, codes, n - 1);
      var c := codes[n - 1];
      match metrics(c)
      case None => t
      case Some(m) => t[m.glyph := GlyphUsage(m.glyph, m.width, differences(c))]
  }

  /** The bytes the Unicode TrueType branch emits for a run of glyph ids:
      each id, cut to a Java char, as two big-endian bytes. */
  function GlyphBytes(glyphs: seq<int>): (r: seq<int8>)
    ensures |r| == 2 * |glyphs|
    ensures forall i {:trigger UnitAt(r, i)} :: 0 <= i < |glyphs| ==> UnitAt(r, i) == glyphs[i] % 0x1_0000
  {
    Utf16BE(CharCasts(glyphs))
  }

  /** The glyphs of the first `n` codes depend on those codes only. */
  lemma {:induction false} ResolvedGlyphsReadPrefix(metrics: int -> Option<Metrics>, a: seq<int>, b: seq<int>, n: nat)
    requires n <= |a| && n <= |b| && a[..n] == b[..n]
    ensures ResolvedGlyphs(metrics, a, n) == ResolvedGlyphs(metrics, b, n)
  {
    if n > 0 {
      assert a[n - 1] == a[..n][n - 1] == b[..n][n - 1] == b[n - 1];
      assert a[..n - 1] == a[..n][..n - 1] == b[..n][..n - 1] == b[..n - 1];
      ResolvedGlyphsReadPrefix(metrics, a, b, n - 1);
    }
  }

  /** Non-symbolic mode: the map after the first `n` codes depends on
      those codes only. */
  lemma {:induction false} NonSymbolicTagReadPrefix(metrics: int -> Option<Metrics>, tag: map<int, GlyphUsage>,
                                                    a: seq<int>, b: seq<int>, n: nat)
    requires n <= |a| && n <= |b| && a[..n] == b[..n]
    ensures NonSymbolicTag(metrics, tag, a, n) == NonSymbolicTag(metrics, tag, b, n)
  {
    if n > 0 {
      assert a[n - 1] == a[..n][n - 1] == b[..n][n - 1] == b[n - 1];
      assert a[..n - 1] == a[..n][..n - 1] == b[..n][..n - 1] == b[..n - 1];
      NonSymbolicTagReadPrefix(metrics, tag, a, b, n - 1);
    }
  }

  /** Symbolic mode: the map after the first `n` codes depends on those
      codes only. */
  lemma {:induction false} SymbolicTagReadPrefix(metrics: int -> Option<Metrics>, differences: int -> int,
                                                 tag: map<int, GlyphUsage>, a: seq<int>, b: seq<int>, n: nat)
    requires n <= |a| && n <= |b| && a[..n] == b[..n]
    ensures SymbolicTag(metrics, differences, tag, a, n) == SymbolicTag(metrics, differences, tag, b, n)
  {
    if n > 0 {
      assert a[n - 1] == a[..n][n - 1] == b[..n][n - 1] == b[n - 1];
      assert a[..n - 1] == a[..n][..n - 1] == b[..n][..n - 1] == b[..n - 1];
      SymbolicTagReadPrefix(metrics, differences, tag, a, b, n - 1);
    }
  }

  /** Resolution works unit by unit: the glyphs of `s` followed by the
      first `j` codes of `t` are the glyphs of `s` followed by those of the
      `j` codes. */
  lemma {:induction false} ResolvedGlyphsAppend(metrics: int -> Option<Metrics>, s: seq<int>, t: seq<int>, j: nat)
    requires j <= |t|
    ensures ResolvedGlyphs(metrics, s + t, |s| + j) == ResolvedGlyphs(metrics, s, |s|) + ResolvedGlyphs(metrics, t, j)
  {
    if j == 0 {
      assert (s + t)[..|s|] == s[..|s|];
      ResolvedGlyphsReadPrefix(metrics, s + t, s, |s|);
    } else {
      ResolvedGlyphsAppend(metrics, s, t, j - 1);
      assert (s + t)[|s| + j - 1] == t[j - 1];
    }
  }

  /** A code without metrics adds no glyph, wherever it stands. */
  lemma {:induction false} ResolvedGlyphsSkip(metrics: int -> Option<Metrics>, s: seq<int>, c: int, t: seq<int>)
    requires metrics(c).None?
    ensures ResolvedGlyphs(metrics, s + [c] + t, |s| + 1 + |t|) == ResolvedGlyphs(metrics, s + t, |s| + |t|)
  {
    var sc := s + [c];
    calc {
      ResolvedGlyphs(metrics, sc + t, |sc| + |t|);
      == { ResolvedGlyphsAppend(metrics, sc, t, |t|); }
      ResolvedGlyphs(metrics, sc, |sc|) + ResolvedGlyphs(metrics, t, |t|);
      == { assert sc[..|s|] == s[..|s|] && sc[|s|] == c;
           ResolvedGlyphsReadPrefix(metrics, sc, s, |s|); }
      ResolvedGlyphs(metrics, s, |s|) + ResolvedGlyphs(metrics, t, |t|);
      == { ResolvedGlyphsAppend(metrics, s, t, |t|); }
      ResolvedGlyphs(metrics, s + t, |s| + |t|);
    }
  }

  /** Non-symbolic mode: the map gains exactly the glyphs that one of the
      first `n` codes resolves to. */
  lemma {:induction false} NonSymbolicTagKeys(metrics: int -> Option<Metrics>, tag: map<int, GlyphUsage>,
                                              codes: seq<int>, n: nat, g: int)
    requires n <= |codes|
    ensures g in NonSymbolicTag(metrics, tag, codes, n) <==>
            g in tag || exists k :: 0 <= k < n && ResolvesTo(metrics, codes[k], g)
  {
    if n > 0 {
      NonSymbolicTagKeys(metrics, tag, codes, n - 1, g);
    }
  }

  /** Non-symbolic mode: an entry already in the map is never modified. */
  lemma {:induction false} NonSymbolicKeepsEntries(metrics: int -> Option<Metrics>, tag: map<int, GlyphUsage>,
                                                   codes: seq<int>, n: nat, g: int)
    requires n <= |codes| && g in tag
    ensures g in NonSymbolicTag(metrics, tag, codes, n)
    ensures NonSymbolicTag(metrics, tag, codes, n)[g] == tag[g]
  {
    if n > 0 {
      NonSymbolicKeepsEntries(metrics, tag, codes, n - 1, g);
    }
  }

  /** Non-symbolic mode: a glyph not yet in the map is recorded with the
      width and the code of the first code that resolves to it; later
      codes reaching the same glyph do not change the entry. */
  lemma {:induction false} NonSymbolicFirstWins(metrics: int -> Option<Metrics>, tag: map<int, GlyphUsage>,
                                                codes: seq<int>, n: nat, g: int, k: nat)
    requires n <= |codes| && g !in tag
    requires k < n && ResolvesTo(metrics, codes[k], g)
    requires forall j :: 0 <= j < k ==> !ResolvesTo(metrics, codes[j], g)
    ensures g in NonSymbolicTag(metrics, tag, codes, n)
    ensures NonSymbolicTag(metrics, tag, codes, n)[g] == GlyphUsage(g, metrics(codes[k]).value.width, codes[k])
  {
    if k < n - 1 {
      NonSymbolicFirstWins(metrics, tag, codes, n - 1, g, k);
    } else {
      NonSymbolicTagKeys(metrics, tag, codes, n - 1, g);
    }
  }

  /** Symbolic mode: the map gains exactly the glyphs that one of the first
      `n` codes resolves to. */
  lemma {:induction false} SymbolicTagKeys(metrics: int -> Option<Metrics>, differences: int -> int,
                                           tag: map<int, GlyphUsage>, codes: seq<int>, n: nat, g: int)
    requires n <= |codes|
    ensures g in SymbolicTag(metrics, differences, tag, codes, n) <==>
            g in tag || exists k :: 0 <= k < n && ResolvesTo(metrics, codes[k], g)
  {
    if n > 0 {
      SymbolicTagKeys(metrics, differences, tag, codes, n - 1, g);
    }
  }

  /** Symbolic mode: a glyph's entry holds the width of the last code that
      resolves to it and that code's code point from `differences`,
      whatever the map held before. */
  lemma {:induction false} SymbolicLastWins(metrics: int -> Option<Metrics>, differences: int -> int,
                                            tag: map<int, GlyphUsage>, codes: seq<int>, n: nat, g: int, k: nat)
    requires n <= |codes|
    requires k < n && ResolvesTo(metrics, codes[k], g)
    requires forall j :: k < j < n ==> !ResolvesTo(metrics, codes[j], g)
    ensures g in SymbolicTag(metrics, differences, tag, codes, n)
    ensures SymbolicTag(metrics, differences, tag, codes, n)[g]
            == GlyphUsage(g, metrics(codes[k]).value.width, differences(codes[k]))
  {
    if k < n - 1 {
      SymbolicLastWins(metrics, differences, tag, codes, n - 1, g, k);
      assert !ResolvesTo(metrics, codes[n - 1], g);
    }
  }

  /** Symbolic mode: an entry whose glyph none of the first `n` codes
      reaches is kept. */
  lemma {:induction false} SymbolicKeepsUnreached(metrics: int -> Option<Metrics>, differences: int -> int,
                                                  tag: map<int, GlyphUsage>, codes: seq<int>, n: nat, g: int)
    requires n <= |codes| && g in tag
    requires forall j :: 0 <= j < n ==> !ResolvesTo(metrics, codes[j], g)
    ensures g in SymbolicTag(metrics, differences, tag, codes, n)
    ensures SymbolicTag(metrics, differences, tag, codes, n)[g] == tag[g]
  {
    if n > 0 {
      SymbolicKeepsUnreached(metrics, differences, tag, codes, n - 1, g);
      assert !ResolvesTo(metrics, codes[n - 1], g);
    }
  }

  /** Both modes keep every entry under its own glyph id. */
  lemma {:induction false} TagsStayKeyedByGlyph(metrics: int -> Option<Metrics>, differences: int -> int,
                                                tag: map<int, GlyphUsage>, codes: seq<int>, n: nat)
    requires n <= |codes| && KeyedByGlyph(tag)
    ensures KeyedByGlyph(NonSymbolicTag(metrics, tag, codes, n))
    ensures KeyedByGlyph(SymbolicTag(metrics, differences, tag, codes, n))
  {
    if n > 0 {
      TagsStayKeyedByGlyph(metrics, differences, tag, codes, n - 1);
    }
  }

  /** Non-symbolic mode: tracking `s` and then the first `j` codes of `t`
      leaves the map that tracking them as one run does. */
  lemma {:induction false} NonSymbolicTagAppend(metrics: int -> Option<Metrics>, tag: map<int, GlyphUsage>,
                                                s: seq<int>, t: seq<int>, j: nat)
    requires j <= |t|
    ensures NonSymbolicTag(metrics, tag, s + t, |s| + j)
            == NonSymbolicTag(metrics, NonSymbolicTag(metrics, tag, s, |s|), t, j)
  {
    if j == 0 {
      assert (s + t)[..|s|] == s[..|s|];
      NonSymbolicTagReadPrefix(metrics, tag, s + t, s, |s|);
    } else {
      NonSymbolicTagAppend(metrics, tag, s, t, j - 1);
      assert (s + t)[|s| + j - 1] == t[j - 1];
    }
  }

  /** Symbolic mode: tracking `s` and then the first `j` codes of `t`
      leaves the map that tracking them as one run does. */
  lemma {:induction false} SymbolicTagAppend(metrics: int -> Option<Metrics>, differences: int -> int,
                                             tag: map<int, GlyphUsage>, s: seq<int>, t: seq<int>, j: nat)
    requires j <= |t|
    ensures SymbolicTag(metrics, differences, tag, s + t, |s| + j)
            == SymbolicTag(metrics, differences, SymbolicTag(metrics, differences, tag, s, |s|), t, j)
  {
    if j == 0 {
      assert (s + t)[..|s|] == s[..|s|];
      SymbolicTagReadPrefix(metrics, differences, tag, s + t, s, |s|);
    } else {
      SymbolicTagAppend(metrics, differences, tag, s, t, j - 1);
      assert (s + t)[|s| + j - 1] == t[j - 1];
    }
  }

  /** Non-symbolic mode: a code without metrics changes nothing, wherever
      it stands. */
  lemma {:induction false} NonSymbolicSkipsUnresolved(metrics: int -> Option<Metrics>, tag: map<int, GlyphUsage>,
                                                      s: seq<int>, c: int, t: seq<int>)
    requires metrics(c).None?
    ensures NonSymbolicTag(metrics, tag, s + [c] + t, |s| + 1 + |t|) == NonSymbolicTag(metrics, tag, s + t, |s| + |t|)
  {
    var sc := s + [c];
    calc {
      NonSymbolicTag(metrics, tag, sc + t, |sc| + |t|);
      == { NonSymbolicTagAppend(metrics, tag, sc, t, |t|); }
      NonSymbolicTag(metrics, NonSymbolicTag(metrics, tag, sc, |sc|), t, |t|);
      == { assert sc[..|s|] == s[..|s|] && sc[|s|] == c;
           NonSymbolicTagReadPrefix(metrics, tag, sc, s, |s|); }
      NonSymbolicTag(metrics, NonSymbolicTag(metrics, tag, s, |s|), t, |t|);
      == { NonSymbolicTagAppend(metrics, tag, s, t, |t|); }
      NonSymbolicTag(metrics, tag, s + t, |s| + |t|);
    }
  }

  /** Symbolic mode: a code without metrics changes nothing, wherever it
      stands. */
  lemma {:induction false} SymbolicSkipsUnresolved(metrics: int -> Option<Metrics>, differences: int -> int,
                                                   tag: map<int, GlyphUsage>, s: seq<int>, c: int, t: seq<int>)
    requires metrics(c).None?
    ensures SymbolicTag(metrics, differences, tag, s + [c] + t, |s| + 1 + |t|)
            == SymbolicTag(metrics, differences, tag, s + t, |s| + |t|)
  {
    var sc := s + [c];
    calc {
      SymbolicTag(metrics, differences, tag, sc + t, |sc| + |t|);
      == { SymbolicTagAppend(metrics, differences, tag, sc, t, |t|); }
      SymbolicTag(metrics, differences, SymbolicTag(metrics, differences, tag, sc, |sc|), t, |t|);
      == { assert sc[..|s|] == s[..|s|] && sc[|s|] == c;
           SymbolicTagReadPrefix(metrics, differences, tag, sc, s, |s|); }
      SymbolicTag(metrics, differences, SymbolicTag(metrics, differences, tag, s, |s|), t, |t|);
      == { SymbolicTagAppend(metrics, differences, tag, s, t, |t|); }
      SymbolicTag(metrics, differences, tag, s + t, |s| + |t|);
    }
  }

  // ---------------------------------------------------------------------
  // Simple fonts at close: the FirstChar/LastChar range

  /** The first set flag at or after `k`, or `|flags|` if there is none. */
  function FirstSetFrom(flags: seq<int8>, k: nat): (f: nat)
    requires k <= |flags|
    ensures k <= f <= |flags|
    ensures f < |flags| ==> flags[f] != 0
    ensures forall j :: k <= j < f ==> flags[j] == 0
    decreases |flags| - k
  {
    if k == |flags| || flags[k] != 0 then k else FirstSetFrom(flags, k + 1)
  }

  /** The last set flag at or below `k` and at or above `lo`, or `lo - 1`
      if there is none. */
  function LastSetDownTo(flags: seq<int8>, lo: nat, k: int): (l: int)
    requires lo - 1 <= k < |flags|
    ensures lo - 1 <= l <= k
    ensures l >= lo ==> flags[l] != 0
    ensures forall j :: l < j <= k ==> flags[j] == 0
    decreases k - lo + 1
  {
    if k < lo || flags[k] != 0 then k else LastSetDownTo(flags, lo, k - 1)
  }

  /** The `(firstChar, lastChar)` pair a simple font reports when it is
      subset: the smallest and the largest set flag, both set, or
      `(255, 255)` when no flag is set. */
  function SubsetRange(flags: seq<int8>): (r: (int, int))
    requires |flags| == 0x100
    ensures (exists i :: 0 <= i < 0x100 && flags[i] != 0) ==>
              0 <= r.0 <= r.1 <= 0xff && flags[r.0] != 0 && flags[r.1] != 0 &&
              (forall j :: 0 <= j < r.0 ==> flags[j] == 0) &&
              (forall j :: r.1 < j < 0x100 ==> flags[j] == 0)
    ensures (forall i :: 0 <= i < 0x100 ==> flags[i] == 0) ==> r == (0xff, 0xff)
  {
    var first := FirstSetFrom(flags, 0);
    var last := LastSetDownTo(flags, first, 0xff);
    if first > 0xff then (0xff, 0xff) else (first, last)
  }
}
