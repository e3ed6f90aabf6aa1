/** Java's primitive byte and char types, and the conversions between them
    that FontDetails relies on: the unsigned read of a byte (`b & 0xff`),
    the narrowing casts `(byte)` and `(char)`, and the big-endian UTF-16
    encoding ("UnicodeBigUnmarked") of a char sequence. */
module JavaPrimitives {

  /** A Java `byte`: a signed two's-complement 8-bit value. */
  newtype int8 = x: int | -0x80 <= x < 0x80

  /** A Java `char`: an unsigned 16-bit UTF-16 code unit. A Java `String`
      is a sequence of these. */
  type JChar = x: int | 0 <= x < 0x1_0000

  /** `((int) b) & 0xff`: the unsigned value, in 0..255, of the byte's
      bit pattern. */
  function Unsigned(b: int8): (u: int)
    ensures 0 <= u < 0x100
  {
    if b < 0 then b as int + 0x100 else b as int
  }

  /** The unsigned value is the unique value in 0..255 congruent to the
      byte modulo 256, and distinct bytes have distinct unsigned values. */
  lemma UnsignedIsLowByte(b: int8)
    ensures (Unsigned(b) - b as int) % 0x100 == 0
    ensures forall c: int8 :: Unsigned(c) == Unsigned(b) ==> c == b
  {
  }

  /** `(byte) x`: keeps the low eight bits of `x`, read as a signed byte;
      a value that already fits in a byte is kept as it is. */
  function Narrow(x: int): (b: int8)
    ensures -0x80 <= x < 0x80 ==> b as int == x
  {
    var low := x % 0x100;
    if low < 0x80 then low as int8 else (low - 0x100) as int8
  }

  /** Narrowing keeps the value modulo 256. */
  lemma NarrowKeepsLowByte(x: int)
    ensures (Narrow(x) as int - x) % 0x100 == 0
    ensures Unsigned(Narrow(x)) == x % 0x100
  {
  }

  /** `(char) g`: keeps the low sixteen bits of the int `g`, so a glyph id
      that fits in sixteen bits reaches the glyph buffer unchanged. */
  function CharCast(g: int): (c: JChar)
    ensures 0 <= g < 0x1_0000 ==> c == g
  {
    g % 0x1_0000
  }

  /** Splitting a code unit into its high and low byte and reading them
      back big-endian gives the unit again. */
  lemma SplitUnit(u: JChar)
    ensures Unsigned(Narrow(u / 0x100)) * 0x100 + Unsigned(Narrow(u % 0x100)) == u
  {
    NarrowKeepsLowByte(u / 0x100);
    NarrowKeepsLowByte(u % 0x100);
  }

  /** `(char) g` applied to every element, as the glyph buffer of
      FontDetails.convertToBytes receives its glyph ids. */
  function CharCasts(gs: seq<int>): (cs: seq<JChar>)
    ensures |cs| == |gs|
    ensures forall i {:trigger cs[i]} :: 0 <= i < |gs| ==> cs[i] == CharCast(gs[i])
  {
    seq(|gs|, i requires 0 <= i < |gs| => CharCast(gs[i]))
  }

  /** Casting one more glyph id appends one more char. */
  lemma CharCastsSnoc(gs: seq<int>, g: int)
    ensures CharCasts(gs + [g]) == CharCasts(gs) + [CharCast(g)]
  {
  }

  /** The two bytes of code unit `u` at positions `2 * i` and `2 * i + 1`
      of `bytes`, read back as one big-endian 16-bit value. */
  function UnitAt(bytes: seq<int8>, i: nat): int
    requires 2 * i + 1 < |bytes|
  {
    Unsigned(bytes[2 * i]) * 0x100 + Unsigned(bytes[2 * i + 1])
  }

  /** `new String(units).getBytes("UnicodeBigUnmarked")`: every code unit
      becomes two bytes, high byte first, with no byte-order mark. */
  function Utf16BE(units: seq<JChar>): (r: seq<int8>)
    ensures |r| == 2 * |units|
    ensures forall i :: 0 <= i < |units| ==> UnitAt(r, i) == units[i]
  {
    if units == [] then []
    else
      var u := units[|units| - 1];
      var front := Utf16BE(units[..|units| - 1]);
      SplitUnit(u);
      front + [Narrow(u / 0x100), Narrow(u % 0x100)]
  }

  /** Reads an even-length byte sequence back as big-endian code units. */
  function Utf16BEDecode(bytes: seq<int8>): (units: seq<JChar>)
    requires |bytes| % 2 == 0
    ensures |units| * 2 == |bytes|
  {
    if bytes == [] then []
    else [UnitAt(bytes, 0)] + Utf16BEDecode(bytes[2..])
  }

  /** Decoding undoes the encoding. */
  lemma {:induction false} DecodeUtf16BE(units: seq<JChar>)
    ensures Utf16BEDecode(Utf16BE(units)) == units
  {
    var r := Utf16BE(units);
    if units != [] {
      DecodeUtf16BE(units[1..]);
      var rest := Utf16BE(units[1..]);
      assert r[2..] == rest by {
        forall i | 0 <= i < |units| - 1
          ensures UnitAt(r[2..], i) == UnitAt(rest, i)
        {
          assert UnitAt(r, i + 1) == units[i + 1];
        }
        UnitsDetermineBytes(r[2..], rest);
      }
    }
  }

  /** Encoding undoes the decoding: every even-length byte sequence is the
      encoding of exactly one code-unit sequence. */
  lemma {:induction false} EncodeUtf16BEDecode(bytes: seq<int8>)
    requires |bytes| % 2 == 0
    ensures Utf16BE(Utf16BEDecode(bytes)) == bytes
  {
    var units := Utf16BEDecode(bytes);
    var r := Utf16BE(units);
    forall i | 0 <= i < |units|
      ensures UnitAt(r, i) == UnitAt(bytes, i)
    {
      DecodedUnitAt(bytes, i);
    }
    UnitsDetermineBytes(r, bytes);
  }

  /** Unit `i` of the decoding is the big-endian value of bytes `2i, 2i+1`. */
  lemma {:induction false} DecodedUnitAt(bytes: seq<int8>, i: nat)
    requires |bytes| % 2 == 0 && 2 * i + 1 < |bytes|
    ensures Utf16BEDecode(bytes)[i] == UnitAt(bytes, i)
  {
    if i > 0 {
      DecodedUnitAt(bytes[2..], i - 1);
      assert bytes[2..][2 * (i - 1)] == bytes[2 * i];
      assert bytes[2..][2 * (i - 1) + 1] == bytes[2 * i + 1];
    }
  }

  /** Two byte sequences of equal even length that agree on every 16-bit
      unit are equal. */
  lemma UnitsDetermineBytes(a: seq<int8>, b: seq<int8>)
    requires |a| == |b| && |a| % 2 == 0
    requires forall i :: 0 <= i < |a| / 2 ==> UnitAt(a, i) == UnitAt(b, i)
    ensures a == b
  {
    forall k | 0 <= k < |a|
      ensures a[k] == b[k]
    {
      var i := k / 2;
      assert UnitAt(a, i) == UnitAt(b, i);
      UnsignedIsLowByte(b[2 * i]);
      UnsignedIsLowByte(b[2 * i + 1]);
    }
  }
}
