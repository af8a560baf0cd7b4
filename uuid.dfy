/**
 * The identifier codec: `parseUuid` turns the first 16 bytes of a buffer into the
 * text form `xxxxxxxx-xxxx-xxxx-xxxxxxxxxxxxxxxx` used as registry key.
 */
module Uuid {
  import opened Wrappers
  import opened Bytes

  /** Each byte of `s` as `v.toString(16).padStart(2, '0')`, concatenated in order. */
  function PaddedBytes(s: seq<Byte>): string
  {
    if s == [] then "" else PaddedBytes(s[..|s| - 1]) + PadStart(ToHex(s[|s| - 1]), 2)
  }

  /**
   * What `parseUuid(buf)` returns: three little-endian reads rendered as zero-padded hex,
   * then the bytes of `buf.slice(8, 16)` in wire order. The reads throw on a buffer
   * shorter than 8 bytes; the slice is clamped to the buffer.
   */
  function UuidOf(buf: seq<Byte>): (r: Result<string, Fault>)
    ensures r.Ok? <==> |buf| >= 8
  {
    if |buf| < 8 then Err(RangeError)
    else Ok(PadStart(ToHex(LittleEndian(buf[0..4])), 8) + "-"
          + PadStart(ToHex(LittleEndian(buf[4..6])), 4) + "-"
          + PadStart(ToHex(LittleEndian(buf[6..8])), 4) + "-"
          + PaddedBytes(buf[8..Min(16, |buf|)]))
  }

  /** `parseUuid`, accumulating the last group byte by byte as the source does. */
  method ParseUuid(buf: seq<Byte>) returns (r: Result<string, Fault>)
    ensures r == UuidOf(buf)
  {
    if |buf| < 8 {
      return Err(RangeError);
    }
    var part1 := PadStart(ToHex(LittleEndian(buf[0..4])), 8);
    var part2 := PadStart(ToHex(LittleEndian(buf[4..6])), 4);
    var part3 := PadStart(ToHex(LittleEndian(buf[6..8])), 4);
    var part4 := buf[8..Min(16, |buf|)];
    var part4Str := "";
    var k := 0;
    while k < |part4|
      invariant 0 <= k <= |part4|
      invariant part4Str == PaddedBytes(part4[..k])
    {
      assert part4[..k + 1][..k] == part4[..k];
      part4Str := part4Str + PadStart(ToHex(part4[k]), 2);
      k := k + 1;
    }
    assert part4[..k] == part4;
    r := Ok(part1 + "-" + part2 + "-" + part3 + "-" + part4Str);
  }

  lemma {:induction false} PaddedBytesAreHexBytes(s: seq<Byte>)
    ensures PaddedBytes(s) == HexBytes(s)
  {
    if s != [] {
      PaddedBytesAreHexBytes(s[..|s| - 1]);
      PaddedHexByte(s[|s| - 1]);
    }
  }

  /** The canonical text form: 35 characters, hex groups of widths 8-4-4-16 separated by '-'. */
  predicate IsCanonical(s: string)
  {
    && |s| == 35
    && s[8] == '-' && s[13] == '-' && s[18] == '-'
    && AllHex(s[0..8]) && AllHex(s[9..13]) && AllHex(s[14..18]) && AllHex(s[19..35])
  }

  /** Four groups joined with '-', as `uuid.join('-')`. */
  function Join(g1: string, g2: string, g3: string, g4: string): string
  {
    g1 + "-" + g2 + "-" + g3 + "-" + g4
  }

  lemma JoinParts(g1: string, g2: string, g3: string, g4: string)
    requires |g1| == 8 && |g2| == 4 && |g3| == 4 && |g4| == 16
    ensures var t := Join(g1, g2, g3, g4);
      |t| == 35 && t[8] == '-' && t[13] == '-' && t[18] == '-'
      && t[0..8] == g1 && t[9..13] == g2 && t[14..18] == g3 && t[19..35] == g4
  {
  }

  /**
   * For a full 16-byte identifier the text is the first three groups' bytes in
   * reverse (little-endian) order and the last group's bytes in wire order.
   */
  lemma UuidLayout(buf: seq<Byte>)
    requires |buf| >= 16
    ensures UuidOf(buf) == Ok(Join(HexBytesReversed(buf[0..4]), HexBytesReversed(buf[4..6]),
                                   HexBytesReversed(buf[6..8]), HexBytes(buf[8..16])))
  {
    PaddedLittleEndian(buf[0..4]);
    PaddedLittleEndian(buf[4..6]);
    PaddedLittleEndian(buf[6..8]);
    PaddedBytesAreHexBytes(buf[8..16]);
  }

  /**
   * The text is 35 characters long; its first three groups are the fixed-width numerals
   * of the little-endian reads of bytes [0,4), [4,6) and [6,8); its last group is bytes
   * 8 to 15 as two hex digits each, in order.
   */
  lemma UuidGroups(buf: seq<Byte>)
    requires |buf| >= 16
    ensures UuidOf(buf).Ok? && IsCanonical(UuidOf(buf).value)
    ensures UuidOf(buf).value[0..8] == HexFixed(LittleEndian(buf[0..4]), 8)
    ensures UuidOf(buf).value[9..13] == HexFixed(LittleEndian(buf[4..6]), 4)
    ensures UuidOf(buf).value[14..18] == HexFixed(LittleEndian(buf[6..8]), 4)
    ensures UuidOf(buf).value[19..35] == HexBytes(buf[8..16])
  {
    UuidLayout(buf);
    JoinParts(HexBytesReversed(buf[0..4]), HexBytesReversed(buf[4..6]),
              HexBytesReversed(buf[6..8]), HexBytes(buf[8..16]));
    HexFixedLittleEndian(buf[0..4]);
    HexFixedLittleEndian(buf[4..6]);
    HexFixedLittleEndian(buf[6..8]);
    HexBytesReversedIsHex(buf[0..4]);
    HexBytesReversedIsHex(buf[4..6]);
    HexBytesReversedIsHex(buf[6..8]);
    HexBytesIsHex(buf[8..16]);
  }

  /** Reads a canonical text form back into the 16 bytes it was made from. */
  function UuidBytes(s: string): (r: Option<seq<Byte>>)
    ensures r.Some? ==> |r.value| == 16
  {
    if !IsCanonical(s) then None
    else Some(BytesOfHexReversed(s[0..8]) + BytesOfHexReversed(s[9..13])
              + BytesOfHexReversed(s[14..18]) + BytesOfHex(s[19..35]))
  }

  /** Decoding the text form gives back the identifier's 16 bytes. */
  lemma UuidRoundTrip(buf: seq<Byte>)
    requires |buf| >= 16
    ensures UuidOf(buf).Ok? && UuidBytes(UuidOf(buf).value) == Some(buf[..16])
  {
    UuidGroups(buf);
    UuidLayout(buf);
    var g1, g2, g3, g4 := buf[0..4], buf[4..6], buf[6..8], buf[8..16];
    JoinParts(HexBytesReversed(g1), HexBytesReversed(g2), HexBytesReversed(g3), HexBytes(g4));
    HexBytesReversedRoundTrip(g1);
    HexBytesReversedRoundTrip(g2);
    HexBytesReversedRoundTrip(g3);
    HexBytesRoundTrip(g4);
    Regroup(buf);
  }

  lemma Regroup(buf: seq<Byte>)
    requires |buf| >= 16
    ensures buf[0..4] + buf[4..6] + buf[6..8] + buf[8..16] == buf[..16]
  {
    assert buf[..6] == buf[0..4] + buf[4..6];
    assert buf[..8] == buf[..6] + buf[6..8];
    assert buf[..16] == buf[..8] + buf[8..16];
  }

  /** Distinct identifiers get distinct keys. */
  lemma UuidInjective(a: seq<Byte>, b: seq<Byte>)
    requires |a| >= 16 && |b| >= 16 && UuidOf(a) == UuidOf(b)
    ensures a[..16] == b[..16]
  {
    UuidRoundTrip(a);
    UuidRoundTrip(b);
  }

  lemma JoinSplit(s: string)
    requires |s| == 35 && s[8] == '-' && s[13] == '-' && s[18] == '-'
    ensures Join(s[0..8], s[9..13], s[14..18], s[19..35]) == s
  {
    assert s == s[0..8] + [s[8]] + s[9..13] + [s[13]] + s[14..18] + [s[18]] + s[19..35];
  }

  lemma SplitBytes(b1: seq<Byte>, b2: seq<Byte>, b3: seq<Byte>, b4: seq<Byte>)
    requires |b1| == 4 && |b2| == 2 && |b3| == 2 && |b4| == 8
    ensures var bs := b1 + b2 + b3 + b4;
      bs[0..4] == b1 && bs[4..6] == b2 && bs[6..8] == b3 && bs[8..16] == b4
  {
  }

  /** Every canonical text is the key of exactly the bytes `UuidBytes` reads from it. */
  lemma UuidTextRoundTrip(s: string)
    requires IsCanonical(s)
    ensures UuidBytes(s).Some? && UuidOf(UuidBytes(s).value) == Ok(s)
  {
    var b1, b2 := BytesOfHexReversed(s[0..8]), BytesOfHexReversed(s[9..13]);
    var b3, b4 := BytesOfHexReversed(s[14..18]), BytesOfHex(s[19..35]);
    var bs := UuidBytes(s).value;
    assert bs == b1 + b2 + b3 + b4;
    SplitBytes(b1, b2, b3, b4);
    UuidLayout(bs);
    BytesOfHexReversedRoundTrip(s[0..8]);
    BytesOfHexReversedRoundTrip(s[9..13]);
    BytesOfHexReversedRoundTrip(s[14..18]);
    BytesOfHexRoundTrip(s[19..35]);
    JoinSplit(s);
  }

  /** The key depends on the first 16 bytes only. */
  lemma UuidOfPrefix(buf: seq<Byte>)
    requires |buf| >= 16
    ensures UuidOf(buf) == UuidOf(buf[..16])
  {
    assert buf[..16][0..4] == buf[0..4];
    assert buf[..16][4..6] == buf[4..6];
    assert buf[..16][6..8] == buf[6..8];
    assert buf[..16][8..16] == buf[8..16];
  }

  lemma Reversed4(s: seq<Byte>)
    requires |s| == 4
    ensures HexBytesReversed(s) == HexByte(s[3]) + HexByte(s[2]) + HexByte(s[1]) + HexByte(s[0])
  {
    assert s[3..][1..] == [] && s[2..][1..] == s[3..] && s[1..][1..] == s[2..];
    assert HexBytesReversed(s[3..]) == HexByte(s[3]);
    assert HexBytesReversed(s[2..]) == HexBytesReversed(s[3..]) + HexByte(s[2]);
    assert HexBytesReversed(s[1..]) == HexBytesReversed(s[2..]) + HexByte(s[1]);
  }

  lemma Reversed2(s: seq<Byte>)
    requires |s| == 2
    ensures HexBytesReversed(s) == HexByte(s[1]) + HexByte(s[0])
  {
    assert s[1..][1..] == [];
    assert HexBytesReversed(s[1..]) == HexByte(s[1]);
  }

  lemma VectorGroup1()
    ensures HexBytesReversed([4, 3, 2, 1]) == "01020304"
  {
    Reversed4([4, 3, 2, 1]);
    assert HexByte(1) == "01" && HexByte(2) == "02" && HexByte(3) == "03" && HexByte(4) == "04";
  }

  lemma VectorGroups23()
    ensures HexBytesReversed([6, 5]) == "0506" && HexBytesReversed([8, 7]) == "0708"
  {
    Reversed2([6, 5]);
    Reversed2([8, 7]);
    assert HexByte(5) == "05" && HexByte(6) == "06" && HexByte(7) == "07" && HexByte(8) == "08";
  }

  lemma Forward4(s: seq<Byte>)
    requires |s| == 4
    ensures HexBytes(s) == HexByte(s[0]) + HexByte(s[1]) + HexByte(s[2]) + HexByte(s[3])
  {
    assert s[..1][..0] == [] && s[..2][..1] == s[..1] && s[..3][..2] == s[..2] && s[..3] == s[..|s| - 1];
    assert HexBytes(s[..1]) == HexByte(s[0]);
    assert HexBytes(s[..2]) == HexBytes(s[..1]) + HexByte(s[1]);
    assert HexBytes(s[..3]) == HexBytes(s[..2]) + HexByte(s[2]);
    assert HexBytes(s) == HexBytes(s[..3]) + HexByte(s[3]);
  }

  lemma VectorGroup4a()
    ensures HexBytes([0x09, 0x10, 0x11, 0x12]) == "09101112"
  {
    Forward4([0x09, 0x10, 0x11, 0x12]);
    assert HexByte(0x09) == "09" && HexByte(0x10) == "10" && HexByte(0x11) == "11" && HexByte(0x12) == "12";
  }

  lemma VectorGroup4b()
    ensures HexBytes([0x13, 0x14, 0x15, 0x16]) == "13141516"
  {
    Forward4([0x13, 0x14, 0x15, 0x16]);
    assert HexByte(0x13) == "13" && HexByte(0x14) == "14" && HexByte(0x15) == "15" && HexByte(0x16) == "16";
  }

  /**
   * Bytes 04 03 02 01 06 05 08 07 09 10 11 12 13 14 15 16 (hex), in wire order, give
   * the key 01020304-0506-0708-0910111213141516.
   */
  lemma KnownVector()
    ensures UuidOf([0x04, 0x03, 0x02, 0x01] + [0x06, 0x05] + [0x08, 0x07]
                   + ([0x09, 0x10, 0x11, 0x12] + [0x13, 0x14, 0x15, 0x16]))
         == Ok(Join("01020304", "0506", "0708", "09101112" + "13141516"))
  {
    var g1: seq<Byte>, g2: seq<Byte>, g3: seq<Byte> := [0x04, 0x03, 0x02, 0x01], [0x06, 0x05], [0x08, 0x07];
    var g4a: seq<Byte>, g4b: seq<Byte> := [0x09, 0x10, 0x11, 0x12], [0x13, 0x14, 0x15, 0x16];
    var buf := g1 + g2 + g3 + (g4a + g4b);
    SplitBytes(g1, g2, g3, g4a + g4b);
    UuidLayout(buf);
    VectorGroup1();
    VectorGroups23();
    VectorGroup4a();
    VectorGroup4b();
    HexBytesConcat(g4a, g4b);
  }
}
