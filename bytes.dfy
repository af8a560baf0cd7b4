/**
 * Byte buffers and the number formatting the client applies to them:
 * Node's `Buffer.readUIntLE`, `Number.prototype.toString(16)` (and base 10),
 * and `String.prototype.padStart(width, '0')`.
 */
module Bytes {

  type Byte = b: int | 0 <= b < 256

  /** The errors a frame handler can throw. */
  datatype Fault =
    | RangeError  // a Buffer read past the end of the buffer
    | TypeError   // a property read on a `serverConfig` that is still null

  function Min(a: int, b: int): int { if a <= b then a else b }

  function Pow256(n: nat): (r: nat)
    ensures r >= 1
  {
    if n == 0 then 1 else 256 * Pow256(n - 1)
  }

  function Pow16(n: nat): (r: nat)
    ensures r >= 1
  {
    if n == 0 then 1 else 16 * Pow16(n - 1)
  }

  /** `buf.readUIntLE(0, |s|)`: the unsigned little-endian value of `s`. */
  function LittleEndian(s: seq<Byte>): nat
  {
    if s == [] then 0 else s[0] + 256 * LittleEndian(s[1..])
  }

  /** `buf.readUInt32LE(k)`: the four bytes from offset `k`, least significant first. */
  function ReadUInt32LE(s: seq<Byte>, k: nat): nat
    requires k + 4 <= |s|
  {
    s[k] as int + 256 * s[k + 1] as int + 65536 * s[k + 2] as int + 16777216 * s[k + 3] as int
  }

  lemma ReadUInt32LEIsLittleEndian(s: seq<Byte>, k: nat)
    requires k + 4 <= |s|
    ensures ReadUInt32LE(s, k) == LittleEndian(s[k..k + 4])
  {
    var w := s[k..k + 4];
    assert LittleEndian(w[3..]) == s[k + 3] as int by {
      assert w[3..][1..] == [];
    }
    assert w[2..][1..] == w[3..];
    assert w[1..][1..] == w[2..];
    assert LittleEndian(w[2..]) == s[k + 2] as int + 256 * s[k + 3] as int;
    assert LittleEndian(w[1..]) == s[k + 1] as int + 256 * (s[k + 2] as int + 256 * s[k + 3] as int);
  }

  /** The `width`-byte little-endian encoding of `n`, the inverse of `LittleEndian`. */
  function EncodeLittleEndian(n: nat, width: nat): (r: seq<Byte>)
    ensures |r| == width
  {
    if width == 0 then [] else [n % 256] + EncodeLittleEndian(n / 256, width - 1)
  }

  lemma {:induction false} LittleEndianBound(s: seq<Byte>)
    ensures LittleEndian(s) < Pow256(|s|)
  {
    if s != [] {
      LittleEndianBound(s[1..]);
    }
  }

  lemma {:induction false} LittleEndianRoundTrip(n: nat, width: nat)
    requires n < Pow256(width)
    ensures LittleEndian(EncodeLittleEndian(n, width)) == n
  {
    if width > 0 {
      var e := EncodeLittleEndian(n, width);
      assert e[1..] == EncodeLittleEndian(n / 256, width - 1);
      LittleEndianRoundTrip(n / 256, width - 1);
    }
  }

  function HexDigit(d: nat): (c: char)
    requires d < 16
  {
    if d < 10 then ('0' as int + d) as char else ('a' as int + d - 10) as char
  }

  predicate IsHexDigit(c: char)
  {
    '0' <= c <= '9' || 'a' <= c <= 'f'
  }

  function HexValue(c: char): (d: nat)
    requires IsHexDigit(c)
    ensures d < 16 && HexDigit(d) == c
  {
    if c <= '9' then c as int - '0' as int else c as int - 'a' as int + 10
  }

  lemma HexValueOfDigit(d: nat)
    requires d < 16
    ensures IsHexDigit(HexDigit(d)) && HexValue(HexDigit(d)) == d
  {
  }

  /** `n.toString(16)`: the shortest lower-case hexadecimal numeral of `n`. */
  function ToHex(n: nat): string
  {
    if n < 16 then [HexDigit(n)] else ToHex(n / 16) + [HexDigit(n % 16)]
  }

  /** `n.toString()` for a non-negative integer: its decimal numeral. */
  function ToDecimal(n: nat): string
  {
    if n < 10 then [('0' as int + n) as char] else ToDecimal(n / 10) + [('0' as int + n % 10) as char]
  }

  function Zeros(n: nat): (r: string)
    ensures |r| == n
  {
    seq(n, _ => '0')
  }

  /** `s.padStart(width, '0')`. */
  function PadStart(s: string, width: nat): string
  {
    if |s| >= width then s else Zeros(width - |s|) + s
  }

  /** The `width` lowest hexadecimal digits of `n`, most significant first. */
  function HexFixed(n: nat, width: nat): (r: string)
    ensures |r| == width
  {
    if width == 0 then [] else HexFixed(n / 16, width - 1) + [HexDigit(n % 16)]
  }

  /** A byte as exactly two lower-case hexadecimal digits. */
  function HexByte(b: Byte): (r: string)
    ensures |r| == 2
  {
    [HexDigit(b / 16), HexDigit(b % 16)]
  }

  /** The bytes of `s` as hexadecimal pairs, in order. */
  function HexBytes(s: seq<Byte>): (r: string)
    ensures |r| == 2 * |s|
  {
    if s == [] then [] else HexBytes(s[..|s| - 1]) + HexByte(s[|s| - 1])
  }

  /** The value of the two hexadecimal digits `s[i]`, `s[i + 1]`. */
  function HexPair(s: string, i: nat): (b: Byte)
    requires i + 1 < |s| && IsHexDigit(s[i]) && IsHexDigit(s[i + 1])
  {
    16 * HexValue(s[i]) + HexValue(s[i + 1])
  }

  predicate AllHex(g: string)
  {
    forall i :: 0 <= i < |g| ==> IsHexDigit(g[i])
  }

  /** Reads hexadecimal pairs back into bytes, in order: the inverse of `HexBytes`. */
  function BytesOfHex(g: string): (r: seq<Byte>)
    requires |g| % 2 == 0 && AllHex(g)
    ensures |r| == |g| / 2
  {
    if g == [] then [] else BytesOfHex(g[..|g| - 2]) + [HexPair(g, |g| - 2)]
  }

  /** Reads hexadecimal pairs back into bytes, last pair first: the inverse of `HexBytesReversed`. */
  function BytesOfHexReversed(g: string): (r: seq<Byte>)
    requires |g| % 2 == 0 && AllHex(g)
    ensures |r| == |g| / 2
  {
    if g == [] then [] else [HexPair(g, |g| - 2)] + BytesOfHexReversed(g[..|g| - 2])
  }

  lemma HexPairOfByte(b: Byte)
    ensures IsHexDigit(HexByte(b)[0]) && IsHexDigit(HexByte(b)[1]) && HexPair(HexByte(b), 0) == b
  {
    HexValueOfDigit(b / 16);
    HexValueOfDigit(b % 16);
  }

  lemma ByteOfHexPair(s: string, i: nat)
    requires i + 1 < |s| && IsHexDigit(s[i]) && IsHexDigit(s[i + 1])
    ensures HexByte(HexPair(s, i)) == s[i..i + 2]
  {
    var h, l := HexValue(s[i]), HexValue(s[i + 1]);
    var b := 16 * h + l;
    DigitsOfPair(h, l);
    assert b / 16 == h && b % 16 == l;
    assert HexByte(b) == [HexDigit(b / 16), HexDigit(b % 16)];
    assert HexDigit(h) == s[i] && HexDigit(l) == s[i + 1];
    assert s[i..i + 2] == [s[i], s[i + 1]];
    assert HexPair(s, i) == b;
  }

  lemma DigitsOfPair(h: nat, l: nat)
    requires h < 16 && l < 16
    ensures (16 * h + l) / 16 == h && (16 * h + l) % 16 == l
  {
  }

  lemma {:induction false} HexBytesIsHex(s: seq<Byte>)
    ensures AllHex(HexBytes(s))
  {
    if s != [] {
      HexBytesIsHex(s[..|s| - 1]);
      HexPairOfByte(s[|s| - 1]);
    }
  }

  lemma {:induction false} HexBytesReversedIsHex(s: seq<Byte>)
    ensures AllHex(HexBytesReversed(s))
  {
    if s != [] {
      HexBytesReversedIsHex(s[1..]);
      HexPairOfByte(s[0]);
    }
  }

  /** Two digits spelling byte `b` at position `p` have value `b`. */
  lemma PairAt(g: string, p: nat, b: Byte)
    requires p + 1 < |g| && g[p] == HexByte(b)[0] && g[p + 1] == HexByte(b)[1]
    ensures IsHexDigit(g[p]) && IsHexDigit(g[p + 1]) && HexPair(g, p) == b
  {
    HexPairOfByte(b);
  }

  /** Appending the spelling of one byte appends that byte to what is read back. */
  lemma BytesOfHexSnoc(g: string, b: Byte)
    requires |g| % 2 == 0 && AllHex(g)
    ensures AllHex(g + HexByte(b))
    ensures BytesOfHex(g + HexByte(b)) == BytesOfHex(g) + [b]
  {
    HexPairOfByte(b);
    var h := g + HexByte(b);
    assert h[..|h| - 2] == g;
    PairAt(h, |g|, b);
  }

  /** Appending the spelling of one byte puts that byte first in what is read back. */
  lemma BytesOfHexReversedSnoc(g: string, b: Byte)
    requires |g| % 2 == 0 && AllHex(g)
    ensures AllHex(g + HexByte(b))
    ensures BytesOfHexReversed(g + HexByte(b)) == [b] + BytesOfHexReversed(g)
  {
    HexPairOfByte(b);
    var h := g + HexByte(b);
    assert h[..|h| - 2] == g;
    PairAt(h, |g|, b);
  }

  lemma {:induction false} HexBytesRoundTrip(s: seq<Byte>)
    ensures AllHex(HexBytes(s)) && BytesOfHex(HexBytes(s)) == s
  {
    if s != [] {
      var init, last := s[..|s| - 1], s[|s| - 1];
      assert HexBytes(s) == HexBytes(init) + HexByte(last);
      HexBytesRoundTrip(init);
      BytesOfHexSnoc(HexBytes(init), last);
      assert s == init + [last];
    }
  }

  lemma {:induction false} HexBytesReversedRoundTrip(s: seq<Byte>)
    ensures AllHex(HexBytesReversed(s)) && BytesOfHexReversed(HexBytesReversed(s)) == s
  {
    if s != [] {
      assert HexBytesReversed(s) == HexBytesReversed(s[1..]) + HexByte(s[0]);
      HexBytesReversedRoundTrip(s[1..]);
      BytesOfHexReversedSnoc(HexBytesReversed(s[1..]), s[0]);
      assert s == [s[0]] + s[1..];
    }
  }

  lemma BytesOfHexUnfold(g: string)
    requires |g| % 2 == 0 && AllHex(g) && g != []
    ensures AllHex(g[..|g| - 2])
    ensures BytesOfHex(g) == BytesOfHex(g[..|g| - 2]) + [HexPair(g, |g| - 2)]
  {
  }

  lemma BytesOfHexReversedUnfold(g: string)
    requires |g| % 2 == 0 && AllHex(g) && g != []
    ensures AllHex(g[..|g| - 2])
    ensures BytesOfHexReversed(g) == [HexPair(g, |g| - 2)] + BytesOfHexReversed(g[..|g| - 2])
  {
  }

  lemma HexBytesSnoc(a: seq<Byte>, b: Byte)
    ensures HexBytes(a + [b]) == HexBytes(a) + HexByte(b)
  {
    assert (a + [b])[..|a|] == a;
  }

  lemma HexBytesReversedCons(b: Byte, a: seq<Byte>)
    ensures HexBytesReversed([b] + a) == HexBytesReversed(a) + HexByte(b)
  {
    assert ([b] + a)[1..] == a;
  }

  lemma {:induction false} BytesOfHexRoundTrip(g: string)
    requires |g| % 2 == 0 && AllHex(g)
    ensures HexBytes(BytesOfHex(g)) == g
  {
    if g != [] {
      var p := |g| - 2;
      BytesOfHexUnfold(g);
      HexBytesSnoc(BytesOfHex(g[..p]), HexPair(g, p));
      BytesOfHexRoundTrip(g[..p]);
      ByteOfHexPair(g, p);
      assert g == g[..p] + g[p..p + 2];
    }
  }

  lemma {:induction false} BytesOfHexReversedRoundTrip(g: string)
    requires |g| % 2 == 0 && AllHex(g)
    ensures HexBytesReversed(BytesOfHexReversed(g)) == g
  {
    if g != [] {
      var p := |g| - 2;
      BytesOfHexReversedUnfold(g);
      HexBytesReversedCons(HexPair(g, p), BytesOfHexReversed(g[..p]));
      BytesOfHexReversedRoundTrip(g[..p]);
      ByteOfHexPair(g, p);
      assert g == g[..p] + g[p..p + 2];
    }
  }

  lemma {:induction false} HexBytesConcat(a: seq<Byte>, b: seq<Byte>)
    ensures HexBytes(a + b) == HexBytes(a) + HexBytes(b)
  {
    if b == [] {
      assert a + b == a;
    } else {
      assert (a + b)[..|a + b| - 1] == a + b[..|b| - 1];
      HexBytesConcat(a, b[..|b| - 1]);
    }
  }

  /** The bytes of `s` as hexadecimal pairs, last byte first. */
  function HexBytesReversed(s: seq<Byte>): (r: string)
    ensures |r| == 2 * |s|
  {
    if s == [] then [] else HexBytesReversed(s[1..]) + HexByte(s[0])
  }

  lemma {:induction false} HexFixedOfZero(width: nat)
    ensures HexFixed(0, width) == Zeros(width)
  {
    if width > 0 {
      HexFixedOfZero(width - 1);
    }
  }

  /** The shortest numeral, zero-padded, is the fixed-width numeral whenever `n` fits. */
  lemma {:induction false} PaddedHexIsFixed(n: nat, width: nat)
    requires 1 <= width && n < Pow16(width)
    ensures |ToHex(n)| <= width
    ensures PadStart(ToHex(n), width) == HexFixed(n, width)
  {
    if n < 16 {
      HexFixedOfZero(width - 1);
      assert HexFixed(n, width) == Zeros(width - 1) + [HexDigit(n)];
    } else {
      assert Pow16(1) == 16;
      PaddedHexIsFixed(n / 16, width - 1);
      var k := |ToHex(n / 16)|;
      assert ToHex(n) == ToHex(n / 16) + [HexDigit(n % 16)];
      if k < width - 1 {
        assert Zeros(width - 1 - k) + ToHex(n / 16) + [HexDigit(n % 16)]
            == Zeros(width - (k + 1)) + ToHex(n);
      }
    }
  }

  lemma PaddedHexByte(b: Byte)
    ensures PadStart(ToHex(b), 2) == HexByte(b)
  {
    PaddedHexIsFixed(b, 2);
    assert Pow16(2) == 256;
  }

  lemma ShiftDigits(x: Byte, y: nat)
    ensures (x + 256 * y) % 16 == x % 16 && (x + 256 * y) / 16 == x / 16 + 16 * y
    ensures (x / 16 + 16 * y) % 16 == x / 16 && (x / 16 + 16 * y) / 16 == y
  {
  }

  /**
   * The 2*|s|-digit numeral of the little-endian value of `s` lists the bytes of `s`
   * in reverse order, two digits each.
   */
  lemma {:induction false} HexFixedLittleEndian(s: seq<Byte>)
    ensures HexFixed(LittleEndian(s), 2 * |s|) == HexBytesReversed(s)
  {
    if s == [] {
    } else {
      var x, y := s[0], LittleEndian(s[1..]);
      var w := 2 * |s|;
      var n := x + 256 * y;
      assert LittleEndian(s) == n;
      ShiftDigits(x, y);
      var q := n / 16;
      assert HexFixed(n, w) == HexFixed(q, w - 1) + [HexDigit(x % 16)];
      assert HexFixed(q, w - 1) == HexFixed(y, w - 2) + [HexDigit(x / 16)];
      HexFixedLittleEndian(s[1..]);
      assert HexFixed(y, w - 2) == HexBytesReversed(s[1..]);
    }
  }

  lemma Pow16Twice(n: nat)
    ensures Pow16(2 * n) == Pow256(n)
  {
    if n > 0 {
      Pow16Twice(n - 1);
      assert Pow16(2 * n) == 16 * 16 * Pow16(2 * (n - 1));
    }
  }

  /** `LittleEndian(s).toString(16).padStart(2 * |s|, '0')` spells the bytes of `s` last to first. */
  lemma PaddedLittleEndian(s: seq<Byte>)
    requires |s| >= 1
    ensures PadStart(ToHex(LittleEndian(s)), 2 * |s|) == HexBytesReversed(s)
  {
    LittleEndianBound(s);
    Pow16Twice(|s|);
    PaddedHexIsFixed(LittleEndian(s), 2 * |s|);
    HexFixedLittleEndian(s);
  }

  /** A slice inside the left part of a concatenation. */
  lemma SliceLeft<T>(a: seq<T>, b: seq<T>, lo: nat, hi: nat)
    requires lo <= hi <= |a|
    ensures (a + b)[lo..hi] == a[lo..hi]
  {
  }

  /** A slice inside the right part of a concatenation. */
  lemma SliceRight<T>(a: seq<T>, b: seq<T>, lo: nat, hi: nat)
    requires |a| <= lo <= hi <= |a| + |b|
    ensures (a + b)[lo..hi] == b[lo - |a|..hi - |a|]
  {
  }

  /** A slice of a suffix is a slice of the whole. */
  lemma SliceOfSuffix<T>(s: seq<T>, d: nat, lo: nat, hi: nat)
    requires d <= |s| && lo <= hi <= |s| - d
    ensures s[d..][lo..hi] == s[d + lo..d + hi]
  {
  }

  lemma ConcatAssoc<T>(a: seq<T>, b: seq<T>, c: seq<T>)
    ensures (a + b) + c == a + (b + c)
  {
  }
}
