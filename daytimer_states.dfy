/**
 * The event table of daytimer states, decoded and printed but never stored: a 16-byte
 * identifier, the default value (a double), the number of entries, then 24-byte entries
 * of mode, from, to, needActivate (little-endian 32-bit) and a double.
 */
module DaytimerStates {
  import opened Wrappers
  import opened Bytes
  import opened Uuid
  import opened EntryLoop

  const HeaderSize := 28
  const EntrySize := 24

  datatype Entry = Entry(mode: nat, from: nat, to: nat, needActivate: nat, value: seq<Byte>)

  /** What the decoder prints: the identifier, the default value, the announced count and the entries read. */
  datatype Daytimer = Daytimer(uuid: string, defValue: seq<Byte>, numEntries: nat, entries: seq<Entry>)

  function DecodeEntry(e: seq<Byte>): Entry
    requires |e| == EntrySize
  {
    Entry(ReadUInt32LE(e, 0), ReadUInt32LE(e, 4), ReadUInt32LE(e, 8), ReadUInt32LE(e, 12), e[16..24])
  }

  /** The entries from offset `i` with `r` still announced; an entry cut short by the end of the buffer throws. */
  function Entries(buf: seq<Byte>, i: nat, r: nat): Result<seq<Entry>, Fault>
    decreases |buf| - i
  {
    if i >= |buf| || r == 0 then Ok([])
    else if |buf| - i < EntrySize then Err(RangeError)
    else Prepend([DecodeEntry(buf[i..i + EntrySize])], Entries(buf, i + Stride, r - 1))
  }

  /** One more entry read: it joins the ones before, and the count still announced drops by one. */
  lemma EntriesStep(buf: seq<Byte>, acc: seq<Entry>, i: nat, r: nat)
    requires i < |buf| && r > 0 && |buf| - i >= EntrySize
    ensures Prepend(acc, Entries(buf, i, r))
         == Prepend(acc + [DecodeEntry(buf[i..Min(i + EntrySize, |buf|)])], Entries(buf, i + Stride, r - 1))
  {
    assert Min(i + EntrySize, |buf|) == i + EntrySize;
    PrependCons(acc, DecodeEntry(buf[i..i + EntrySize]), Entries(buf, i + Stride, r - 1));
  }

  /** `printEventTableDaytimerStates`: the header reads throw on a buffer shorter than 28 bytes. */
  function Decode(buf: seq<Byte>): Result<Daytimer, Fault>
  {
    if |buf| < HeaderSize then Err(RangeError)
    else
      var n := ReadUInt32LE(buf, 24);
      match Entries(buf, HeaderSize, n)
      case Err(e) => Err(e)
      case Ok(es) => Ok(Daytimer(UuidOf(buf).value, buf[16..24], n, es))
  }

  /** The decoder: the identifier, the default value and the count, then the entries; every read past the end of the buffer throws. */
  method PrintEventTableDaytimerStates(buf: seq<Byte>) returns (r: Result<Daytimer, Fault>)
    ensures r == Decode(buf)
  {
    var uuid := ParseUuid(buf);
    if uuid.Err? || |buf| < HeaderSize {
      return Err(RangeError);
    }
    var defValue := buf[16..24];
    var numEntries := ReadUInt32LE(buf, 24);
    var entries := ReadEntries(buf, numEntries);
    if entries.Err? {
      return Err(entries.error);
    }
    r := Ok(Daytimer(uuid.value, defValue, numEntries, entries.value));
  }

  /** The loop over the entries, counting those read in `j` as the source does. */
  method ReadEntries(buf: seq<Byte>, numEntries: nat) returns (r: Result<seq<Entry>, Fault>)
    ensures r == Entries(buf, HeaderSize, numEntries)
  {
    var entries := [];
    var i, j := HeaderSize, 0;
    ghost var left := numEntries;
    PrependEmpty(Entries(buf, i, left));
    while i < |buf|
      invariant HeaderSize <= i && j <= numEntries && left == numEntries - j
      invariant Entries(buf, HeaderSize, numEntries) == Prepend(entries, Entries(buf, i, left))
      decreases |buf| - i
    {
      if j >= numEntries {
        break;
      }
      var entry := buf[i..Min(i + EntrySize, |buf|)];
      if |entry| < EntrySize {
        return Err(RangeError);
      }
      EntriesStep(buf, entries, i, left);
      entries := entries + [DecodeEntry(entry)];
      i, j := i + Stride, j + 1;
      left := left - 1;
    }
    assert Entries(buf, i, left) == Ok([]);
    assert entries + [] == entries;
    r := Ok(entries);
  }

  /**
   * From offset `i` with `r` entries announced, the loop reads `k = Iterations(|buf|, i, r)`
   * entries, entry `m` from bytes [i + 24m, i + 24m + 24), and throws exactly when the
   * last of them is cut short.
   */
  lemma {:induction false} EntriesClosedForm(buf: seq<Byte>, i: nat, r: nat)
    ensures var k := Iterations(|buf|, i, r);
      && (Entries(buf, i, r).Ok? <==> k == 0 || i + EntrySize * k <= |buf|)
      && (Entries(buf, i, r).Ok? ==>
            |Entries(buf, i, r).value| == k
            && forall m :: 0 <= m < k ==> Entries(buf, i, r).value[m] == DecodeEntry(buf[i + 24 * m..i + 24 * m + 24]))
    decreases |buf| - i
  {
    if i < |buf| && r > 0 && |buf| - i >= EntrySize {
      EntriesClosedForm(buf, i + Stride, r - 1);
      var k := Iterations(|buf|, i, r);
      var rest := Entries(buf, i + Stride, r - 1);
      if rest.Ok? {
        var es := Entries(buf, i, r).value;
        assert es == [DecodeEntry(buf[i..i + EntrySize])] + rest.value;
        forall m | 0 <= m < k
          ensures es[m] == DecodeEntry(buf[i + 24 * m..i + 24 * m + 24])
        {
          if m > 0 {
            assert es[m] == rest.value[m - 1];
            assert i + Stride + 24 * (m - 1) == i + 24 * m;
          }
        }
      }
    }
  }

  /**
   * A table is read without error exactly when it has its 28-byte header and every entry
   * the loop reaches is complete; it then holds `min(numEntries, ceil((|buf| - 28) / 24))` entries.
   */
  lemma DecodeClosedForm(buf: seq<Byte>)
    ensures Decode(buf).Ok? <==>
      |buf| >= HeaderSize
      && var k := Iterations(|buf|, HeaderSize, ReadUInt32LE(buf, 24));
         k == 0 || HeaderSize + EntrySize * k <= |buf|
    ensures Decode(buf).Ok? ==>
      |Decode(buf).value.entries| ==
        if |buf| == HeaderSize then 0
        else Min(Decode(buf).value.numEntries, (|buf| - HeaderSize + EntrySize - 1) / EntrySize)
  {
    if |buf| >= HeaderSize {
      var n := ReadUInt32LE(buf, 24);
      EntriesClosedForm(buf, HeaderSize, n);
      IterationsClosedForm(|buf|, HeaderSize, n);
    }
  }

  predicate WellFormed(e: Entry)
  {
    e.mode < Pow256(4) && e.from < Pow256(4) && e.to < Pow256(4) && e.needActivate < Pow256(4)
    && |e.value| == 8
  }

  predicate AllWellFormed(es: seq<Entry>)
  {
    forall i :: 0 <= i < |es| ==> WellFormed(es[i])
  }

  function EncodeEntry(e: Entry): (b: seq<Byte>)
    requires WellFormed(e)
    ensures |b| == EntrySize
  {
    EncodeLittleEndian(e.mode, 4) + EncodeLittleEndian(e.from, 4) + EncodeLittleEndian(e.to, 4)
    + EncodeLittleEndian(e.needActivate, 4) + e.value
  }

  function EncodeEntries(es: seq<Entry>): seq<Byte>
    requires AllWellFormed(es)
  {
    if es == [] then [] else EncodeEntry(es[0]) + EncodeEntries(es[1..])
  }

  /** A daytimer table as the server sends it. */
  function Encode(uuid: seq<Byte>, defValue: seq<Byte>, es: seq<Entry>): seq<Byte>
    requires |uuid| == 16 && |defValue| == 8 && |es| < Pow256(4) && AllWellFormed(es)
  {
    uuid + defValue + EncodeLittleEndian(|es|, 4) + EncodeEntries(es)
  }

  /** The four 4-byte fields and the 8-byte value of a 24-byte entry. */
  lemma EntryFields(a: seq<Byte>, b: seq<Byte>, c: seq<Byte>, d: seq<Byte>, v: seq<Byte>)
    requires |a| == 4 && |b| == 4 && |c| == 4 && |d| == 4 && |v| == 8
    ensures var s := a + b + c + d + v;
      s[0..4] == a && s[4..8] == b && s[8..12] == c && s[12..16] == d && s[16..24] == v
  {
  }

  lemma DecodeEncodedEntry(e: Entry)
    requires WellFormed(e)
    ensures DecodeEntry(EncodeEntry(e)) == e
  {
    EntryFields(EncodeLittleEndian(e.mode, 4), EncodeLittleEndian(e.from, 4), EncodeLittleEndian(e.to, 4),
                EncodeLittleEndian(e.needActivate, 4), e.value);
    var enc := EncodeEntry(e);
    ReadUInt32LEIsLittleEndian(enc, 0);
    ReadUInt32LEIsLittleEndian(enc, 4);
    ReadUInt32LEIsLittleEndian(enc, 8);
    ReadUInt32LEIsLittleEndian(enc, 12);
    LittleEndianRoundTrip(e.mode, 4);
    LittleEndianRoundTrip(e.from, 4);
    LittleEndianRoundTrip(e.to, 4);
    LittleEndianRoundTrip(e.needActivate, 4);
  }

  /** The first encoded entry after a prefix is the 24-byte window at the prefix's end. */
  lemma FirstWindow(prefix: seq<Byte>, es: seq<Entry>)
    requires AllWellFormed(es) && es != []
    ensures WellFormed(es[0]) && AllWellFormed(es[1..])
    ensures var buf := prefix + EncodeEntries(es);
      && |buf| >= |prefix| + EntrySize
      && buf[|prefix|..|prefix| + EntrySize] == EncodeEntry(es[0])
      && buf == (prefix + EncodeEntry(es[0])) + EncodeEntries(es[1..])
  {
    assert WellFormed(es[0]);
    var enc, rest := EncodeEntry(es[0]), EncodeEntries(es[1..]);
    assert EncodeEntries(es) == enc + rest;
    ConcatAssoc(prefix, enc, rest);
    SliceRight(prefix, enc + rest, |prefix|, |prefix| + EntrySize);
    SliceLeft(enc, rest, 0, EntrySize);
  }

  /** Encoded entries after any prefix are read back in order, when exactly their number is announced. */
  lemma {:induction false} EntriesOfEncoding(prefix: seq<Byte>, es: seq<Entry>)
    requires AllWellFormed(es)
    ensures Entries(prefix + EncodeEntries(es), |prefix|, |es|) == Ok(es)
    decreases es
  {
    if es == [] {
      assert prefix + EncodeEntries(es) == prefix;
    } else {
      FirstWindow(prefix, es);
      DecodeEncodedEntry(es[0]);
      EntriesOfEncoding(prefix + EncodeEntry(es[0]), es[1..]);
      assert es == [es[0]] + es[1..];
    }
  }

  /** Decoding an encoded table gives back its identifier, default value and entries. */
  lemma EncodeRoundTrip(uuid: seq<Byte>, defValue: seq<Byte>, es: seq<Entry>)
    requires |uuid| == 16 && |defValue| == 8 && |es| < Pow256(4) && AllWellFormed(es)
    ensures Decode(Encode(uuid, defValue, es)) == Ok(Daytimer(UuidOf(uuid).value, defValue, |es|, es))
  {
    var ids := uuid + defValue;
    var head := ids + EncodeLittleEndian(|es|, 4);
    var buf := Encode(uuid, defValue, es);
    SliceLeft(head, EncodeEntries(es), 0, HeaderSize);
    assert buf[..HeaderSize] == head;
    SliceLeft(head, EncodeEntries(es), 24, 28);
    SliceRight(ids, EncodeLittleEndian(|es|, 4), 24, 28);
    assert buf[24..28] == EncodeLittleEndian(|es|, 4);
    ReadUInt32LEIsLittleEndian(buf, 24);
    LittleEndianRoundTrip(|es|, 4);
    SliceLeft(head, EncodeEntries(es), 16, 24);
    SliceLeft(ids, EncodeLittleEndian(|es|, 4), 16, 24);
    SliceRight(uuid, defValue, 16, 24);
    assert buf[16..24] == defValue;
    SliceLeft(head, EncodeEntries(es), 0, 16);
    SliceLeft(ids, EncodeLittleEndian(|es|, 4), 0, 16);
    SliceLeft(uuid, defValue, 0, 16);
    assert buf[..16] == uuid[..16];
    UuidOfPrefix(buf);
    UuidOfPrefix(uuid);
    EntriesOfEncoding(head, es);
  }
}
