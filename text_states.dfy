/**
 * The event table of text states: variable-length records, each a 16-byte identifier, a
 * 16-byte icon identifier, a 4-byte little-endian text length, the text, and zero to three
 * padding bytes up to the next multiple of four.
 */
module TextStates {
  import opened Wrappers
  import opened Bytes
  import opened Uuid
  import opened Registry

  /** Identifier, icon identifier and length field. */
  const HeaderSize := 36

  /** The padding after a text of `len` bytes: `4 - len % 4`, or 0 when that is 4. */
  function Padding(len: nat): (pad: nat)
    ensures pad < 4 && (len + pad) % 4 == 0
    ensures pad == 0 <==> len % 4 == 0
  {
    var p := 4 - len % 4;
    if p == 4 then 0 else p
  }

  lemma PaddingExamples()
    ensures Padding(5) == 3 && Padding(4) == 0 && Padding(0) == 0 && Padding(7) == 1
  {
  }

  /** A record as the loop reads it: the identifier's bytes and the text. */
  datatype Raw = Raw(id: seq<Byte>, text: seq<Byte>)

  /** The records read from a buffer, and the error that stopped the loop, if any. */
  datatype Scan = Scan(records: seq<Raw>, fault: Option<Fault>)

  /** The registry key of an identifier; the loop only reads 16-byte identifiers, which always have one. */
  function KeyOf(id: seq<Byte>): string
  {
    match UuidOf(id)
    case Ok(key) => key
    case Err(_) => ""
  }

  /** The update a record makes: its key gets its text. */
  function RecordUpdate(r: Raw): Update
  {
    Update(KeyOf(r.id), Text(r.text))
  }

  /** The updates of the records, in order. */
  function Keyed(rs: seq<Raw>): (us: seq<Update>)
    ensures |us| == |rs|
  {
    if rs == [] then [] else Keyed(rs[..|rs| - 1]) + [RecordUpdate(rs[|rs| - 1])]
  }

  lemma KeyedSnoc(rs: seq<Raw>, r: Raw)
    ensures Keyed(rs + [r]) == Keyed(rs) + [RecordUpdate(r)]
  {
    assert (rs + [r])[..|rs|] == rs;
  }

  lemma {:induction false} KeyedConcat(rs: seq<Raw>, ss: seq<Raw>)
    ensures Keyed(rs + ss) == Keyed(rs) + Keyed(ss)
    decreases |ss|
  {
    if ss == [] {
      assert rs + ss == rs;
    } else {
      var init, last := ss[..|ss| - 1], ss[|ss| - 1];
      assert ss == init + [last];
      assert rs + ss == (rs + init) + [last];
      KeyedSnoc(rs + init, last);
      KeyedConcat(rs, init);
      KeyedSnoc(init, last);
    }
  }

  /** The text length declared by the record at the start of `sl`. */
  function DeclaredLength(sl: seq<Byte>): nat
    requires |sl| >= HeaderSize
  {
    ReadUInt32LE(sl, 32)
  }

  /** How far the pointer moves past the record at the start of `sl`. */
  function Advance(sl: seq<Byte>): (n: nat)
    requires |sl| >= HeaderSize
    ensures n >= HeaderSize && n % 4 == 0
  {
    HeaderSize + DeclaredLength(sl) + Padding(DeclaredLength(sl))
  }

  /** The record at the start of `sl`: its identifier, and its text clamped to the buffer. */
  function Record(sl: seq<Byte>): Raw
    requires |sl| >= HeaderSize
  {
    Raw(sl[..16], sl[HeaderSize..Min(HeaderSize + DeclaredLength(sl), |sl|)])
  }

  /** What is left of `sl` once the pointer has moved `n` bytes on. */
  function Drop(sl: seq<Byte>, n: nat): seq<Byte>
  {
    if n < |sl| then sl[n..] else []
  }

  lemma DropSuffix(buf: seq<Byte>, p: nat, n: nat)
    requires p < |buf|
    ensures Drop(buf[p..], n) == Drop(buf, p + n)
  {
  }

  /**
   * The loop of `processEventTableTextStates` over the remaining slice `sl`: it stops at
   * the end of the buffer, throws when fewer than 36 bytes remain, and otherwise reads one
   * record and moves past it and its padding.
   */
  function Records(sl: seq<Byte>): Scan
    decreases |sl|
  {
    if sl == [] then Scan([], None)
    else if |sl| < HeaderSize then Scan([], Some(RangeError))
    else
      var rest := Records(Drop(sl, Advance(sl)));
      Scan([Record(sl)] + rest.records, rest.fault)
  }

  /**
   * What the pointer loop has read so far: `done` are the records before
   * `pointer`, and the rest of the buffer yields the others.
   */
  predicate ScannedTo(buf: seq<Byte>, pointer: nat, done: seq<Raw>)
  {
    Records(buf) == Scan(done + Records(Drop(buf, pointer)).records, Records(Drop(buf, pointer)).fault)
  }

  lemma ScanStart(buf: seq<Byte>)
    ensures ScannedTo(buf, 0, [])
  {
    if buf != [] {
      assert buf[0..] == buf;
    }
  }

  /** Reading one complete record moves the pointer past it and its padding. */
  lemma ScanStep(buf: seq<Byte>, pointer: nat, done: seq<Raw>, next: nat, read: seq<Raw>)
    requires pointer < |buf| && |buf| - pointer >= HeaderSize && ScannedTo(buf, pointer, done)
    requires next == pointer + Advance(buf[pointer..]) && read == done + [Record(buf[pointer..])]
    ensures ScannedTo(buf, next, read)
  {
    var sl := buf[pointer..];
    assert Drop(buf, pointer) == sl;
    var rest := Records(Drop(sl, Advance(sl)));
    RecordsUnfold(sl);
    DropSuffix(buf, pointer, Advance(sl));
    assert rest == Records(Drop(buf, next));
    ConcatAssoc(done, [Record(sl)], rest.records);
    assert Records(buf).records == read + rest.records;
  }

  /**
   * The body of the pointer loop on the remaining slice `sl`: the identifier, the declared
   * length, the text cut at the end of the buffer, and the padding; fewer than 36 bytes throw.
   */
  method ReadRecord(sl: seq<Byte>) returns (ok: bool, uuid: string, text: seq<Byte>, advance: nat)
    ensures ok <==> |sl| >= HeaderSize
    ensures ok ==> Record(sl) == Raw(sl[..16], text) && uuid == KeyOf(sl[..16]) && advance == Advance(sl)
  {
    var id := ParseUuid(sl);
    if id.Err? || |sl| < HeaderSize {
      return false, "", [], 0;
    }
    UuidOfPrefix(sl);
    var len := ReadUInt32LE(sl, 32);
    text := sl[36..Min(36 + len, |sl|)];
    var padding := 4 - len % 4;
    if padding == 4 {
      padding := 0;
    }
    return true, id.value, text, 16 + 16 + 4 + len + padding;
  }

  /** The registry once `done` has been applied; a null registry stays null. */
  function Applied(config: Option<Table>, done: seq<Raw>): Option<Table>
  {
    if config.None? then None else Some(ApplyAll(config.value, Keyed(done)))
  }

  /** Fewer than 36 bytes left: the loop throws, after the updates read so far. */
  lemma ScanShort(config: Option<Table>, buf: seq<Byte>, pointer: nat, done: seq<Raw>)
    requires pointer < |buf| && |buf| - pointer < HeaderSize && ScannedTo(buf, pointer, done)
    requires config.None? ==> done == []
    ensures Process(config, buf) == Effect(Applied(config, done), Some(RangeError))
  {
    assert done + [] == done;
  }

  /** The end of the buffer: the loop stops cleanly. */
  lemma ScanEnd(config: Option<Table>, buf: seq<Byte>, pointer: nat, done: seq<Raw>)
    requires pointer >= |buf| && ScannedTo(buf, pointer, done)
    requires config.None? ==> done == []
    ensures Process(config, buf) == Effect(Applied(config, done), None)
  {
    assert done + [] == done;
  }

  /** A record read while the registry is null: writing its entry throws. */
  lemma ScanNull(buf: seq<Byte>, pointer: nat, read: seq<Raw>)
    requires ScannedTo(buf, pointer, read) && read != []
    ensures Process(None, buf) == Effect(None, Some(TypeError))
  {
  }

  /**
   * `processEventTableTextStates`. While the registry is still null, reading the first
   * record's entry throws, unless the buffer is empty or that record is cut short first.
   */
  function Process(config: Option<Table>, buf: seq<Byte>): (r: Effect)
    ensures r.config.Some? <==> config.Some?
    ensures config.Some? ==> SameShape(config.value, r.config.value)
    ensures buf == [] ==> r == Effect(config, None)
    ensures config.None? && buf != [] ==> r.fault == Some(if |buf| < HeaderSize then RangeError else TypeError)
  {
    var scan := Records(buf);
    if config.None? then Effect(None, if scan.records == [] then scan.fault else Some(TypeError))
    else
      ApplyAllShape(config.value, Keyed(scan.records));
      Effect(Some(ApplyAll(config.value, Keyed(scan.records))), scan.fault)
  }

  /** A text record as the server sends it. */
  datatype TextEvent = TextEvent(uuid: seq<Byte>, icon: seq<Byte>, text: seq<Byte>)

  predicate WellFormed(e: TextEvent)
  {
    |e.uuid| == 16 && |e.icon| == 16 && |e.text| < Pow256(4)
  }

  predicate AllWellFormed(es: seq<TextEvent>)
  {
    forall i :: 0 <= i < |es| ==> WellFormed(es[i])
  }

  function ZeroBytes(n: nat): (z: seq<Byte>)
    ensures |z| == n
  {
    seq(n, _ => 0)
  }

  /** One record: identifiers, length, text, padding. */
  function EncodeEvent(e: TextEvent): (b: seq<Byte>)
    requires WellFormed(e)
    ensures |b| == HeaderSize + |e.text| + Padding(|e.text|)
  {
    e.uuid + e.icon + EncodeLittleEndian(|e.text|, 4) + e.text + ZeroBytes(Padding(|e.text|))
  }

  function Encode(es: seq<TextEvent>): seq<Byte>
    requires AllWellFormed(es)
  {
    if es == [] then [] else EncodeEvent(es[0]) + Encode(es[1..])
  }

  /** The update record `e` stands for: its key and its text. */
  function EventUpdate(e: TextEvent): Update
    requires WellFormed(e)
  {
    Update(UuidOf(e.uuid).value, Text(e.text))
  }

  function Updates(es: seq<TextEvent>): seq<Update>
    requires AllWellFormed(es)
  {
    if es == [] then [] else [EventUpdate(es[0])] + Updates(es[1..])
  }

  /** The records `es` stand for, as the loop reads them. */
  function Raws(es: seq<TextEvent>): seq<Raw>
  {
    if es == [] then [] else [Raw(es[0].uuid, es[0].text)] + Raws(es[1..])
  }

  /** Keying the records of `es` gives the updates they stand for. */
  lemma {:induction false} RawsKeyed(es: seq<TextEvent>)
    requires AllWellFormed(es)
    ensures Keyed(Raws(es)) == Updates(es)
  {
    if es != [] {
      var e := es[0];
      assert WellFormed(e);
      RawsKeyed(es[1..]);
      KeyedConcat([Raw(e.uuid, e.text)], Raws(es[1..]));
      assert Keyed([Raw(e.uuid, e.text)]) == [RecordUpdate(Raw(e.uuid, e.text))];
    }
  }

  /** The record at the start of an encoded event reads back that event and ends where it ends. */
  lemma ReadEvent(e: TextEvent, rest: seq<Byte>)
    requires WellFormed(e)
    ensures var sl := EncodeEvent(e) + rest;
      |sl| >= HeaderSize && Record(sl) == Raw(e.uuid, e.text)
      && Advance(sl) == |EncodeEvent(e)| && Drop(sl, Advance(sl)) == rest
  {
    var ids := e.uuid + e.icon;
    var le := EncodeLittleEndian(|e.text|, 4);
    var head := ids + le;
    var pad := ZeroBytes(Padding(|e.text|));
    var enc := EncodeEvent(e);
    var sl := enc + rest;
    var body := e.text + (pad + rest);
    assert enc == (head + e.text) + pad;
    ConcatAssoc(head + e.text, pad, rest);
    ConcatAssoc(head, e.text, pad + rest);
    assert sl == head + body;
    SliceLeft(head, body, 32, 36);
    SliceRight(ids, le, 32, 36);
    assert sl[32..36] == le;
    ReadUInt32LEIsLittleEndian(sl, 32);
    LittleEndianRoundTrip(|e.text|, 4);
    SliceRight(head, body, HeaderSize, HeaderSize + |e.text|);
    SliceLeft(e.text, pad + rest, 0, |e.text|);
    assert sl[HeaderSize..HeaderSize + |e.text|] == e.text;
    SliceLeft(head, body, 0, 16);
    SliceLeft(ids, le, 0, 16);
    SliceLeft(e.uuid, e.icon, 0, 16);
    assert sl[..16] == e.uuid;
    if rest != [] {
      SliceRight(enc, rest, |enc|, |sl|);
    }
  }

  lemma RecordsUnfold(sl: seq<Byte>)
    requires |sl| >= HeaderSize
    ensures Records(sl) == Scan([Record(sl)] + Records(Drop(sl, Advance(sl))).records,
                                Records(Drop(sl, Advance(sl))).fault)
  {
  }

  lemma RecordsCons(e: TextEvent, rest: seq<Byte>)
    requires WellFormed(e)
    ensures Records(EncodeEvent(e) + rest) == Scan([Raw(e.uuid, e.text)] + Records(rest).records, Records(rest).fault)
  {
    ReadEvent(e, rest);
    RecordsUnfold(EncodeEvent(e) + rest);
  }

  /**
   * Complete records followed by anything: their records come first, in order, then
   * whatever the rest of the buffer yields.
   */
  lemma {:induction false} RecordsOfEncode(es: seq<TextEvent>, tail: seq<Byte>)
    requires AllWellFormed(es)
    ensures Records(Encode(es) + tail)
         == Scan(Raws(es) + Records(tail).records, Records(tail).fault)
  {
    if es == [] {
      assert Encode(es) + tail == tail;
    } else {
      var e, more := es[0], es[1..];
      assert WellFormed(e);
      assert AllWellFormed(more);
      var rest := Encode(more) + tail;
      assert Encode(es) == EncodeEvent(e) + Encode(more);
      ConcatAssoc(EncodeEvent(e), Encode(more), tail);
      RecordsCons(e, rest);
      RecordsOfEncode(more, tail);
      assert Raws(es) == [Raw(e.uuid, e.text)] + Raws(more);
      ConcatAssoc([Raw(e.uuid, e.text)], Raws(more), Records(tail).records);
    }
  }

  /** A table of complete records decodes to their records, in order, without error; they make the updates the events stand for. */
  lemma EncodeRoundTrip(es: seq<TextEvent>)
    requires AllWellFormed(es)
    ensures Records(Encode(es)) == Scan(Raws(es), None)
    ensures Keyed(Records(Encode(es)).records) == Updates(es)
  {
    RecordsOfEncode(es, []);
    assert Encode(es) + [] == Encode(es);
    assert Raws(es) + [] == Raws(es);
    RawsKeyed(es);
  }

  /**
   * Fewer than 36 bytes after the last complete record throw: the updates of the complete
   * records stay applied, and the error escapes.
   */
  lemma ShortRemainder(t: Table, es: seq<TextEvent>, tail: seq<Byte>)
    requires AllWellFormed(es) && 0 < |tail| < HeaderSize
    ensures Process(Some(t), Encode(es) + tail) == Effect(Some(ApplyAll(t, Updates(es))), Some(RangeError))
  {
    RecordsOfEncode(es, tail);
    assert Raws(es) + [] == Raws(es);
    RawsKeyed(es);
  }

  /**
   * A declared length running past the end of the buffer is not an error: the text is
   * cut at the end of the buffer and the loop ends.
   */
  lemma ClampedText(sl: seq<Byte>)
    requires |sl| >= HeaderSize && HeaderSize + DeclaredLength(sl) >= |sl|
    ensures Records(sl) == Scan([Raw(sl[..16], sl[HeaderSize..])], None)
  {
    RecordsUnfold(sl);
    assert Drop(sl, Advance(sl)) == [];
    assert Min(HeaderSize + DeclaredLength(sl), |sl|) == |sl|;
    assert sl[HeaderSize..|sl|] == sl[HeaderSize..];
    assert Record(sl) == Raw(sl[..16], sl[HeaderSize..]);
    assert [Record(sl)] + [] == [Record(sl)];
  }

  /** Once the registry is loaded, every record read updates the entry it names, in order. */
  lemma ProcessLoaded(t: Table, es: seq<TextEvent>)
    requires AllWellFormed(es)
    ensures Process(Some(t), Encode(es)) == Effect(Some(ApplyAll(t, Updates(es))), None)
  {
    EncodeRoundTrip(es);
  }
}
