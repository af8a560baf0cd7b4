/**
 * The event table of value states: a sequence of 24-byte records, each a 16-byte
 * identifier followed by an 8-byte little-endian double.
 */
module ValueStates {
  import opened Wrappers
  import opened Bytes
  import opened Uuid
  import opened Registry

  const RecordSize := 24

  lemma Multiple(n: nat)
    ensures (RecordSize * n) % RecordSize == 0 && (RecordSize * n) / RecordSize == n
  {
  }

  /** The record at a multiple of 24 before the end of a well-formed table lies inside it, and the next one starts at a multiple of 24. */
  lemma NextRecord(len: nat, i: nat)
    requires len % RecordSize == 0 && i % RecordSize == 0 && i < len
    ensures i + RecordSize <= len && (i + RecordSize) % RecordSize == 0
  {
  }

  /** One record: its key, and the double's 8 bytes as the new value. */
  function Record(event: seq<Byte>): Update
    requires |event| == RecordSize
  {
    Update(UuidOf(event).value, Number(event[16..24]))
  }

  /** The records of a well-formed table, in order. */
  function Records(buf: seq<Byte>): (us: seq<Update>)
    requires |buf| % RecordSize == 0
    ensures |us| == |buf| / RecordSize
  {
    if buf == [] then [] else [Record(buf[..RecordSize])] + Records(buf[RecordSize..])
  }

  /**
   * `processEventTableValueStates`: a table whose length is not a multiple of 24 is
   * reported and ignored; otherwise every record updates the entry it names. Reading a
   * record's entry throws while the registry is still null.
   */
  function Process(config: Option<Table>, buf: seq<Byte>): (r: Effect)
    ensures |buf| % RecordSize != 0 ==> r == Effect(config, None)
    ensures r.fault.Some? <==> config.None? && |buf| % RecordSize == 0 && |buf| > 0
    ensures r.fault.Some? ==> r.fault == Some(TypeError)
    ensures r.config.Some? <==> config.Some?
    ensures config.Some? ==> SameShape(config.value, r.config.value)
  {
    if |buf| % RecordSize != 0 || |buf| == 0 then Effect(config, None)
    else if config.None? then Effect(None, Some(TypeError))
    else
      ApplyAllShape(config.value, Records(buf));
      Effect(Some(ApplyAll(config.value, Records(buf))), None)
  }

  /** Record `k` takes its key from bytes [24k, 24k+16) and its value from bytes [24k+16, 24k+24). */
  lemma {:induction false} RecordAt(buf: seq<Byte>, k: nat)
    requires |buf| % RecordSize == 0 && k < |buf| / RecordSize
    ensures Records(buf)[k] == Update(UuidOf(buf[24 * k..24 * k + 16]).value, Number(buf[24 * k + 16..24 * k + 24]))
  {
    if k == 0 {
      var event := buf[..RecordSize];
      UuidOfPrefix(event);
      assert event[..16] == buf[0..16] && event[16..24] == buf[16..24];
    } else {
      var rest := buf[RecordSize..];
      RecordAt(rest, k - 1);
      var j := 24 * (k - 1);
      SliceOfSuffix(buf, RecordSize, j, j + 16);
      SliceOfSuffix(buf, RecordSize, j + 16, j + 24);
    }
  }

  /**
   * A well-formed table leaves every entry's name and type alone and gives it the value of
   * the last record naming it; entries no record names keep their value.
   */
  lemma ProcessValue(t: Table, buf: seq<Byte>, key: string)
    requires |buf| % RecordSize == 0 && key in t
    ensures var r := Process(Some(t), buf).config.value;
      key in r && r[key].name == t[key].name && r[key].kind == t[key].kind
      && r[key].value == (if LastWrite(Records(buf), key).Some? then LastWrite(Records(buf), key).value
                          else t[key].value)
  {
    ApplyAllValue(t, Records(buf), key);
  }

  /** A record naming a key that is not in the registry does not stop the records after it. */
  lemma {:induction false} MissingKeysSkipped(t: Table, a: seq<Byte>, b: seq<Byte>)
    requires |a| % RecordSize == 0 && |b| % RecordSize == 0
    requires forall i :: 0 <= i < |Records(a)| ==> Records(a)[i].key !in t
    ensures Process(Some(t), a + b).config == Process(Some(t), b).config
  {
    assert |a + b| % RecordSize == 0;
    ProcessLoaded(t, a + b);
    ProcessLoaded(t, b);
    RecordsConcat(a, b);
    ApplyAllMissing(t, Records(a));
    ApplyAllConcat(t, Records(a), Records(b));
  }

  /** Once the registry is loaded, a well-formed table applies all its records, in order. */
  lemma ProcessLoaded(t: Table, buf: seq<Byte>)
    requires |buf| % RecordSize == 0
    ensures Process(Some(t), buf) == Effect(Some(ApplyAll(t, Records(buf))), None)
  {
  }

  lemma {:induction false} RecordsConcat(a: seq<Byte>, b: seq<Byte>)
    requires |a| % RecordSize == 0 && |b| % RecordSize == 0
    ensures Records(a + b) == Records(a) + Records(b)
  {
    if a == [] {
      assert a + b == b;
    } else {
      var ab := a + b;
      assert ab[..RecordSize] == a[..RecordSize];
      assert ab[RecordSize..] == a[RecordSize..] + b;
      RecordsConcat(a[RecordSize..], b);
    }
  }

  lemma RecordsSnoc(buf: seq<Byte>, i: nat)
    requires i % RecordSize == 0 && i + RecordSize <= |buf|
    ensures Records(buf[..i + RecordSize]) == Records(buf[..i]) + [Record(buf[i..i + RecordSize])]
  {
    var event := buf[i..i + RecordSize];
    assert buf[..i + RecordSize] == buf[..i] + event;
    RecordsConcat(buf[..i], event);
    assert event[..RecordSize] == event && event[RecordSize..] == [];
  }

  /** A record as the server sends it: a 16-byte identifier and the value's 8 bytes. */
  datatype ValueEvent = ValueEvent(uuid: seq<Byte>, raw: seq<Byte>)

  predicate WellFormed(e: ValueEvent)
  {
    |e.uuid| == 16 && |e.raw| == 8
  }

  function Encode(es: seq<ValueEvent>): (buf: seq<Byte>)
    requires forall i :: 0 <= i < |es| ==> WellFormed(es[i])
    ensures |buf| == RecordSize * |es|
  {
    if es == [] then []
    else
      var e := es[|es| - 1];
      assert WellFormed(e);
      Encode(es[..|es| - 1]) + e.uuid + e.raw
  }

  /** The update record `e` stands for. */
  function EventUpdate(e: ValueEvent): Update
    requires WellFormed(e)
  {
    Update(UuidOf(e.uuid).value, Number(e.raw))
  }

  /** The updates the records of `es` stand for, in order. */
  function Updates(es: seq<ValueEvent>): seq<Update>
    requires forall i :: 0 <= i < |es| ==> WellFormed(es[i])
  {
    if es == [] then [] else
      var e := es[|es| - 1];
      assert WellFormed(e);
      Updates(es[..|es| - 1]) + [EventUpdate(e)]
  }

  /** Decoding an encoded table gives back one update per record, in order. */
  lemma {:induction false} RecordsOfEncode(es: seq<ValueEvent>)
    requires forall i :: 0 <= i < |es| ==> WellFormed(es[i])
    ensures Records(Encode(es)) == Updates(es)
  {
    if es != [] {
      var init, e := es[..|es| - 1], es[|es| - 1];
      assert WellFormed(e);
      var event := e.uuid + e.raw;
      assert Encode(es) == Encode(init) + event;
      Multiple(|init|);
      RecordsConcat(Encode(init), event);
      RecordOfEvent(e);
      RecordsOfEncode(init);
    }
  }

  lemma RecordOfEvent(e: ValueEvent)
    requires WellFormed(e)
    ensures Records(e.uuid + e.raw) == [EventUpdate(e)]
  {
    var event := e.uuid + e.raw;
    assert event[..RecordSize] == event && event[RecordSize..] == [];
    assert event[..16] == e.uuid && event[16..24] == e.raw;
    UuidOfPrefix(event);
  }
}
