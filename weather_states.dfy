/**
 * The event table of weather states, decoded and printed but never stored: a 16-byte
 * identifier, a 4-byte little-endian `lastUpdate`, a 4-byte entry count, then entries of
 * five little-endian 32-bit fields and six doubles (68 bytes). The decoding loop starts at
 * offset 28 and steps by 24 while reading 68 bytes at each step.
 */
module WeatherStates {
  import opened Wrappers
  import opened Bytes
  import opened Uuid
  import opened EntryLoop

  const HeaderSize := 24
  const FirstEntry := 28
  const EntrySize := 68

  /** The five 32-bit fields, then the six doubles as their raw 8 bytes each. */
  datatype Entry = Entry(
    timestamp: nat, weatherType: nat, windDirection: nat, solarRadiation: nat, relativeHumidity: nat,
    temperature: seq<Byte>, perceivedTemperature: seq<Byte>, dewPoint: seq<Byte>,
    precipitation: seq<Byte>, windSpeed: seq<Byte>, barometricPressure: seq<Byte>)

  /** What the decoder prints: the identifier, the last update, the announced count and the entries read. */
  datatype Weather = Weather(uuid: string, lastUpdate: nat, numEntries: nat, entries: seq<Entry>)

  function DecodeEntry(e: seq<Byte>): Entry
    requires |e| == EntrySize
  {
    Entry(ReadUInt32LE(e, 0), ReadUInt32LE(e, 4), ReadUInt32LE(e, 8), ReadUInt32LE(e, 12), ReadUInt32LE(e, 16),
          e[20..28], e[28..36], e[36..44], e[44..52], e[52..60], e[60..68])
  }

  /**
   * The entries from offset `i` with `r` still announced: a 68-byte window every 24 bytes;
   * a window cut short by the end of the buffer throws.
   */
  function Entries(buf: seq<Byte>, i: nat, r: nat): Result<seq<Entry>, Fault>
    decreases |buf| - i
  {
    if i >= |buf| || r == 0 then Ok([])
    else if |buf| - i < EntrySize then Err(RangeError)
    else Prepend([DecodeEntry(buf[i..i + EntrySize])], Entries(buf, i + Stride, r - 1))
  }

  /** One more entry read: it joins the ones before, and the count still announced drops by one. */
  lemma EntriesStep(buf: seq<Byte>, acc: seq<Entry>, i: nat, r: nat)
    requires i < |buf| && r > 0 && |buf| - i >= EntrySize
    ensures Prepend(acc, Entries(buf, i, r))
         == Prepend(acc + [DecodeEntry(buf[i..Min(i + EntrySize, |buf|)])], Entries(buf, i + Stride, r - 1))
  {
    assert Min(i + EntrySize, |buf|) == i + EntrySize;
    PrependCons(acc, DecodeEntry(buf[i..i + EntrySize]), Entries(buf, i + Stride, r - 1));
  }

  /** `printEventTableWeatherStates`: the header reads throw on a buffer shorter than 24 bytes. */
  function Decode(buf: seq<Byte>): Result<Weather, Fault>
  {
    if |buf| < HeaderSize then Err(RangeError)
    else
      var n := ReadUInt32LE(buf, 20);
      match Entries(buf, FirstEntry, n)
      case Err(e) => Err(e)
      case Ok(es) => Ok(Weather(UuidOf(buf).value, ReadUInt32LE(buf, 16), n, es))
  }

  /** The decoder: the identifier, `lastUpdate` and the count, then the entries; every read past the end of the buffer throws. */
  method PrintEventTableWeatherStates(buf: seq<Byte>) returns (r: Result<Weather, Fault>)
    ensures r == Decode(buf)
  {
    var uuid := ParseUuid(buf);
    if uuid.Err? || |buf| < HeaderSize {
      return Err(RangeError);
    }
    var lastUpdate := ReadUInt32LE(buf, 16);
    var numEntries := ReadUInt32LE(buf, 20);
    var entries := ReadEntries(buf, numEntries);
    if entries.Err? {
      return Err(entries.error);
    }
    r := Ok(Weather(uuid.value, lastUpdate, numEntries, entries.value));
  }

  /** The loop over the entries, counting those read in `j` as the source does. */
  method ReadEntries(buf: seq<Byte>, numEntries: nat) returns (r: Result<seq<Entry>, Fault>)
    ensures r == Entries(buf, FirstEntry, numEntries)
  {
    var entries := [];
    var i, j := FirstEntry, 0;
    ghost var left := numEntries;
    PrependEmpty(Entries(buf, i, left));
    while i < |buf|
      invariant FirstEntry <= i && j <= numEntries && left == numEntries - j
      invariant Entries(buf, FirstEntry, numEntries) == Prepend(entries, Entries(buf, i, left))
      decreases |buf| - i
    {
      if j >= numEntries {
        break;
      }
      var entry := buf[i..Min(i + EntrySize, |buf|)];
      if |entry| < EntrySize {
        return Err(RangeError);
      }
      EntriesStep(buf, entries, i, left);
      entries := entries + [DecodeEntry(entry)];
      i, j := i + Stride, j + 1;
      left := left - 1;
    }
    assert Entries(buf, i, left) == Ok([]);
    assert entries + [] == entries;
    r := Ok(entries);
  }

  /**
   * From offset `i` with `r` entries announced, the loop reads `k = Iterations(|buf|, i, r)`
   * windows, entry `m` from bytes [i + 24m, i + 24m + 68), and throws exactly when the last
   * of them runs past the end of the buffer.
   */
  lemma {:induction false} EntriesClosedForm(buf: seq<Byte>, i: nat, r: nat)
    ensures var k := Iterations(|buf|, i, r);
      && (Entries(buf, i, r).Ok? <==> k == 0 || i + Stride * (k - 1) + EntrySize <= |buf|)
      && (Entries(buf, i, r).Ok? ==>
            |Entries(buf, i, r).value| == k
            && forall m :: 0 <= m < k ==> Entries(buf, i, r).value[m] == DecodeEntry(buf[i + 24 * m..i + 24 * m + 68]))
    decreases |buf| - i
  {
    if i < |buf| && r > 0 && |buf| - i >= EntrySize {
      EntriesClosedForm(buf, i + Stride, r - 1);
      var k := Iterations(|buf|, i, r);
      var rest := Entries(buf, i + Stride, r - 1);
      if rest.Ok? {
        var es := Entries(buf, i, r).value;
        assert es == [DecodeEntry(buf[i..i + EntrySize])] + rest.value;
        forall m | 0 <= m < k
          ensures es[m] == DecodeEntry(buf[i + 24 * m..i + 24 * m + 68])
        {
          if m > 0 {
            assert es[m] == rest.value[m - 1];
            assert i + Stride + 24 * (m - 1) == i + 24 * m;
          }
        }
      }
    }
  }

  /**
   * A table is read without error exactly when it has its 24-byte header and the last window
   * the loop reaches lies inside the buffer; it then holds
   * `min(numEntries, ceil((|buf| - 28) / 24))` entries.
   */
  lemma DecodeClosedForm(buf: seq<Byte>)
    ensures Decode(buf).Ok? <==>
      |buf| >= HeaderSize
      && var k := Iterations(|buf|, FirstEntry, ReadUInt32LE(buf, 20));
         k == 0 || FirstEntry + Stride * (k - 1) + EntrySize <= |buf|
    ensures Decode(buf).Ok? ==>
      |Decode(buf).value.entries| ==
        if |buf| <= FirstEntry then 0
        else Min(Decode(buf).value.numEntries, (|buf| - FirstEntry + Stride - 1) / Stride)
  {
    if |buf| >= HeaderSize {
      var n := ReadUInt32LE(buf, 20);
      EntriesClosedForm(buf, FirstEntry, n);
      IterationsClosedForm(|buf|, FirstEntry, n);
    }
  }

  /** A table laid out as designed: the 24-byte header, then `N` entries of 68 bytes each. */
  predicate DesignLayout(buf: seq<Byte>)
  {
    |buf| >= HeaderSize && |buf| == HeaderSize + EntrySize * ReadUInt32LE(buf, 20)
  }

  /**
   * Tables laid out as designed are misread. With one entry (92 bytes) the decoder throws,
   * because the window read at offset 28 needs 96 bytes. With two or more it decodes without
   * error and yields `N` entries, but entry `m` is read from offset 28 + 24m, which for every
   * `m` is not the offset 24 + 68m where the design places it.
   */
  lemma DesignLayoutMisread(buf: seq<Byte>)
    requires DesignLayout(buf) && ReadUInt32LE(buf, 20) >= 1
    ensures ReadUInt32LE(buf, 20) == 1 ==> Decode(buf) == Err(RangeError)
    ensures ReadUInt32LE(buf, 20) >= 2 ==> Decode(buf).Ok?
    ensures Decode(buf).Ok? ==> var n := ReadUInt32LE(buf, 20);
      && |Decode(buf).value.entries| == n
      && forall m :: 0 <= m < n ==>
           && FirstEntry + Stride * m != HeaderSize + EntrySize * m
           && Decode(buf).value.entries[m] == DecodeEntry(buf[FirstEntry + 24 * m..FirstEntry + 24 * m + 68])
  {
    var n := ReadUInt32LE(buf, 20);
    EntriesClosedForm(buf, FirstEntry, n);
    IterationsClosedForm(|buf|, FirstEntry, n);
    if n == 1 {
      return;
    }
    assert (|buf| - FirstEntry + Stride - 1) / Stride >= n by {
      assert |buf| - FirstEntry + Stride - 1 >= Stride * n;
    }
  }
}
