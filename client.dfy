/**
 * The client object: the registry (`serverConfig`, null until the structure file is saved)
 * and the one-frame slot `nextMessageType`, and the handlers that read and update them.
 */
module Client {
  import opened Wrappers
  import opened Bytes
  import opened Uuid
  import opened Registry
  import Structure
  import ValueStates
  import TextStates
  import DaytimerStates
  import WeatherStates

  /** A websocket message: text, or a binary buffer. */
  datatype Frame = TextFrame(text: string) | BinaryFrame(data: seq<Byte>)

  const HeaderMarker := 0x03
  const ValueTable := 2
  const TextTable := 3
  const DaytimerTable := 4
  const WeatherTable := 7

  /** An 8-byte binary frame starting with the marker announces the next frame. */
  predicate IsHeader(buf: seq<Byte>)
  {
    |buf| == 8 && buf[0] == HeaderMarker
  }

  /** `getMessageType`: the type code of a header (any byte, known or not); null for anything else. */
  function GetMessageType(buf: seq<Byte>): (r: Option<Byte>)
    ensures r.Some? <==> |buf| == 8 && buf[0] == 0x03
    ensures r.Some? ==> r.value == buf[1]
  {
    if |buf| != 8 || buf[0] != HeaderMarker then None else Some(buf[1])
  }

  /** The client's state after a frame, and the exception that escaped, if any. */
  datatype Outcome = Outcome(serverConfig: Option<Table>, nextMessageType: Option<Byte>, fault: Option<Fault>)

  /** A decoder's error bubbles up with the state it left; otherwise the slot is cleared. */
  function Settle(config: Option<Table>, slot: Option<Byte>, fault: Option<Fault>): Outcome
  {
    if fault.Some? then Outcome(config, slot, fault) else Outcome(config, None, None)
  }

  function DecodeFault<T>(r: Result<T, Fault>): Option<Fault>
  {
    if r.Err? then Some(r.error) else None
  }

  /**
   * `processResponse`: a header stores its code; a binary frame without a pending code is
   * reported and dropped; a body is dispatched on the pending code; text is printed. An
   * exception from a decoder escapes before the slot is cleared.
   */
  function Step(config: Option<Table>, slot: Option<Byte>, frame: Frame): (o: Outcome)
    ensures frame.BinaryFrame? && IsHeader(frame.data) ==> o == Outcome(config, Some(frame.data[1]), None)
    ensures frame.TextFrame? ==> o == Outcome(config, None, None)
    ensures frame.BinaryFrame? && !IsHeader(frame.data) && slot.None? ==> o == Outcome(config, None, None)
    ensures !(frame.BinaryFrame? && IsHeader(frame.data)) ==> (o.fault.None? <==> o.nextMessageType.None?)
    ensures o.fault.Some? ==> o.nextMessageType == slot && slot.Some? && slot.value in {ValueTable, TextTable, DaytimerTable, WeatherTable}
    ensures slot.Some? && slot.value !in {ValueTable, TextTable} ==> o.serverConfig == config
    ensures frame.BinaryFrame? && !IsHeader(frame.data) && slot == Some(ValueTable) ==>
              o.serverConfig == ValueStates.Process(config, frame.data).config
              && o.fault == ValueStates.Process(config, frame.data).fault
    ensures frame.BinaryFrame? && !IsHeader(frame.data) && slot == Some(TextTable) ==>
              o.serverConfig == TextStates.Process(config, frame.data).config
              && o.fault == TextStates.Process(config, frame.data).fault
    ensures frame.BinaryFrame? && !IsHeader(frame.data) && slot == Some(DaytimerTable) ==>
              o.fault == DecodeFault(DaytimerStates.Decode(frame.data))
    ensures frame.BinaryFrame? && !IsHeader(frame.data) && slot == Some(WeatherTable) ==>
              o.fault == DecodeFault(WeatherStates.Decode(frame.data))
    ensures frame.BinaryFrame? && !IsHeader(frame.data) && slot.Some?
              && slot.value !in {ValueTable, TextTable, DaytimerTable, WeatherTable} ==>
              o == Outcome(config, None, None)
  {
    match frame
    case TextFrame(_) => Outcome(config, None, None)
    case BinaryFrame(data) =>
      if IsHeader(data) then Outcome(config, GetMessageType(data), None)
      else if slot.None? then Outcome(config, slot, None)
      else if slot.value == ValueTable then
        var e := ValueStates.Process(config, data);
        Settle(e.config, slot, e.fault)
      else if slot.value == TextTable then
        var e := TextStates.Process(config, data);
        Settle(e.config, slot, e.fault)
      else if slot.value == DaytimerTable then Settle(config, slot, DecodeFault(DaytimerStates.Decode(data)))
      else if slot.value == WeatherTable then Settle(config, slot, DecodeFault(WeatherStates.Decode(data)))
      else Outcome(config, None, None)
  }

  /** `uuidToHuman`: the entry's name, or the identifier itself when there is no entry or no registry yet. */
  function UuidToHuman(serverConfig: Option<Table>, uuid: string): (name: string)
    ensures serverConfig.Some? && uuid in serverConfig.value ==> name == serverConfig.value[uuid].name
    ensures !(serverConfig.Some? && uuid in serverConfig.value) ==> name == uuid
  {
    if serverConfig.None? then uuid
    else if uuid in serverConfig.value then serverConfig.value[uuid].name
    else uuid
  }

  /** The types `getControls` leaves out: states, rooms, categories and autopilot rules. */
  predicate Listed(kind: Option<string>)
  {
    kind !in {Some("_state_"), Some("_room_"), Some("_category_"), Some("_autopilot_")}
  }

  /** One choice of the console's control list: the entry's name and current value, and its key. */
  datatype Choice = Choice(name: string, shown: Value, value: string)

  function ChoiceOf(t: Table, key: string): Choice
    requires key in t
  {
    Choice(t[key].name, t[key].value, key)
  }

  /** The keys of a list of choices. */
  ghost function Shown(cs: seq<Choice>): set<string>
  {
    set i | 0 <= i < |cs| :: cs[i].value
  }

  /** The keys among `ks` whose entries `getControls` lists. */
  ghost function ListedKeys(t: Table, ks: set<string>): set<string>
    requires ks <= t.Keys
  {
    set k | k in ks && Listed(t[k].kind)
  }

  /** After the keys `visited`: one choice for each listed key among them, each once. */
  ghost predicate Collected(t: Table, visited: set<string>, cs: seq<Choice>)
  {
    && visited <= t.Keys
    && (forall i :: 0 <= i < |cs| ==> cs[i].value in visited && cs[i] == ChoiceOf(t, cs[i].value))
    && Shown(cs) == ListedKeys(t, visited)
    && (forall i, j :: 0 <= i < j < |cs| ==> cs[i].value != cs[j].value)
  }

  /** Visiting one more key adds its choice when it is listed. */
  lemma CollectStep(t: Table, visited: set<string>, cs: seq<Choice>, k: string, next: seq<Choice>)
    requires Collected(t, visited, cs) && k in t && k !in visited
    requires next == if Listed(t[k].kind) then cs + [ChoiceOf(t, k)] else cs
    ensures Collected(t, visited + {k}, next)
  {
    assert ListedKeys(t, visited + {k}) == ListedKeys(t, visited) + (if Listed(t[k].kind) then {k} else {});
    if Listed(t[k].kind) {
      forall x | x in Shown(cs) + {k} ensures x in Shown(next) {
        if x == k {
          assert next[|cs|].value == x;
        } else {
          var i :| 0 <= i < |cs| && cs[i].value == x;
          assert next[i] == cs[i];
        }
      }
      assert Shown(next) == Shown(cs) + {k};
    }
  }

  lemma CollectedAll(t: Table, cs: seq<Choice>)
    requires Collected(t, t.Keys, cs)
    ensures (set i | 0 <= i < |cs| :: cs[i].value) == (set k | k in t && Listed(t[k].kind))
  {
    assert Shown(cs) == ListedKeys(t, t.Keys);
  }

  class Loxone {
    var serverConfig: Option<Table>
    var nextMessageType: Option<Byte>

    constructor ()
      ensures serverConfig == None && nextMessageType == None
    {
      serverConfig := None;
      nextMessageType := None;
    }

    /** `processResponse` on the client's own state. */
    method ProcessResponse(frame: Frame) returns (fault: Option<Fault>)
      modifies this
      ensures Outcome(serverConfig, nextMessageType, fault) == Step(old(serverConfig), old(nextMessageType), frame)
    {
      fault := None;
      if frame.BinaryFrame? {
        var data := frame.data;
        if |data| == 8 && data[0] == HeaderMarker {
          nextMessageType := GetMessageType(data);
          return;
        }
        if nextMessageType.None? {
          return;
        }
        var code := nextMessageType.value;
        if code == ValueTable {
          fault := ProcessEventTableValueStates(data);
        } else if code == TextTable {
          fault := ProcessEventTableTextStates(data);
        } else if code == DaytimerTable {
          var r := DaytimerStates.PrintEventTableDaytimerStates(data);
          fault := DecodeFault(r);
        } else if code == WeatherTable {
          var r := WeatherStates.PrintEventTableWeatherStates(data);
          fault := DecodeFault(r);
        }
        if fault.Some? {
          return;
        }
      }
      nextMessageType := None;
    }

    /**
     * `ref = this.serverConfig[uuid]; if (ref) ref.value = v`: the entry's value is
     * overwritten; an unknown key is only reported; a null registry throws.
     */
    method SetEntryValue(uuid: string, v: Value) returns (fault: Option<Fault>)
      modifies this`serverConfig
      ensures fault == (if old(serverConfig).None? then Some(TypeError) else None)
      ensures serverConfig == if old(serverConfig).None? then None else Some(SetValue(old(serverConfig).value, uuid, v))
    {
      if serverConfig.None? {
        return Some(TypeError);
      }
      var t := serverConfig.value;
      if uuid in t {
        serverConfig := Some(t[uuid := t[uuid].(value := v)]);
      }
      return None;
    }

    /** `processEventTableValueStates`: the loop over 24-byte records, updating entries in place. */
    method ProcessEventTableValueStates(buf: seq<Byte>) returns (fault: Option<Fault>)
      modifies this`serverConfig
      ensures Effect(serverConfig, fault) == ValueStates.Process(old(serverConfig), buf)
    {
      if |buf| % ValueStates.RecordSize != 0 {
        return None;
      }
      var i := 0;
      while i < |buf|
        invariant i <= |buf| && i % ValueStates.RecordSize == 0
        invariant old(serverConfig).None? ==> i == 0 && serverConfig.None?
        invariant old(serverConfig).Some? ==>
          serverConfig == Some(ApplyAll(old(serverConfig).value, ValueStates.Records(buf[..i])))
      {
        ValueStates.NextRecord(|buf|, i);
        fault := ApplyValueRecord(buf, i, old(serverConfig));
        if fault.Some? {
          return;
        }
        i := i + ValueStates.RecordSize;
      }
      assert buf[..i] == buf;
      if old(serverConfig).Some? {
        ValueStates.ProcessLoaded(old(serverConfig).value, buf);
      }
      return None;
    }

    /** One pass of the value loop: the record at offset `i` updates the entry it names. */
    method ApplyValueRecord(buf: seq<Byte>, i: nat, ghost config0: Option<Table>) returns (fault: Option<Fault>)
      modifies this`serverConfig
      requires i % ValueStates.RecordSize == 0 && i + ValueStates.RecordSize <= |buf|
      requires config0.None? ==> i == 0 && serverConfig.None?
      requires config0.Some? ==> serverConfig == Some(ApplyAll(config0.value, ValueStates.Records(buf[..i])))
      ensures fault.Some? <==> config0.None?
      ensures fault.Some? ==> fault == Some(TypeError) && serverConfig.None?
      ensures config0.Some? ==>
        serverConfig == Some(ApplyAll(config0.value, ValueStates.Records(buf[..i + ValueStates.RecordSize])))
    {
      var event := buf[i..i + ValueStates.RecordSize];
      var uuid := ParseUuid(event);
      var value := Number(event[16..24]);
      fault := SetEntryValue(uuid.value, value);
      if fault.Some? {
        return;
      }
      ValueStates.RecordsSnoc(buf, i);
      ApplyAllSnoc(config0.value, ValueStates.Records(buf[..i]), ValueStates.Record(event));
    }

    /** `processEventTableTextStates`: the pointer loop over variable-length records. */
    method ProcessEventTableTextStates(buf: seq<Byte>) returns (fault: Option<Fault>)
      modifies this`serverConfig
      ensures Effect(serverConfig, fault) == TextStates.Process(old(serverConfig), buf)
    {
      var pointer := 0;
      ghost var done: seq<TextStates.Raw> := [];
      TextStates.ScanStart(buf);
      while pointer <= |buf| - 1
        invariant serverConfig == TextStates.Applied(old(serverConfig), done)
        invariant old(serverConfig).None? ==> done == []
        invariant TextStates.ScannedTo(buf, pointer, done)
        decreases |buf| - pointer
      {
        var sl := buf[pointer..];
        if |sl| == 0 {
          break;
        }
        var stop, next;
        stop, fault, next, done := ApplyTextRecord(buf, pointer, old(serverConfig), done);
        if stop {
          return;
        }
        pointer := next;
      }
      TextStates.ScanEnd(old(serverConfig), buf, pointer, done);
      return None;
    }

    /**
     * One pass of the text loop: the record at `pointer` is read and its text stored in the
     * entry it names. It stops the loop when the record is cut short (the reads throw) or when
     * the registry is null; otherwise the pointer moves past the record and its padding.
     */
    method ApplyTextRecord(buf: seq<Byte>, pointer: nat, ghost config0: Option<Table>, ghost done: seq<TextStates.Raw>)
      returns (stop: bool, fault: Option<Fault>, next: nat, ghost read: seq<TextStates.Raw>)
      modifies this`serverConfig
      requires pointer < |buf|
      requires serverConfig == TextStates.Applied(config0, done)
      requires config0.None? ==> done == []
      requires TextStates.ScannedTo(buf, pointer, done)
      ensures stop ==> Effect(serverConfig, fault) == TextStates.Process(config0, buf)
      ensures !stop ==> pointer < next && serverConfig == TextStates.Applied(config0, read)
                        && (config0.None? ==> read == []) && TextStates.ScannedTo(buf, next, read)
    {
      var sl := buf[pointer..];
      var ok, uuid, text, advance := TextStates.ReadRecord(sl);
      if !ok {
        TextStates.ScanShort(config0, buf, pointer, done);
        return true, Some(RangeError), 0, done;
      }
      ghost var record := TextStates.Raw(sl[..16], text);
      next := pointer + advance;
      read := done + [record];
      TextStates.ScanStep(buf, pointer, done, next, read);
      fault := SetEntryValue(uuid, Text(text));
      if fault.Some? {
        TextStates.ScanNull(buf, next, read);
        return true, fault, next, read;
      }
      TextStates.KeyedSnoc(done, record);
      ApplyAllSnoc(config0.value, TextStates.Keyed(done), Update(uuid, Text(text)));
      stop := false;
    }

    /**
     * `saveServerConfig`: the collections are flattened and merged in order, then the weather
     * server's and the global states under the fake key, which is deleted after each. When
     * the structure has no weather server the exception escapes and the registry is unchanged.
     */
    method SaveServerConfig(cfg: Structure.Config) returns (fault: Option<Fault>)
      modifies this`serverConfig
      ensures fault == DecodeFault(Structure.BuildRegistry(cfg))
      ensures serverConfig == if fault.None? then Some(Structure.BuildRegistry(cfg).value) else old(serverConfig)
    {
      var parsed := Structure.ParseConfigStuff(cfg.controls, "", None);
      var more := Structure.ParseConfigStuff(cfg.mediaServer, "(MediaServer) ", None);
      parsed := parsed + more;
      more := Structure.ParseConfigStuff(cfg.rooms, "(Room) ", Some("_room_"));
      parsed := parsed + more;
      more := Structure.ParseConfigStuff(cfg.cats, "(Category) ", Some("_category_"));
      parsed := parsed + more;
      more := Structure.ParseConfigStuff(cfg.autopilot, "(autopilot) ", Some("_autopilot_"));
      parsed := parsed + more;
      if cfg.weatherServer.None? {
        return Some(TypeError);
      }
      more := Structure.ParseConfigStuff(Structure.FakeItem("WeatherServer", "WeatherServer", cfg.weatherServer.value),
                                         "(WeatherServer) ", None);
      parsed := parsed + more;
      parsed := parsed - {Structure.FakeUuid};
      more := Structure.ParseConfigStuff(Structure.FakeItem("GlobalState", "", cfg.globalStates), "(GlobalStates) ", None);
      parsed := parsed + more;
      parsed := parsed - {Structure.FakeUuid};
      serverConfig := Some(parsed);
      return None;
    }

    /**
     * `getControls`: one choice per entry whose type is not a state, room, category or
     * autopilot type, each key once; none while the registry is null.
     */
    method GetControls() returns (choices: seq<Choice>)
      ensures serverConfig.None? ==> choices == []
      ensures serverConfig.Some? ==>
        (set i | 0 <= i < |choices| :: choices[i].value)
          == (set k | k in serverConfig.value && Listed(serverConfig.value[k].kind))
      ensures serverConfig.Some? ==> forall i :: 0 <= i < |choices| ==>
        choices[i].value in serverConfig.value && choices[i] == ChoiceOf(serverConfig.value, choices[i].value)
      ensures forall i, j :: 0 <= i < j < |choices| ==> choices[i].value != choices[j].value
    {
      choices := [];
      if serverConfig.None? {
        return;
      }
      var t := serverConfig.value;
      var keys := t.Keys;
      while keys != {}
        invariant keys <= t.Keys
        invariant Collected(t, t.Keys - keys, choices)
        decreases |keys|
      {
        var k :| k in keys;
        ghost var visited := t.Keys - keys;
        keys := keys - {k};
        assert t.Keys - keys == visited + {k};
        var item := t[k];
        if !Listed(item.kind) {
          CollectStep(t, visited, choices, k, choices);
          continue;
        }
        CollectStep(t, visited, choices, k, choices + [Choice(item.name, item.value, k)]);
        choices := choices + [Choice(item.name, item.value, k)];
      }
      assert t.Keys - keys == t.Keys;
      CollectedAll(t, choices);
    }
  }
}
