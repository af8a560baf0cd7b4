# A verified model of the loxone.js Miniserver client core

`loxone.js` is a console client for a Loxone Miniserver. It opens a websocket, performs a
challenge/response handshake, downloads the structure file (`LoxAPP3.json`) and flattens it
into a registry (`serverConfig`) that maps each control's or state's identifier to its display
name, type and current value. From then on the Miniserver pushes binary event tables, each
announced by an 8-byte message header. The client decodes those tables and writes the new
values into the registry.

This project models that core in Dafny:

- **Registry (`registry.dfy`).** The registry is a map from identifier key to
  `Entry(name, kind, value)`. A decoded update is `Update(key, value)`. `SetValue` is the
  source's `ref = serverConfig[uuid]; if (ref) ref.value = v`, and `ApplyAll` applies updates
  in order.
- **Identifiers (`uuid.dfy`, `bytes.dfy`).** `parseUuid` renders the first 16 bytes of a
  buffer as four hex groups. The first three groups read little-endian and are padded to 8, 4
  and 4 digits. The last 8 bytes are written forward, two digits each.
- **Value table (`value_states.dfy`).** Records are 24 bytes: an identifier, then a double.
  Doubles are kept as their raw 8 bytes.
- **Text table (`text_states.dfy`).** A pointer loop walks variable-length records: an
  identifier, an icon identifier, a 32-bit length, the text, then padding to a multiple of 4.
- **Daytimer and weather tables (`daytimer_states.dfy`, `weather_states.dfy`).** These two
  decoders print and store nothing. `entry_loop.dfy` holds the loop shape they share.
- **Structure file (`structure.dfy`).** `parseConfigStuff` flattens a control tree, and
  `saveServerConfig` merges the collections.
- **Handshake (`handshake.dfy`).** These are the one-shot reply listeners of `getAuthKey`,
  `authenticate` and `getConfigTimestamp`.
- **Client object (`client.dfy`).** The `Loxone` class holds the two mutable fields the core
  updates, `serverConfig` and `nextMessageType`. Its methods are `processResponse`, the two
  table loops that update the registry in place, `saveServerConfig` and `getControls`.

### Error model

- **RangeError.** A read past the end of a Node `Buffer` throws a `RangeError`, while a
  `slice` is clamped to the buffer.
- **TypeError.** Indexing a registry that is still `null` throws a `TypeError`.
- **How errors surface.** Both appear as `Fault` values. An exception escapes
  `processResponse` before it clears `nextMessageType`, and the model keeps that behaviour.
  Updates that the text loop wrote before the exception stay written.

### State and specification

- **State-changing code.** Each loop over mutable state is a `method` in the class. It is
  proved against a specification function in the table's module (`ValueStates.Process`,
  `TextStates.Process`), and the properties of the table format are lemmas about those
  functions.
- **Decoders that only compute.** `parseUuid`, `parseConfigStuff` and the two print-only
  decoders are methods with the source's loops. Each is proved equal to a function, and the
  lemmas are about that function.

### Behaviour of the code worth knowing

The model follows the code in every case below.

- **Identifier rendering.** The code reverses the bytes of each of the first three groups: it
  reads them with `readUIntLE`. So the bytes `04030201 0605 0807 0910111213141516` render as
  `01020304-0506-0708-0910111213141516`. Read in byte order, as in the RFC 4122 layout, the
  same bytes would give `04030201-0605-0807-0910111213141516` (`Uuid.KnownVector`).
- **Weather table.** Loxone's published event-table layout for weather is a 24-byte header,
  then 68-byte entries. The weather loop instead starts at offset 28 and steps by 24 while
  reading 68-byte windows. A one-entry table in that layout therefore throws. Longer tables decode, but from the
  wrong offsets (`WeatherStates.DesignLayoutMisread`).
- **Daytimer table.** A table that ends inside an entry throws (`readDoubleLE` on a short
  slice); it does not stop quietly. It stops without error only when the buffer ends at an
  entry boundary (`DaytimerStates.DecodeClosedForm`).
- **Text table, partial application.** The code writes each record into the registry as it
  reads it; it does not decode the whole table first. A truncated text table therefore leaves
  the records before the truncation applied
  (`TextStates.ShortRemainder`).
- **Text table, short remainder.** Only the empty remainder ends the text loop cleanly. A
  remainder that is too short makes the reads throw.
- **Malformed value table.** A value table whose length is not a multiple of 24 is only
  reported. The handler does not throw, so the slot is cleared as for any other frame.
- **Unrecognised header type.** A header with an unknown type code is stored like any other.
  The next binary frame is then printed and the slot cleared.

## Model

| member | source | states |
|---|---|---|
| Bytes.ReadUInt32LEIsLittleEndian | loxone.js:795 | `readUInt32LE(k)` is the little-endian number of the four bytes at offset `k` |
| Bytes.LittleEndianRoundTrip | loxone.js:827-829 | writing a number below 256^w in `w` bytes, least significant first, and reading the bytes back gives the number |
| Bytes.PaddedLittleEndian | loxone.js:827-829 | `readUIntLE(k, w).toString(16).padStart(2w, '0')` is the two-digit hex of the `w` bytes in reverse order |
| Bytes.PaddedHexByte | loxone.js:835 | `v.toString(16).padStart(2, '0')` is the fixed two-digit hex of the byte |
| Bytes.HexBytesRoundTrip | loxone.js:834-836 | the forward hex string of bytes is all hex digits and decodes back to the same bytes |
| Bytes.BytesOfHexRoundTrip | loxone.js:834-836 | every even-length hex string is the forward hex rendering of the bytes it decodes to |
| Bytes.HexBytesReversedRoundTrip | loxone.js:827-829 | the reversed hex string of bytes decodes back to the same bytes |
| Uuid.UuidOf | loxone.js:820-840 | an identifier is produced exactly when the buffer has at least 8 bytes (shorter buffers make the reads throw); bytes 8-15 are sliced, so clamped |
| Uuid.ParseUuid | loxone.js:820-840 | the method with the source's loop over `part4` returns the same result as `UuidOf` |
| Uuid.UuidLayout | loxone.js:826-838 | for 16 bytes or more: the groups are the reversed hex of bytes 0-3, 4-5 and 6-7 and the forward hex of bytes 8-15, joined by `-` |
| Uuid.UuidGroups | loxone.js:826-838 | the result has the canonical 8-4-4-16 form, each of the first three groups is the fixed-width hex of the little-endian number it reads, and the last is the bytes' hex |
| Uuid.UuidRoundTrip | loxone.js:820-840 | the first 16 bytes can be recovered from the identifier string |
| Uuid.UuidTextRoundTrip | loxone.js:820-840 | every canonical lower-case identifier string is the rendering of some 16 bytes |
| Uuid.UuidInjective | loxone.js:820-840 | two buffers whose first 16 bytes differ render to different keys |
| Uuid.UuidOfPrefix | loxone.js:827-832 | only the first 16 bytes of the buffer contribute to the identifier |
| Uuid.KnownVector | loxone.js:826-838 | the bytes `04030201 0605 0807 0910111213141516` render as `01020304-0506-0708-0910111213141516` |
| Registry.SetValue | loxone.js:683-688 | an existing entry gets the new value and keeps its name and type, every other entry is unchanged, and a missing key changes nothing |
| Registry.ApplyAllShape | loxone.js:677-689 | applying updates never adds or removes keys and never changes a name or a type |
| Registry.ApplyAllValue | loxone.js:677-689 | after the updates, each entry holds the value of the last update naming it, or its old value when none does |
| Registry.ApplyAllMissing | loxone.js:686-688 | updates that name no key of the registry leave it unchanged |
| Registry.ApplyAllSnoc | loxone.js:677-689 | one more record applied is one more `SetValue` on the table so far |
| Registry.ApplyAllConcat | loxone.js:677-689 | applying two batches one after the other is applying their concatenation |
| ValueStates.Process | loxone.js:667-690 | a length that is not a multiple of 24 changes nothing; a null registry throws a TypeError exactly when there is at least one record; a non-null registry keeps its shape |
| ValueStates.RecordAt | loxone.js:677-681 | record `k` takes its key from bytes [24k, 24k+16) and its value from bytes [24k+16, 24k+24) |
| ValueStates.ProcessValue | loxone.js:677-689 | a well-formed table leaves each entry's name and type alone and gives it the value of the last record naming it |
| ValueStates.MissingKeysSkipped | loxone.js:683-688 | records naming unknown keys do not prevent the records after them from being applied |
| ValueStates.ProcessLoaded | loxone.js:672-689 | with a registry loaded, a well-formed table applies all its records in order, without error |
| ValueStates.RecordsConcat | loxone.js:677-681 | the records of two concatenated tables are the records of the first followed by those of the second |
| ValueStates.RecordsOfEncode | loxone.js:662-663 | decoding a table built from identifier and value bytes gives back one update per record, in order |
| ValueStates.RecordOfEvent | loxone.js:677-685 | a single 24-byte record yields exactly one update: its identifier's key and its 8 value bytes |
| TextStates.Padding | loxone.js:797-800 | the padding is below 4, brings the length to a multiple of 4, and is zero exactly when the length already is one |
| TextStates.PaddingExamples | loxone.js:797-800 | a text of length 5 gets 3 padding bytes, lengths 4 and 0 get none, length 7 gets 1 |
| TextStates.Advance | loxone.js:803 | the pointer moves by at least 36 bytes and by a multiple of 4 |
| TextStates.ReadRecord | loxone.js:786-803 | the record read succeeds exactly when at least 36 bytes remain; it then yields the identifier's key, the clamped text and the pointer advance of the specification |
| TextStates.ScanStep | loxone.js:784-803 | reading one more record at the pointer extends the records scanned so far by that record and moves to the next pointer |
| TextStates.ScanShort | loxone.js:791-795 | a remainder shorter than 36 bytes throws a RangeError after the earlier records have been applied |
| TextStates.ScanEnd | loxone.js:784-789 | reaching the end of the buffer ends the table with every record applied and no error |
| TextStates.ScanNull | loxone.js:804 | with a null registry, the first complete record throws a TypeError |
| TextStates.Process | loxone.js:777-811 | the registry keeps its shape; an empty buffer changes nothing; with a null registry, a non-empty buffer throws a RangeError when shorter than 36 bytes and a TypeError otherwise |
| TextStates.EncodeEvent | loxone.js:773 | an encoded record is 36 header bytes, the text, then its padding |
| TextStates.ReadEvent | loxone.js:791-803 | reading an encoded record gives back its identifier and text, and the pointer advance is exactly the record's length |
| TextStates.RecordsOfEncode | loxone.js:784-803 | encoded records followed by any tail are read back in order, followed by what the tail yields |
| TextStates.EncodeRoundTrip | loxone.js:784-803 | a table of encoded records is read back record by record, without error, and yields the records' updates |
| TextStates.RawsKeyed | loxone.js:791 | the records read back carry the keys the identifiers render to |
| TextStates.ShortRemainder | loxone.js:791-795 | a table whose complete records are followed by 1-35 stray bytes applies every complete record, then throws a RangeError |
| TextStates.ClampedText | loxone.js:796 | a declared length reaching past the end of the buffer takes the remaining bytes as text, and the scan ends there without error |
| TextStates.ProcessLoaded | loxone.js:777-811 | with a registry loaded, an encoded table applies all its records' texts in order, without error |
| EntryLoop.IterationsClosedForm | loxone.js:711-724 | the loop reads min(N, ceil((len - start) / 24)) entries, and none when it starts at or past the end |
| EntryLoop.IterationsBounds | loxone.js:711-724 | at most N entries are read, each starting inside the buffer; when fewer than N are read, the next would start past the end |
| DaytimerStates.PrintEventTableDaytimerStates | loxone.js:699-725 | the decoder method returns what `Decode` specifies: the header, then the entries, or a RangeError for a read past the end |
| DaytimerStates.ReadEntries | loxone.js:710-724 | the loop with its counter `j` reads exactly the entries `Entries` specifies, or throws where it does |
| DaytimerStates.EntriesClosedForm | loxone.js:711-723 | the loop succeeds exactly when every 24-byte window it reaches lies inside the buffer; entry `m` is decoded from bytes [i + 24m, i + 24m + 24) |
| DaytimerStates.DecodeClosedForm | loxone.js:699-725 | decoding succeeds exactly when the 28-byte header is present and the last window reached is complete; it then holds min(N, ceil((len - 28) / 24)) entries |
| DaytimerStates.DecodeEncodedEntry | loxone.js:716-721 | an entry written as four 32-bit little-endian fields and a double decodes back to itself |
| DaytimerStates.EntriesOfEncoding | loxone.js:711-723 | encoded entries placed at the loop's start offset are read back, all of them and in order |
| DaytimerStates.EncodeRoundTrip | loxone.js:699-725 | a table built from an identifier, a default value and entries decodes to that identifier, value, count and entries |
| WeatherStates.PrintEventTableWeatherStates | loxone.js:734-767 | the decoder method returns what `Decode` specifies: identifier, `lastUpdate`, count and the entries read, or a RangeError |
| WeatherStates.ReadEntries | loxone.js:745-766 | the loop reads 68-byte windows every 24 bytes from offset 28, exactly as `Entries` specifies |
| WeatherStates.EntriesClosedForm | loxone.js:746-765 | the loop succeeds exactly when the last 68-byte window it reaches lies inside the buffer; entry `m` comes from bytes [i + 24m, i + 24m + 68) |
| WeatherStates.DecodeClosedForm | loxone.js:734-767 | decoding succeeds exactly when the 24-byte header is present and the last window reached is complete; it then holds min(N, ceil((len - 28) / 24)) entries |
| WeatherStates.DesignLayoutMisread | loxone.js:746-752 | a table laid out as 24 header bytes plus N 68-byte entries throws when N = 1; for N >= 2 it decodes N entries, each from an offset other than the one the layout puts it at |
| Structure.DeviceName | loxone.js:943 | the device name starts with the prefix |
| Structure.ParseConfigStuff | loxone.js:936-995 | the method with the source's loops and recursion builds exactly the table `ParseStuff` specifies |
| Structure.ParseStates | loxone.js:950-987 | the loop over one control's states builds what `States` specifies |
| Structure.ParseElements | loxone.js:955-970 | the `forEach` over an array state builds what `Elements` specifies |
| Structure.ElementsKeys | loxone.js:956-970 | an array state adds exactly its listed identifiers as keys |
| Structure.StatesKeys | loxone.js:950-987 | a control's states add exactly the identifiers they reference |
| Structure.ItemKeys | loxone.js:940-992 | one control adds its own key, its states' identifiers and its sub-controls' keys |
| Structure.ParseKeys | loxone.js:936-995 | the flattened table has exactly the keys of the controls, of their states and of their nested sub-controls |
| Structure.ElementsFlattened | loxone.js:956-970 | array-state entries keep the table flattened: value null, name under the prefix, the forced type when one is given |
| Structure.StatesFlattened | loxone.js:950-987 | state entries keep the table flattened in the same sense |
| Structure.ItemFlattened | loxone.js:940-992 | one control's entries keep the table flattened; sub-control keys are exempt from the forced type, since the recursive call forces none |
| Structure.ParseFlattened | loxone.js:936-995 | every entry of a parsed collection has a null value and a name starting with the prefix; with a forced type, every key outside the sub-controls has that type |
| Structure.StatesEntry | loxone.js:949-987 | without a forced type, a key the states reference gets a null value and the name of its last reference, and is `_state_` exactly when it was absent before the states and is referenced once, `_primarystate_` otherwise; every other key keeps its entry |
| Structure.StateEntryName | loxone.js:955-986 | the name comes from the last state referencing the key: `name::state` for a single identifier, `name::state[idx]` for an array, `idx` the last index holding the key |
| Structure.ItemOwnEntry | loxone.js:943-948 | a control's own entry, when no state or sub-control reuses its key, has its device name, the forced type or else its own type, and a null value |
| Structure.StatesAsWrites | loxone.js:952-987 | the states loop is the sequence of its writes, array elements in index order |
| Structure.WriteRefsEntry | loxone.js:957-985 | after a sequence of writes, a written key holds the last write's name, a null value, and the forced type or else the primary type exactly when it was present before or written more than once; an unwritten key keeps its entry |
| Structure.SampleNames | loxone.js:943 | a control named `Light` of type `Switch` is named `Light (Switch)`; a sub-control without a type is named `Light (Switch) / Sub ()` |
| Structure.SampleStates | loxone.js:955-985 | a state referencing the control's own identifier makes it `_primarystate_` named `::active`, and element 1 of an array state is named `::pos[1]` |
| Structure.SampleSubControls | loxone.js:989-992 | sub-controls are flattened under `deviceName / ` without a forced type; a fresh state identifier gets `_state_` |
| Structure.SampleFlattening | loxone.js:936-995 | the whole sample control flattens to its four entries, with later writes overriding earlier ones |
| Structure.BuildRegistry | loxone.js:888-920 | saving succeeds exactly when the structure has a `weatherServer`, otherwise a TypeError; the fake key `__` never remains |
| Structure.FakeKeys | loxone.js:900-917 | flattening the fake item yields the fake key plus the keys of its states |
| Structure.RegistryKeys | loxone.js:888-920 | the registry's keys are those of the five collections and of the weather and global states, less `__` |
| Structure.RegistryFresh | loxone.js:888-920 | every entry of a freshly saved registry has a null value |
| Structure.FromGroups | loxone.js:892-917 | every key not written by the weather or global states holds the entry the merged collections gave it |
| Structure.GroupKinds | loxone.js:893-897 | rooms, categories and autopilot rules carry their forced types unless a later collection, a sub-control or a later state overrides them |
| Handshake.SearchFinds | loxone.js:476 | the left-to-right regular-expression search succeeds exactly when the pattern matches, ignoring ASCII case, at some offset |
| Handshake.GetKeyReply | loxone.js:440-455 | binary frames and frames without `LL.control` are ignored, non-JSON text throws, and the listener resolves exactly on code `'200'` with control `jdev/sys/getkey`, and then with `LL.value`; it never rejects |
| Handshake.AuthReply | loxone.js:470-488 | the authentication listener resolves with no value, or rejects with `Authentication failure` |
| Handshake.VersionReply | loxone.js:508-525 | the version listener rejects only with `Failed to get LoxoneAPPversion timestamp` |
| Handshake.AuthSettles | loxone.js:476-487 | a text control settles the listener exactly when it contains `authenticate/` in any ASCII case; it then resolves exactly on code `'200'`, and never throws |
| Handshake.AuthEcho | loxone.js:476-491 | the echo of `authenticate/<hash>` resolves on code `'200'` and rejects otherwise |
| Handshake.VersionEcho | loxone.js:514-528 | the echo of `jdev/sps/LoxAPPversion3`, in any letter case, resolves with `LL.value` on code `'200'` and rejects otherwise |
| Client.GetMessageType | loxone.js:646-655 | a type is returned exactly for an 8-byte buffer starting with `0x03`, and it is the second byte |
| Client.Step | loxone.js:595-639 | a header stores its type; text and unannounced binary frames leave the registry and clear the slot; an error leaves the slot set and comes only from one of the four table types; a value or text body takes the registry and the error of that table's decoder, a daytimer or weather body the error of its decoder, and a body under any other code leaves the registry and clears the slot |
| Client.UuidToHuman | loxone.js:1002-1011 | a known key gives its entry's name; an unknown key or a null registry gives the key itself |
| Client.CollectStep | loxone.js:352-364 | visiting one more key adds its choice exactly when its type is listed, and each key's choice appears once |
| Client.CollectedAll | loxone.js:350-366 | once every key is visited, the choices' keys are exactly the listed keys |
| Client.Loxone.constructor | loxone.js:68-73 | a new client has a null registry and no pending message type |
| Client.Loxone.ProcessResponse | loxone.js:595-639 | the client's fields and the escaping error after a frame are those `Step` specifies |
| Client.Loxone.SetEntryValue | loxone.js:683-688 | with a registry, the entry's value is set through `SetValue`; a null registry throws a TypeError and stays null |
| Client.Loxone.ProcessEventTableValueStates | loxone.js:667-690 | the in-place loop leaves the registry and the error that `ValueStates.Process` specifies |
| Client.Loxone.ApplyValueRecord | loxone.js:679-688 | one pass of the value loop applies the record at offset `i` to the records applied so far, or throws a TypeError on a null registry |
| Client.Loxone.ProcessEventTableTextStates | loxone.js:777-811 | the in-place pointer loop leaves the registry and the error that `TextStates.Process` specifies |
| Client.Loxone.ApplyTextRecord | loxone.js:785-809 | one pass of the text loop either ends the table as `TextStates.Process` specifies (truncated record or null registry) or extends the records read and applied by one and moves the pointer forward |
| Client.Loxone.SaveServerConfig | loxone.js:888-920 | the registry becomes `BuildRegistry`'s table; without a weather server the TypeError escapes and the registry is unchanged |
| Client.Loxone.GetControls | loxone.js:350-366 | the choices are exactly the entries whose type is not state, room, category or autopilot, each once, with its name, value and key; a null registry gives none |

## Left out

- The websocket lifecycle: `init` opening the connection and the reconnect timer, keepalives, `send`, `close`, and `ws.onerror`. These are I/O and timers.
- `getServerConfig`: the HTTP download and its `JSON.parse`. The structure file arrives as an already-parsed `Structure.Config`, and a missing collection is modelled as empty.
- The HMAC-SHA1 of the credentials in `authenticate`. It is a foreign cryptographic call, so the echoed hash is an arbitrary string.
- `JSON.parse` of text frames. A reply listener receives a `Handshake.Message` that is already classified.
- The registration and removal of listeners on the socket. Each `Reply` says only whether the listener settles.
- IEEE-754 doubles (`readDoubleLE`). They are kept as their raw 8 bytes, and the registry stores those bytes.
- The text table stores the raw text bytes, with no UTF-8 decoding.
- Console output: `console.log`, `error`, `chalk` colouring, `printMessageHeader`, and the timestamps from `now()`.
  - The colouring around names is treated as the identity.
  - The `default` branch of `processResponse` changes only the slot.
- The interactive console: `initConsole`, `startConsole`, `listControls`, `sendCommand`, `queryStatus`, `downloadIcon` and `onGetIcon`. These are user I/O over the registry.
- The `Buffer.isBuffer` argument checks. Every modelled decoder receives a byte buffer by its type.
- Client.Loxone.GetControls: the order of the choices and their display strings are not modelled.
  - The order is JavaScript's property enumeration order.
  - The display string is the name plus the coloured value. A choice holds the name and the value separately.
- JavaScript's enumeration order for structure-file keys: each JSON object is a sequence of its members, and integer-like keys, which JavaScript enumerates first, are not moved to the front.
