# Mesen save states: a Dafny model of `SaveStateManager`

This project models the save-state manager of the Mesen NES emulator
(`Core/SaveStateManager.cpp`). It covers:

- the selected save slot and how it rotates;
- the binary snapshot format: the "MST" magic, the writer version, the format
  version, the ROM identity (mapper ids, SHA-1 hash, ROM name) and the
  console payload that follows;
- the loader's decision ladder: bad magic, newer writer, formats below 5,
  format 5 with and without a hash check, and the identity block of
  format 6 and later;
- the identity check that may reload the matching ROM before the payload
  is replayed;
- the file and slot wrappers, with their Pause/Resume bracket, debugger
  events and messages;
- the "recent game" bundle: a screenshot, a snapshot and a three-line
  ROM descriptor.

Modules:

- `Bytes`: bytes, little-endian integers, C strings, line splitting and
  decimal printing.
- `Slots`: slot rotation.
- `Events`: every call the manager makes to the console, the message
  manager, the movie manager and the debugger, recorded as an event.
- `Snapshot`: the stream format and the loader's decisions, as functions
  over byte strings.
- `Paths`: slot file names and recent-game names.
- `Streams`: input and output stream objects with a cursor.
- `RecentGame`: the bundle and how it is resumed, as functions.
- `Manager`: the stateful side. It has the classes `Console`, `FileSystem`
  and `SaveStateManager`, and the functions `FileLoad` and `OpenedFileLoad`
  that specify the file loads. How each method of `SaveStateManager` is
  specified:
  - `LoadFromStream`, `ApplyHeader` and the stream readers are proved equal
    to the `Snapshot` functions (`StreamLoad`, `ResolveAndReplay`,
    `DecodeHeader` and the decoders it calls).
  - `LoadRecentGame` and `ResumeAfterRomLoad` are proved equal to the
    `RecentGame` functions `ResumeGame` and `AfterRomLoad`.
  - `LoadFile`, `LoadOpened`, `LoadSlot` and `LoadCurrentSlot` are proved
    equal to `Manager.FileLoad` and `Manager.OpenedFileLoad`.
  - `SaveToStream`, `SaveFile`, `SaveSlot`, `SaveCurrentSlot`,
    `SaveRecentGame`, `MoveToNextSlot`, `MoveToPreviousSlot` and `StateInfo`
    state their new state directly, in terms of `EncodeState`, `Bundle`,
    `NextSlot` and `PreviousSlot`.
  The properties are proved about these functions.

Each effect is appended to a ghost log, `Console.log`. Effects include
messages, Pause/Resume, `LoadROM` calls, movie stops, payload replays and
debugger events. The contracts compare that log with the effects the
specification functions compute.

## The lenient identity path

`LoadState(istream&, bool)` (`Core/SaveStateManager.cpp:155-170`) keeps a
state whose hash differs from the loaded game's, without reloading the ROM,
only when all of these hold:

- `AllowMismatchingSaveState` is set;
- a game is loaded (its hash is non-empty);
- the stored mapper id and sub-mapper id equal the loaded game's.

`hashCheckRequired` plays no part there. `Snapshot.NeedsRomReload` states
this condition. One consequence is proved in
`Snapshot.OldFormatsAlwaysReload`: states of format 6 or 7 store mapper ids
of -1, so a mismatched one always asks for its ROM.

## Model

| member | source | states |
|---|---|---|
| Slots.PreviousSlot | Core/SaveStateManager.cpp:43 | defines the previous slot: MaxIndex from 1, the unsigned wrap to 0xFFFFFFFF from 0, otherwise one lower |
| Snapshot.EncodeState | Core/SaveStateManager.cpp:57-77 | defines the bytes a state is written as: magic, writer version, format version, identity block, machine payload |
| Snapshot.EncodeIdentity | Core/SaveStateManager.cpp:64-74 | defines the identity block: u16 mapper id, u8 sub-mapper id, the hash, the name length cast to 32 bits, the name |
| Snapshot.DecodeHeader | Core/SaveStateManager.cpp:111-113 | the magic check; the unread rest is always a suffix of the input |
| Snapshot.DecodeVersions | Core/SaveStateManager.cpp:114-153 | the writer-version check and the format ladder; the unread rest is always a suffix of the input |
| Snapshot.DecodeIdentity | Core/SaveStateManager.cpp:134-143 | the mapper ids of format 8 on (-1 before), then the hash and name; the unread rest is a suffix of the input, and a failure leaves nothing unread |
| Snapshot.DecodeHashAndName | Core/SaveStateManager.cpp:145-153 | the hash, name length and name reads, which never fail; the unread rest is a suffix of the input |
| Snapshot.NeedsRomReload | Core/SaveStateManager.cpp:157-160 | defines when LoadROM is called: the hashes differ and not (mismatches allowed, a game loaded, both mapper ids equal) |
| Snapshot.ResolveAndReplay | Core/SaveStateManager.cpp:155-182 | defines what follows a decoded header: the error message, the ROM lookup and its missing-ROM failure, or the movie stop and replay |
| Snapshot.StreamLoad | Core/SaveStateManager.cpp:109-183 | defines a stream load as the header decode followed by ResolveAndReplay |
| Paths.StateFilePath | Core/SaveStateManager.cpp:18-20 | defines a slot's path: folder, base name, `_`, the slot number, `.mst` |
| Paths.RecentGamePath | Core/SaveStateManager.cpp:221-223 | defines the archive path: recent-games folder, base name, `.rgd` |
| RecentGame.RomInfoText | Core/SaveStateManager.cpp:233-236 | defines the descriptor: ROM name, ROM path and patch path, each followed by a newline |
| RecentGame.ReadRomInfo | Core/SaveStateManager.cpp:251-254 | defines the three `getline` calls on the descriptor |
| RecentGame.RecentGameEnabled | Core/SaveStateManager.cpp:220 | defines when a recent game is written: not console mode, game selection screen enabled, not an NSF |
| RecentGame.ResumeGame | Core/SaveStateManager.cpp:242-267 | defines the effects of resuming a bundle: Pause, the ROM load by path and patch, AfterRomLoad, Resume |
| RecentGame.AfterRomLoad | Core/SaveStateManager.cpp:257-265 | defines what follows the ROM load: a stream load without hash check unless reset, nothing, or the console stop |
| Manager.FileLoad | Core/SaveStateManager.cpp:185-206 | defines a file load: the empty-slot message for a missing file, otherwise OpenedFileLoad of its stream load |
| Manager.OpenedFileLoad | Core/SaveStateManager.cpp:190-200 | defines an opened file's load: Pause, the stream load, StateLoaded when a debugger exists, Resume |
| Slots.NextSlot | Core/SaveStateManager.cpp:35-39 | the next slot is always between 1 and MaxIndex, from any current value |
| Slots.NextSlotStep | Core/SaveStateManager.cpp:35-39 | from a valid slot, next is one higher, and from the last slot it wraps to 1 |
| Slots.PreviousSlotInRange | Core/SaveStateManager.cpp:41-45 | previous keeps a valid slot valid; from 1 it goes to MaxIndex, otherwise one lower |
| Slots.NextPreviousInverse | Core/SaveStateManager.cpp:35-45 | previous undoes next and next undoes previous, on every valid slot |
| Slots.NextSlotTimesFormula | Core/SaveStateManager.cpp:35-39 | k moves forward from slot i land on (i - 1 + k) mod MaxIndex + 1 |
| Slots.NextSlotCycle | Core/SaveStateManager.cpp:35-39 | MaxIndex moves forward return to the starting slot |
| Manager.SaveStateManager.constructor | Core/SaveStateManager.cpp:14 | the selected slot starts at 1 and is valid |
| Manager.SaveStateManager.MoveToNextSlot | Core/SaveStateManager.cpp:35-39 | the slot advances as NextSlot says and stays valid; the slot-selected message names the new slot |
| Manager.SaveStateManager.MoveToPreviousSlot | Core/SaveStateManager.cpp:41-45 | the slot goes back as PreviousSlot says and stays valid; the slot-selected message names the new slot |
| Bytes.LittleEndianRoundTrip | Core/SaveStateManager.cpp:61-73 | an integer written as `width` little-endian bytes reads back as itself |
| Bytes.U32Bytes | Core/SaveStateManager.cpp:61-62 | a `uint32_t` field is 4 bytes that read back as the value |
| Bytes.U16Bytes | Core/SaveStateManager.cpp:65 | the mapper id field is 2 bytes that read back as the value |
| Bytes.CString | Core/SaveStateManager.cpp:145-146 | the hash read through `char hash[41]` is the longest NUL-free prefix of the 40 bytes read |
| Bytes.SplitLineOfTerminated | Core/SaveStateManager.cpp:252-254 | `getline` on a newline-terminated line returns the line and leaves the rest |
| Bytes.DigitsRoundTrip | Core/SaveStateManager.cpp:19 | the decimal digits `std::to_string` prints denote the number |
| Bytes.IntToStringInjective | Core/SaveStateManager.cpp:19 | distinct slot numbers print differently |
| Manager.SaveStateManager.SaveToStream | Core/SaveStateManager.cpp:57-77 | the stream gains exactly EncodeState(version, format, loaded game, machine payload) |
| Manager.SaveStateManager.WriteIdentity | Core/SaveStateManager.cpp:64-74 | the stream gains the mapper id, the sub-mapper id, the hash, the name length cast to 32 bits, and the name |
| Snapshot.DecodeEncodedHeader | Core/SaveStateManager.cpp:57-171 | a format-8+ header written by SaveState, from a writer no newer than the reader, decodes to its versions and identity, and the rest is the payload |
| Snapshot.DecodeEncodedIdentity | Core/SaveStateManager.cpp:134-153 | the identity block written for a game reads back as that game's identity, and the rest is the payload |
| Snapshot.SaveLoadRoundTrip | Core/SaveStateManager.cpp:109-183 | loading a state this writer produced succeeds exactly when no ROM reload is needed or the ROM is found; on success the last effects replay exactly the payload with the format version; with the same game loaded, only the replay happens |
| Snapshot.BadMagicRejected | Core/SaveStateManager.cpp:111-113 | a stream not starting with "MST" fails as an invalid file, shows that message and does nothing else |
| Snapshot.NewerVersionRejected | Core/SaveStateManager.cpp:116-120 | a writer version above the running one fails with the newer-version message and nothing else |
| Snapshot.FormatBelowFiveRejected | Core/SaveStateManager.cpp:122-125 | formats below 5 fail as incompatible |
| Snapshot.FormatFive | Core/SaveStateManager.cpp:126-132 | format 5 fails exactly when a hash check is required; otherwise it has no identity and the payload starts at byte 11 |
| Snapshot.IdentityLayout | Core/SaveStateManager.cpp:133-153 | from format 6, the mapper ids are at bytes 11-13 (format 8 on; -1 before) and the hash and name follow them; the header fails only when a format 8 stream ends inside the mapper ids, and then as `Truncated` with nothing unread |
| Snapshot.HashAndNameLayout | Core/SaveStateManager.cpp:145-153 | the hash is the first 40 bytes read as a C string, the name length the next 4, the name what follows; a stream that ends early gives a shorter hash, a length of the bytes read so far (0 when none) and a name padded with NUL bytes to that length, with nothing unread |
| Snapshot.EmptyIdentityStillLoads | Core/SaveStateManager.cpp:145-179 | a format 6 stream that ends right after its format field loads with no game loaded: the empty hash matches, the movie stops and the empty rest is replayed |
| Snapshot.IdentityCheck | Core/SaveStateManager.cpp:155-170 | LoadROM is called exactly when the hashes differ and the lenient path does not apply; a failed lookup fails with the stored ROM name and the missing-ROM message; the load succeeds exactly when no reload is needed or the ROM is found |
| Snapshot.OldFormatsAlwaysReload | Core/SaveStateManager.cpp:134-160 | a format 6 or 7 state whose hash differs from the loaded game's always asks LoadROM for its ROM |
| Snapshot.ReplayOnlyOnSuccess | Core/SaveStateManager.cpp:173-179 | the movie stop and the payload replay happen exactly when the load succeeds, as its last two effects, with the unread stream and the format; no failure path touches the machine or the loaded game; the stream load never pauses or resumes |
| Manager.ReadHeader | Core/SaveStateManager.cpp:111-153 | reading the header field by field gives the same result and cursor as DecodeHeader on the unread bytes |
| Manager.ReadVersions | Core/SaveStateManager.cpp:114-143 | reading the versions and the identity gives the same result and cursor as DecodeVersions |
| Manager.ReadIdentity | Core/SaveStateManager.cpp:134-143 | reading the mapper ids and then the hash and name gives the same result and cursor as DecodeIdentity |
| Manager.ReadHashAndName | Core/SaveStateManager.cpp:145-153 | reading the hash, the name length and the name, each of them possibly short, gives the same identity and cursor as DecodeHashAndName |
| Manager.SaveStateManager.ApplyHeader | Core/SaveStateManager.cpp:116-182 | the messages, the ROM reload, the movie stop and the replay that follow a decoded header are exactly those of ResolveAndReplay |
| Manager.SaveStateManager.LoadFromStream | Core/SaveStateManager.cpp:109-183 | the result, the effects, the game loaded afterwards and the unread input are those of StreamLoad |
| Manager.OpenedBracketing | Core/SaveStateManager.cpp:190-200 | an opened file's load is paused first and resumed last, with no Pause or Resume between; StateLoaded is raised exactly when a debugger exists |
| Manager.FileLoadBracketing | Core/SaveStateManager.cpp:185-206 | a file that cannot be opened shows the empty-slot message, fails, and does nothing else; an opened one is bracketed by a single Pause and Resume; its result is the stream load's |
| Manager.SaveStateManager.LoadFile | Core/SaveStateManager.cpp:185-206 | the result, the effects and the game loaded afterwards are those of FileLoad |
| Manager.SaveStateManager.LoadOpened | Core/SaveStateManager.cpp:190-200 | an opened file runs the stream load between Pause and Resume, then the debugger event |
| Manager.SaveStateManager.LoadSlot | Core/SaveStateManager.cpp:208-216 | a slot load is a file load of the slot's path without a hash check, followed by the loaded message only on success |
| Manager.SaveStateManager.LoadCurrentSlot | Core/SaveStateManager.cpp:52-55 | loads the selected slot |
| Manager.SaveStateManager.SaveFile | Core/SaveStateManager.cpp:79-97 | a file that cannot be opened fails and nothing changes; otherwise the file holds exactly the encoded state, and the effects are Pause, StateSaved when a debugger exists, and Resume |
| Manager.SaveStateManager.SaveSlot | Core/SaveStateManager.cpp:99-107 | saves to the slot's path; the saved message follows only a successful save when requested |
| Manager.SaveStateManager.SaveCurrentSlot | Core/SaveStateManager.cpp:47-50 | saves the selected slot, with its message |
| Manager.SaveStateManager.StateInfo | Core/SaveStateManager.cpp:23-33 | the slot file's modification time, or 0 when the file does not exist |
| Paths.StateFilePathInjective | Core/SaveStateManager.cpp:16-21 | within a folder, a slot file path determines both the ROM base name and the slot number |
| Paths.StateAndRecentPathsDiffer | Core/SaveStateManager.cpp:16-21 | a slot file never has the name of a recent-game archive |
| Manager.SaveStateManager.SaveRecentGame | Core/SaveStateManager.cpp:218-240 | outside console mode, with the game selection screen enabled and for a non-NSF game, the archive `<base>.rgd` holds exactly the screenshot, the encoded state and the three-line descriptor; otherwise nothing is written |
| RecentGame.RomInfoRoundTrip | Core/SaveStateManager.cpp:251-254 | the descriptor reads back the ROM name, path and patch path it was written with, when none holds a newline |
| RecentGame.AfterRomLoadEffects | Core/SaveStateManager.cpp:257-265 | after the ROM load there is no Pause or Resume; the console is stopped exactly when the load threw; a replay happens only after a successful load without reset |
| RecentGame.ResumeBracketed | Core/SaveStateManager.cpp:256-266 | resuming a bundle pauses first and loads the ROM by path and patch, resumes last, has no Pause or Resume between, and stops the console exactly when the ROM load throws |
| RecentGame.ResumeReplaysOnlyAfterLoad | Core/SaveStateManager.cpp:258-262 | the bundled state is replayed only after a successful ROM load and when the game is not reset |
| RecentGame.SaveResumeRoundTrip | Core/SaveStateManager.cpp:218-266 | resuming a bundle SaveRecentGame wrote loads the recorded ROM path and patch; if that brings back the same game and there is no reset, exactly the saved payload is replayed with the writer's format |
| Manager.SaveStateManager.LoadRecentGame | Core/SaveStateManager.cpp:242-267 | the effects and the game loaded afterwards are those of ResumeGame on the archive's entries; a missing archive or entry reads as empty |
| Manager.SaveStateManager.ReadRomInfoStream | Core/SaveStateManager.cpp:251-254 | the three `getline` calls give the three fields of ReadRomInfo |
| Manager.SaveStateManager.ResumeAfterRomLoad | Core/SaveStateManager.cpp:257-265 | what follows the ROM load is exactly AfterRomLoad: the stream load without a hash check, nothing, or the console stop |
| Streams.InputStream.GetLine | Core/SaveStateManager.cpp:252-254 | `getline` returns the bytes before the first newline and consumes that newline |
| Streams.InputStream.Read | Core/SaveStateManager.cpp:112 | a full read returns the next n bytes and advances the cursor; a short read fails and leaves nothing unread |
| Streams.InputStream.ReadSome | Core/SaveStateManager.cpp:146 | a read into an initialised buffer returns the next n bytes, or all that is left, and advances past them |

## Left out

- I/O is modelled, not performed. Files are a map from path to bytes. Paths an `ofstream` cannot open are a set. Zip archives are a map from entry name to bytes. The zip container format, PNG encoding and the `ZipWriter::Save` step are not modelled.
- `FolderUtilities` is not part of this model. `GetFilename(RomName, false)`, the two folders and `GetFileModificationTime` are parameters. `CombinePath` puts one `/` between folder and file.
- `Console::LoadROM(romName, hash)` is not modelled either. It is a parameter `findRom` that returns the game it loaded, or nothing.
- `Console::LoadROM(romPath, patchPath)` is a parameter `openRom` with three outcomes: loaded, not loaded, or an exception. An exception leaves the loaded game unchanged.
- `Console::LoadState` and `Console::SaveState` keep the machine payload opaque. The load consumes the rest of the stream, and the save appends the machine bytes.
- `Manager.SaveStateManager.LoadFromStream` does not model an exception thrown inside the payload replay. In `LoadRecentGame` such an exception would also stop the console.
- `Truncated`: the magic, the two version fields and the format 8 mapper ids are read into uninitialised variables (`Core/SaveStateManager.cpp:111-112`, `:114-122`, `:137-140`). When the stream ends inside one of them, the source compares whatever that memory holds. The model instead fails with `Truncated`, shows no message and leaves nothing unread.
- The hash, the name length and the name are modelled as the source reads them, because their buffers start at zero (`:145`, `:148`, `:151`). A stream that ends among them still decodes: the hash is the bytes read as a C string; the name length is the bytes read so far (0 when none); the name is padded with NUL bytes to that length. The identity check and the replay then run as usual (`Snapshot.HashAndNameLayout`, `Snapshot.EmptyIdentityStillLoads`).
- Allocation failure for a huge name length (`vector<char>(nameLength)`, `:151`) is not modelled. The model builds the NUL-padded name of the stated length, as the source does when the allocation succeeds.
- Host byte order: integers are written and read little-endian.
- Concurrency: `_lastIndex` is an `atomic` in the code. Here it is a plain field, because no concurrent caller is modelled.
- Message texts are not modelled. Each message is an event carrying its key and argument.
- `SaveState()` with no arguments is modelled as saving with its message shown. This assumes the header declares `displayMessage` with a default of `true`; the header is not part of this model.
- `MaxIndex` and `FileFormatVersion` are constants declared in the header. They are fields of `Manager.SaveStateManager`. `MaxIndex` is assumed to be at least 1.
- `LoadRecentGame` reads the ROM name on the descriptor's first line and never uses it; the model does the same.
- `Bytes.IntToString` prints decimal digits with a leading minus sign for negative numbers, as `std::to_string` does. Locale effects are not modelled.
