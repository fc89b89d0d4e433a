/**
 * The save-state manager itself (Core/SaveStateManager.cpp): the selected
 * slot, the stream writer and reader, the slot-file wrappers and the recent
 * game bundle, run step by step against a console, a file system and the
 * streams they use.  Each method is proved equal to the functions of
 * `Snapshot` and `RecentGame`, about which the properties are proved.
 */
module Manager {
  import opened Wrappers
  import opened Bytes
  import opened Events
  import opened Slots
  import opened Snapshot
  import opened Paths
  import opened Streams
  import opened RecentGame

  /** `EmulationSettings` and the folders `FolderUtilities` names. */
  datatype Settings = Settings(
    version: U32,                        // GetMesenVersion()
    allowMismatchingSaveState: bool,
    consoleMode: bool,
    disableGameSelectionScreen: bool,
    saveStateFolder: Bytes,
    recentGamesFolder: Bytes)

  /** Regrouping a log of five pieces. */
  lemma AppendAssoc<T>(a: seq<T>, b: seq<T>, c: seq<T>, d: seq<T>, e: seq<T>)
    ensures a + b + c + d + e == a + (b + c + d + e)
  {
  }

  /** The debugger event, when a debugger exists. */
  function DebuggerEffects(debuggerAttached: bool, e: DebugEvent): seq<Event>
  {
    if debuggerAttached then [Debugger(e)] else []
  }

  /**
   * The emulated console as the manager sees it: the loaded game, the
   * machine state `Console::SaveState` writes (opaque bytes), the frame a
   * screenshot captures, and what its ROM loader finds.  `log` records every
   * call made to it and to the message, movie and debugger singletons.
   */
  class Console {
    var info: MapperInfo
    var machine: Bytes
    var screen: Bytes
    ghost var log: seq<Event>
    const findRom: (Bytes, Bytes) -> Option<MapperInfo>
    const openRom: (Bytes, Bytes) -> RomLoad
    const debuggerAttached: bool

    constructor (info: MapperInfo, machine: Bytes, screen: Bytes,
                 findRom: (Bytes, Bytes) -> Option<MapperInfo>,
                 openRom: (Bytes, Bytes) -> RomLoad, debuggerAttached: bool)
      ensures this.info == info && this.machine == machine && this.screen == screen
      ensures this.findRom == findRom && this.openRom == openRom
      ensures this.debuggerAttached == debuggerAttached && log == []
    {
      this.info := info;
      this.machine := machine;
      this.screen := screen;
      this.findRom := findRom;
      this.openRom := openRom;
      this.debuggerAttached := debuggerAttached;
      log := [];
    }

    /** A call whose only effect here is that it happened. */
    method Record(e: Event)
      modifies this`log
      ensures log == old(log) + [e]
    {
      log := log + [e];
    }

    /** `Console::LoadROM(romName, hashInfo)` */
    method LoadRomByHash(romName: Bytes, sha1Hash: Bytes) returns (ok: bool)
      modifies this`log, this`info
      ensures log == old(log) + [Event.LoadRomByHash(romName, sha1Hash)]
      ensures ok == findRom(romName, sha1Hash).Some?
      ensures info == if ok then findRom(romName, sha1Hash).value else old(info)
    {
      log := log + [Event.LoadRomByHash(romName, sha1Hash)];
      var found := findRom(romName, sha1Hash);
      ok := found.Some?;
      if ok {
        info := found.value;
      }
    }

    /** `Console::LoadROM(romPath, patchPath)` */
    method LoadRomByPath(romPath: Bytes, patchPath: Bytes) returns (r: RomLoad)
      modifies this`log, this`info
      ensures log == old(log) + [Event.LoadRomByPath(romPath, patchPath)]
      ensures r == openRom(romPath, patchPath)
      ensures info == if r.Loaded? then r.info else old(info)
    {
      log := log + [Event.LoadRomByPath(romPath, patchPath)];
      r := openRom(romPath, patchPath);
      if r.Loaded? {
        info := r.info;
      }
    }

    /** `Console::LoadState(stream, fileFormatVersion)`: consumes the rest of the stream. */
    method LoadState(input: InputStream, formatVersion: U32)
      requires input.Valid()
      modifies this`log, input
      ensures input.Valid() && input.Rest() == []
      ensures log == old(log) + [ReplayState(old(input.Rest()), formatVersion)]
    {
      var payload := input.ReadToEnd();
      log := log + [ReplayState(payload, formatVersion)];
    }

    /** `Console::SaveState(stream)`: appends the machine state. */
    method SaveState(out: OutputStream)
      modifies out
      ensures out.data == old(out.data) + machine
    {
      out.Write(machine);
    }

    /** `VideoDecoder::TakeScreenshot(stream)` */
    method TakeScreenshot(out: OutputStream)
      modifies out
      ensures out.data == old(out.data) + screen
    {
      out.Write(screen);
    }
  }

  /**
   * Plain files by path, zip archives by path, the paths an `ofstream`
   * cannot open, and modification times.
   */
  class FileSystem {
    var files: map<Bytes, Bytes>
    var archives: map<Bytes, Archive>
    const readOnly: set<Bytes>
    const modificationTime: Bytes -> nat

    constructor (files: map<Bytes, Bytes>, archives: map<Bytes, Archive>, readOnly: set<Bytes>,
                 modificationTime: Bytes -> nat)
      ensures this.files == files && this.archives == archives
      ensures this.readOnly == readOnly && this.modificationTime == modificationTime
    {
      this.files := files;
      this.archives := archives;
      this.readOnly := readOnly;
      this.modificationTime := modificationTime;
    }
  }

  /** The result of loading a slot file: success, effects, the game loaded afterwards. */
  datatype FileOutcome = FileOutcome(ok: bool, effects: seq<Event>, info: MapperInfo)

  /**
   * `LoadState(filepath, hashCheckRequired)`: a file that cannot be opened
   * shows "empty" and nothing else; an opened one is decoded between a
   * Pause and a Resume, and raises StateLoaded in the debugger whether or
   * not the decode succeeded.
   */
  function FileLoad(files: map<Bytes, Bytes>, path: Bytes, env: LoadEnv, debuggerAttached: bool,
                    hashCheckRequired: bool): FileOutcome
  {
    if path !in files then FileOutcome(false, [Display(SaveStateEmpty)], env.current)
    else OpenedFileLoad(StreamLoad(files[path], env, hashCheckRequired), debuggerAttached)
  }

  /** An opened file: the stream load between Pause and Resume, then the debugger event. */
  function OpenedFileLoad(o: LoadOutcome, debuggerAttached: bool): FileOutcome
  {
    FileOutcome(o.error.None?, [Pause] + o.effects + DebuggerEffects(debuggerAttached, StateLoaded) + [Resume], o.info)
  }

  lemma OpenedBracketing(d: Decoded, env: LoadEnv, debuggerAttached: bool)
    ensures var o := ResolveAndReplay(d, env);
      var e := OpenedFileLoad(o, debuggerAttached).effects;
      && |e| >= 2 && e[0] == Pause && e[|e| - 1] == Resume
      && (forall i | 0 < i < |e| - 1 :: !IsBracket(e[i]))
      && (Debugger(StateLoaded) in e <==> debuggerAttached)
  {
    var prefix := ResolveSplit(d, env);
    var o := ResolveAndReplay(d, env);
    forall e | e in o.effects
      ensures !IsBracket(e) && !e.Debugger?
    {
      if o.error.None? {
        assert e in prefix || e in Replay(d.rest, d.result.value.formatVersion);
      }
    }
    Bracketed(o.effects, debuggerAttached);
  }

  /** Effects with no bracket and no debugger event, put between Pause and Resume after the debugger event. */
  lemma Bracketed(effects: seq<Event>, debuggerAttached: bool)
    requires forall e | e in effects :: !IsBracket(e) && !e.Debugger?
    ensures var e := [Pause] + effects + DebuggerEffects(debuggerAttached, StateLoaded) + [Resume];
      && |e| >= 2 && e[0] == Pause && e[|e| - 1] == Resume
      && (forall i | 0 < i < |e| - 1 :: !IsBracket(e[i]))
      && (Debugger(StateLoaded) in e <==> debuggerAttached)
  {
    var dbg := DebuggerEffects(debuggerAttached, StateLoaded);
    var e := [Pause] + effects + dbg + [Resume];
    assert forall i | 1 <= i < 1 + |effects| :: e[i] == effects[i - 1];
    assert forall i | 1 + |effects| <= i < |e| - 1 :: e[i] == dbg[i - 1 - |effects|];
    assert Debugger(StateLoaded) !in effects;
    if debuggerAttached {
      assert e[1 + |effects|] == Debugger(StateLoaded);
    }
  }

  /**
   * A missing file never pauses the console; an opened one is paused once,
   * first, and resumed once, last; StateLoaded is raised exactly when a
   * debugger exists and the file opened; the result is the stream's.
   */
  lemma FileLoadBracketing(files: map<Bytes, Bytes>, path: Bytes, env: LoadEnv, debuggerAttached: bool,
                           hashCheckRequired: bool)
    ensures var r := FileLoad(files, path, env, debuggerAttached, hashCheckRequired);
      var e := r.effects;
      && (path !in files ==> !r.ok && e == [Display(SaveStateEmpty)] && r.info == env.current)
      && (path in files ==>
            && r.ok == StreamLoad(files[path], env, hashCheckRequired).error.None?
            && |e| >= 2 && e[0] == Pause && e[|e| - 1] == Resume
            && (forall i | 0 < i < |e| - 1 :: !IsBracket(e[i]))
            && (Debugger(StateLoaded) in e <==> debuggerAttached))
  {
    if path in files {
      OpenedBracketing(DecodeHeader(files[path], env.running, hashCheckRequired), env, debuggerAttached);
    }
  }

  /** The header of `LoadState(istream&, bool)`, read field by field up to the payload. */
  method ReadHeader(input: InputStream, running: U32, hashCheckRequired: bool) returns (r: Result<Header, LoadError>)
    requires input.Valid()
    modifies input
    ensures input.Valid() && Decoded(r, input.Rest()) == DecodeHeader(old(input.Rest()), running, hashCheckRequired)
  {
    var header := input.Read(3);
    if header.None? {
      return Failure(Truncated);
    }
    if header.value != Magic {
      return Failure(InvalidFile);
    }
    r := ReadVersions(input, running, hashCheckRequired);
  }

  /** The writer version, the format version and, by format, the identity. */
  method ReadVersions(input: InputStream, running: U32, hashCheckRequired: bool) returns (r: Result<Header, LoadError>)
    requires input.Valid()
    modifies input
    ensures input.Valid() && Decoded(r, input.Rest()) == DecodeVersions(old(input.Rest()), running, hashCheckRequired)
  {
    ghost var v := input.Rest();
    var emuVersion := input.ReadU32();
    if emuVersion.None? {
      return Failure(Truncated);
    }
    if emuVersion.value > running {
      return Failure(NewerVersion);
    }
    var fileFormatVersion := input.ReadU32();
    if fileFormatVersion.None? {
      return Failure(Truncated);
    }
    var formatVersion := fileFormatVersion.value;
    assert v[4..8] == v[4..][..4];
    assert input.Rest() == v[8..];
    if formatVersion < 5 {
      return Failure(IncompatibleVersion);
    } else if formatVersion == 5 {
      // no identity in format 5
      if hashCheckRequired {
        return Failure(IncompatibleVersion);
      }
      return Success(Header(emuVersion.value, 5, None));
    }
    var id := ReadIdentity(input, formatVersion);
    if id.None? {
      return Failure(Truncated);
    }
    return Success(Header(emuVersion.value, formatVersion, id));
  }

  /** Reads the identity block of a format 6 or later state, field by field. */
  method ReadIdentity(input: InputStream, formatVersion: U32) returns (id: Option<Identity>)
    requires input.Valid()
    modifies input
    ensures input.Valid() && (id, input.Rest()) == DecodeIdentity(old(input.Rest()), formatVersion)
  {
    ghost var s := input.Rest();
    var mapperId: int, subMapperId: int := -1, -1;
    if formatVersion >= 8 {
      var mid := input.ReadU16();
      var sid := input.Read(1);
      if mid.None? || sid.None? {
        return None;
      }
      mapperId, subMapperId := mid.value, sid.value[0];
      assert s[..2] == s[..3][..2] && s[2] == s[..3][2];
      assert input.Rest() == s[3..];
    }
    var hashAndName := ReadHashAndName(input, mapperId, subMapperId);
    id := Some(hashAndName);
  }

  /** The hash, the name length and the name, after the mapper ids; these reads cannot fail. */
  method ReadHashAndName(input: InputStream, mapperId: int, subMapperId: int) returns (id: Identity)
    requires input.Valid()
    modifies input
    ensures input.Valid() && (id, input.Rest()) == DecodeHashAndName(old(input.Rest()), mapperId, subMapperId)
  {
    var rawHash := input.ReadSome(HashLength);
    var rawLength := input.ReadSome(4);
    var nameLength := FromLittleEndian(rawLength);
    var rawName := input.ReadSome(nameLength);
    id := Identity(mapperId, subMapperId, CString(rawHash), rawName + Zeros(nameLength - |rawName|));
  }

  class SaveStateManager {
    var lastIndex: U32
    const maxIndex: U32
    const formatVersion: U32
    const settings: Settings
    const romBase: Bytes -> Bytes      // FolderUtilities::GetFilename(romName, false)
    const console: Console
    const fs: FileSystem

    ghost predicate Valid()
      reads this
    {
      InRange(lastIndex, maxIndex)
    }

    constructor (maxIndex: U32, formatVersion: U32, settings: Settings, romBase: Bytes -> Bytes,
                 console: Console, fs: FileSystem)
      requires maxIndex >= 1
      ensures Valid() && lastIndex == 1
      ensures this.maxIndex == maxIndex && this.formatVersion == formatVersion && this.settings == settings
      ensures this.romBase == romBase && this.console == console && this.fs == fs
    {
      lastIndex := 1;
      this.maxIndex := maxIndex;
      this.formatVersion := formatVersion;
      this.settings := settings;
      this.romBase := romBase;
      this.console := console;
      this.fs := fs;
    }

    /** What a stream load sees of the running emulator. */
    function Env(): LoadEnv
      reads this, console`info
    {
      LoadEnv(settings.version, console.info, settings.allowMismatchingSaveState, console.findRom)
    }

    /** `GetStateFilepath(stateIndex)` */
    function StateFilepath(stateIndex: int): Bytes
      reads this, console`info
    {
      StateFilePath(settings.saveStateFolder, romBase(console.info.romName), stateIndex)
    }

    /** `GetStateInfo(stateIndex)`: the slot file's modification time, 0 when there is none. */
    method StateInfo(stateIndex: int) returns (time: nat)
      ensures time == if StateFilepath(stateIndex) in fs.files
                      then fs.modificationTime(StateFilepath(stateIndex)) else 0
    {
      var path := StateFilepath(stateIndex);
      if path in fs.files {
        time := fs.modificationTime(path);
      } else {
        time := 0;
      }
    }

    /** `MoveToNextSlot()` */
    method MoveToNextSlot()
      requires Valid()
      modifies this`lastIndex, console`log
      ensures Valid() && lastIndex == NextSlot(old(lastIndex), maxIndex)
      ensures console.log == old(console.log) + [Display(SaveStateSlotSelected(lastIndex))]
    {
      lastIndex := NextSlot(lastIndex, maxIndex);
      console.Record(Display(SaveStateSlotSelected(lastIndex)));
    }

    /** `MoveToPreviousSlot()` */
    method MoveToPreviousSlot()
      requires Valid()
      modifies this`lastIndex, console`log
      ensures Valid() && lastIndex == PreviousSlot(old(lastIndex), maxIndex)
      ensures console.log == old(console.log) + [Display(SaveStateSlotSelected(lastIndex))]
    {
      PreviousSlotInRange(lastIndex, maxIndex);
      lastIndex := PreviousSlot(lastIndex, maxIndex);
      console.Record(Display(SaveStateSlotSelected(lastIndex)));
    }

    /** `SaveState(ostream&)` */
    method SaveToStream(out: OutputStream)
      modifies out
      ensures out.data == old(out.data) + EncodeState(settings.version, formatVersion, console.info, console.machine)
    {
      out.Write(Magic);
      out.Write(U32Bytes(settings.version));
      out.Write(U32Bytes(formatVersion));
      WriteIdentity(out, console.info);
      console.SaveState(out);
    }

    /** The mapper, hash and ROM name part of `SaveState(ostream&)`. */
    static method WriteIdentity(out: OutputStream, info: MapperInfo)
      modifies out
      ensures out.data == old(out.data) + EncodeIdentity(info)
    {
      out.Write(U16Bytes(info.mapperId));
      out.Write([info.subMapperId]);
      out.Write(info.sha1Hash);
      var nameLength := |info.romName| % 0x1_0000_0000;
      out.Write(U32Bytes(nameLength));
      out.Write(info.romName);
    }

    /** `SaveState(filepath)`: false, and nothing else, when the file cannot be opened. */
    method SaveFile(path: Bytes) returns (ok: bool)
      modifies fs`files, console`log
      ensures ok == (path !in fs.readOnly)
      ensures fs.files == if ok then old(fs.files)[path := EncodeState(settings.version, formatVersion, console.info, console.machine)]
                          else old(fs.files)
      ensures console.log == old(console.log) +
                (if ok then [Pause] + DebuggerEffects(console.debuggerAttached, StateSaved) + [Resume] else [])
    {
      if path in fs.readOnly {
        return false;
      }
      console.Record(Pause);
      var file := new OutputStream();
      SaveToStream(file);
      ghost var state := EncodeState(settings.version, formatVersion, console.info, console.machine);
      assert file.data == state;
      fs.files := fs.files[path := file.data];
      assert fs.files == old(fs.files)[path := state];
      if console.debuggerAttached {
        console.Record(Debugger(StateSaved));
      }
      console.Record(Resume);
      return true;
    }

    /** `SaveState(stateIndex, displayMessage)` */
    method SaveSlot(stateIndex: int, displayMessage: bool)
      modifies fs`files, console`log
      ensures var path := StateFilepath(stateIndex);
        var saved := path !in fs.readOnly;
        && fs.files == (if saved then old(fs.files)[path := EncodeState(settings.version, formatVersion, console.info, console.machine)]
                        else old(fs.files))
        && console.log == old(console.log) +
             (if saved then [Pause] + DebuggerEffects(console.debuggerAttached, StateSaved) + [Resume] +
                            (if displayMessage then [Display(SaveStateSaved(stateIndex))] else [])
              else [])
    {
      var path := StateFilepath(stateIndex);
      var ok := SaveFile(path);
      if ok && displayMessage {
        console.Record(Display(SaveStateSaved(stateIndex)));
      }
    }

    /** `SaveState()`: the selected slot, with its message. */
    method SaveCurrentSlot()
      modifies fs`files, console`log
      ensures var path := StateFilepath(lastIndex);
        var saved := path !in fs.readOnly;
        && fs.files == (if saved then old(fs.files)[path := EncodeState(settings.version, formatVersion, console.info, console.machine)]
                        else old(fs.files))
        && console.log == old(console.log) +
             (if saved then [Pause] + DebuggerEffects(console.debuggerAttached, StateSaved) + [Resume] +
                            [Display(SaveStateSaved(lastIndex))]
              else [])
    {
      SaveSlot(lastIndex, true);
    }

    /**
     * `LoadState(istream&, hashCheckRequired)`.  The header checks run in
     * `ReadHeader`; what the source does after each of them runs in
     * `ApplyHeader`.
     */
    method LoadFromStream(input: InputStream, hashCheckRequired: bool) returns (ok: bool)
      requires input.Valid()
      modifies input, console`log, console`info
      ensures input.Valid()
      ensures var o := StreamLoad(old(input.Rest()), old(Env()), hashCheckRequired);
        && ok == o.error.None?
        && console.log == old(console.log) + o.effects
        && console.info == o.info
        && input.Rest() == o.rest
    {
      var header := ReadHeader(input, settings.version, hashCheckRequired);
      ok := ApplyHeader(input, header);
    }

    /**
     * The message of the header check that failed, or the identity check,
     * the movie stop and the payload replay.
     */
    method ApplyHeader(input: InputStream, header: Result<Header, LoadError>) returns (ok: bool)
      requires input.Valid()
      modifies input, console`log, console`info
      ensures input.Valid()
      ensures var o := ResolveAndReplay(Decoded(header, old(input.Rest())), old(Env()));
        && ok == o.error.None?
        && console.log == old(console.log) + o.effects
        && console.info == o.info
        && input.Rest() == o.rest
    {
      if header.Failure? {
        match header.error {
          case InvalidFile => console.Record(Display(SaveStateInvalidFile));
          case NewerVersion => console.Record(Display(SaveStateNewerVersion));
          case IncompatibleVersion => console.Record(Display(SaveStateIncompatibleVersion));
          case MissingRom(name) => console.Record(Display(SaveStateMissingRom(name)));
          case Truncated =>
        }
        return false;
      }
      var h := header.value;
      if h.identity.Some? {
        var id := h.identity.value;
        var current := console.info;
        var gameLoaded := current.sha1Hash != [];
        if current.sha1Hash != id.sha1Hash {
          if !settings.allowMismatchingSaveState || !gameLoaded ||
             current.mapperId != id.mapperId || current.subMapperId != id.subMapperId
          {
            var found := console.LoadRomByHash(id.romName, id.sha1Hash);
            if !found {
              console.Record(Display(SaveStateMissingRom(id.romName)));
              return false;
            }
          }
        }
      }
      console.Record(StopMovie);
      console.LoadState(input, h.formatVersion);
      return true;
    }

    /** `LoadState(filepath, hashCheckRequired)` */
    method LoadFile(path: Bytes, hashCheckRequired: bool) returns (ok: bool)
      modifies console`log, console`info
      ensures var r := FileLoad(fs.files, path, old(Env()), console.debuggerAttached, hashCheckRequired);
        ok == r.ok && console.log == old(console.log) + r.effects && console.info == r.info
    {
      if path in fs.files {
        var file := new InputStream(fs.files[path]);
        ok := LoadOpened(file, hashCheckRequired);
      } else {
        console.Record(Display(SaveStateEmpty));
        ok := false;
      }
    }

    /** The part of `LoadState(filepath, hashCheckRequired)` that runs once the file is open. */
    method LoadOpened(file: InputStream, hashCheckRequired: bool) returns (ok: bool)
      requires file.Valid()
      modifies file, console`log, console`info
      ensures var r := OpenedFileLoad(StreamLoad(old(file.Rest()), old(Env()), hashCheckRequired), console.debuggerAttached);
        ok == r.ok && console.log == old(console.log) + r.effects && console.info == r.info
    {
      ghost var effects := StreamLoad(file.Rest(), Env(), hashCheckRequired).effects;
      console.Record(Pause);
      ok := LoadFromStream(file, hashCheckRequired);
      if console.debuggerAttached {
        console.Record(Debugger(StateLoaded));
      }
      console.Record(Resume);
      AppendAssoc(old(console.log), [Pause], effects, DebuggerEffects(console.debuggerAttached, StateLoaded), [Resume]);
    }

    /** `LoadState(stateIndex)`: a slot file, without a hash check, with a message on success. */
    method LoadSlot(stateIndex: int) returns (ok: bool)
      modifies console`log, console`info
      ensures var r := FileLoad(fs.files, old(StateFilepath(stateIndex)), old(Env()), console.debuggerAttached, false);
        && ok == r.ok && console.info == r.info
        && console.log == old(console.log) + r.effects + (if ok then [Display(SaveStateLoaded(stateIndex))] else [])
    {
      var path := StateFilepath(stateIndex);
      ok := LoadFile(path, false);
      if ok {
        console.Record(Display(SaveStateLoaded(stateIndex)));
      }
    }

    /** `LoadState()`: the selected slot. */
    method LoadCurrentSlot() returns (ok: bool)
      modifies console`log, console`info
      ensures var r := FileLoad(fs.files, old(StateFilepath(lastIndex)), old(Env()), console.debuggerAttached, false);
        && ok == r.ok && console.info == r.info
        && console.log == old(console.log) + r.effects + (if ok then [Display(SaveStateLoaded(lastIndex))] else [])
    {
      ok := LoadSlot(lastIndex);
    }

    /** `SaveRecentGame(romName, romPath, patchPath)` */
    method SaveRecentGame(romName: Bytes, romPath: Bytes, patchPath: Bytes)
      modifies fs`archives
      ensures fs.archives ==
        if RecentGameEnabled(settings.consoleMode, settings.disableGameSelectionScreen, console.info) then
          old(fs.archives)[RecentGamePath(settings.recentGamesFolder, romBase(console.info.romName)) :=
            Bundle(console.screen, EncodeState(settings.version, formatVersion, console.info, console.machine),
                   RomInfoText(romName, romPath, patchPath))]
        else old(fs.archives)
    {
      if !settings.consoleMode && !settings.disableGameSelectionScreen && !console.info.isNsf {
        var filename := romBase(console.info.romName) + RgdExtension;
        var path := CombinePath(settings.recentGamesFolder, filename);
        var pngStream := new OutputStream();
        console.TakeScreenshot(pngStream);
        var stateStream := new OutputStream();
        SaveToStream(stateStream);
        var romInfoStream := new OutputStream();
        romInfoStream.Write(romName + [Newline]);
        romInfoStream.Write(romPath + [Newline]);
        romInfoStream.Write(patchPath + [Newline]);
        assert pngStream.data == console.screen;
        assert stateStream.data == EncodeState(settings.version, formatVersion, console.info, console.machine);
        assert romInfoStream.data == RomInfoText(romName, romPath, patchPath);
        fs.archives := fs.archives[path := map[ScreenshotEntry := pngStream.data,
                                               StateEntry := stateStream.data,
                                               RomInfoEntry := romInfoStream.data]];
      }
    }

    /** `LoadRecentGame(filename, resetGame)`; an archive that is missing reads as empty. */
    method LoadRecentGame(filename: Bytes, resetGame: bool)
      modifies console`log, console`info
      ensures var archive := if filename in fs.archives then fs.archives[filename] else map[];
        var r := ResumeGame(archive, old(Env()), console.openRom, resetGame);
        console.log == old(console.log) + r.effects && console.info == r.info
    {
      var archive := if filename in fs.archives then fs.archives[filename] else map[];
      var romInfoStream := new InputStream(Entry(archive, RomInfoEntry));
      var stateStream := new InputStream(Entry(archive, StateEntry));
      var romName, romPath, patchPath := ReadRomInfoStream(romInfoStream);
      ghost var env := Env();
      console.Record(Pause);
      var load := console.LoadRomByPath(romPath, patchPath);
      ghost var inner := AfterRomLoad(load, Entry(archive, StateEntry), env, resetGame);
      ResumeAfterRomLoad(load, stateStream, resetGame, env);
      console.Record(Resume);
      AppendAssoc(old(console.log), [Pause], [Event.LoadRomByPath(romPath, patchPath)], inner.effects, [Resume]);
      ResumeGameOf(archive, env, console.openRom, resetGame, romPath, patchPath);
    }

    /** The three `std::getline` calls of `LoadRecentGame` on the descriptor. */
    static method ReadRomInfoStream(romInfoStream: InputStream) returns (romName: Bytes, romPath: Bytes, patchPath: Bytes)
      requires romInfoStream.Valid()
      modifies romInfoStream
      ensures romInfoStream.Valid()
      ensures (romName, romPath, patchPath) == ReadRomInfo(old(romInfoStream.Rest()))
    {
      romName := romInfoStream.GetLine();
      romPath := romInfoStream.GetLine();
      patchPath := romInfoStream.GetLine();
    }

    /** What `LoadRecentGame` does between the ROM load and the final Resume. */
    method ResumeAfterRomLoad(load: RomLoad, stateStream: InputStream, resetGame: bool, ghost env: LoadEnv)
      requires stateStream.Valid()
      requires Env() == if load.Loaded? then env.(current := load.info) else env
      modifies stateStream, console`log, console`info
      ensures var inner := AfterRomLoad(load, old(stateStream.Rest()), env, resetGame);
        console.log == old(console.log) + inner.effects && console.info == inner.info
    {
      match load {
        case Loaded(_) =>
          if !resetGame {
            var _ := LoadFromStream(stateStream, false);
          }
        case NotLoaded =>
        case Threw =>
          console.Record(StopConsole);
      }
    }
  }
}
