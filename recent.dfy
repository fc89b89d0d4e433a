/**
 * The "recent game" bundle (Core/SaveStateManager.cpp, `SaveRecentGame` and
 * `LoadRecentGame`): an archive of three named entries.  The zip container
 * itself is not modelled; an archive is its map from entry name to bytes.
 */
module RecentGame {
  import opened Wrappers
  import opened Bytes
  import opened Events
  import opened Snapshot

  const ScreenshotEntry: string := "Screenshot.png"
  const StateEntry: string := "Savestate.mst"
  const RomInfoEntry: string := "RomInfo.txt"

  type Archive = map<string, Bytes>

  /** What `Console::LoadROM(romPath, patchPath)` does: load a game, refuse, or throw. */
  datatype RomLoad = Loaded(info: MapperInfo) | NotLoaded | Threw

  /** `romName`, `romPath` and `patchPath`, each followed by `std::endl`. */
  function RomInfoText(romName: Bytes, romPath: Bytes, patchPath: Bytes): Bytes
  {
    romName + [Newline] + romPath + [Newline] + patchPath + [Newline]
  }

  /** Three `std::getline` calls on the descriptor. */
  function ReadRomInfo(text: Bytes): (Bytes, Bytes, Bytes)
  {
    var (romName, r1) := SplitLine(text);
    var (romPath, r2) := SplitLine(r1);
    var (patchPath, _) := SplitLine(r2);
    (romName, romPath, patchPath)
  }

  /** The descriptor reads back the three names it was written with, in order, when none holds a newline. */
  lemma RomInfoRoundTrip(romName: Bytes, romPath: Bytes, patchPath: Bytes)
    requires Newline !in romName && Newline !in romPath && Newline !in patchPath
    ensures ReadRomInfo(RomInfoText(romName, romPath, patchPath)) == (romName, romPath, patchPath)
  {
    var r2 := patchPath + [Newline] + [];
    var r1 := romPath + [Newline] + r2;
    assert RomInfoText(romName, romPath, patchPath) == romName + [Newline] + r1;
    SplitLineOfTerminated(romName, r1);
    SplitLineOfTerminated(romPath, r2);
    SplitLineOfTerminated(patchPath, []);
  }

  /** The archive `SaveRecentGame` writes. */
  function Bundle(screenshot: Bytes, state: Bytes, romInfo: Bytes): Archive
  {
    map[ScreenshotEntry := screenshot, StateEntry := state, RomInfoEntry := romInfo]
  }

  /** `ZipReader::GetStream`: a missing entry reads as an empty stream. */
  function Entry(archive: Archive, name: string): Bytes
  {
    if name in archive then archive[name] else []
  }

  /** `SaveRecentGame` writes nothing in console mode, without the game selection screen, or for an NSF file. */
  predicate RecentGameEnabled(consoleMode: bool, disableGameSelectionScreen: bool, info: MapperInfo)
  {
    !consoleMode && !disableGameSelectionScreen && !info.isNsf
  }

  /** Effects of `LoadRecentGame` and the game loaded at the end. */
  datatype ResumeOutcome = ResumeOutcome(effects: seq<Event>, info: MapperInfo)

  /**
   * `LoadRecentGame(filename, resetGame)` on the archive's entries: the ROM is
   * loaded by path and patch with the console paused; the bundled state is
   * replayed, without a hash check, only if that load succeeded and
   * `resetGame` is false; a throwing load stops the console; the console is
   * resumed in every case.  (The ROM name on the descriptor's first line is
   * read and not used.)
   */
  function ResumeGame(archive: Archive, env: LoadEnv, openRom: (Bytes, Bytes) -> RomLoad, resetGame: bool): ResumeOutcome
  {
    var (_, romPath, patchPath) := ReadRomInfo(Entry(archive, RomInfoEntry));
    var inner := AfterRomLoad(openRom(romPath, patchPath), Entry(archive, StateEntry), env, resetGame);
    ResumeOutcome([Pause, LoadRomByPath(romPath, patchPath)] + inner.effects + [Resume], inner.info)
  }

  /** `ResumeGame` once the descriptor's path and patch are known. */
  lemma ResumeGameOf(archive: Archive, env: LoadEnv, openRom: (Bytes, Bytes) -> RomLoad, resetGame: bool,
                     romPath: Bytes, patchPath: Bytes)
    requires ReadRomInfo(Entry(archive, RomInfoEntry)).1 == romPath
    requires ReadRomInfo(Entry(archive, RomInfoEntry)).2 == patchPath
    ensures var inner := AfterRomLoad(openRom(romPath, patchPath), Entry(archive, StateEntry), env, resetGame);
      ResumeGame(archive, env, openRom, resetGame)
        == ResumeOutcome([Pause] + [LoadRomByPath(romPath, patchPath)] + inner.effects + [Resume], inner.info)
  {
    assert [Pause, LoadRomByPath(romPath, patchPath)] == [Pause] + [LoadRomByPath(romPath, patchPath)];
  }

  /** What follows the ROM load inside the Pause/Resume bracket. */
  function AfterRomLoad(load: RomLoad, state: Bytes, env: LoadEnv, resetGame: bool): ResumeOutcome
  {
    match load
    case Loaded(info) =>
      if resetGame then ResumeOutcome([], info)
      else
        var o := StreamLoad(state, env.(current := info), false);
        ResumeOutcome(o.effects, o.info)
    case NotLoaded => ResumeOutcome([], env.current)
    case Threw => ResumeOutcome([StopConsole], env.current)
  }

  /**
   * Inside the bracket: no Pause or Resume; the console is stopped exactly
   * when the load threw; a payload is replayed only after a successful load
   * without reset.
   */
  lemma AfterRomLoadEffects(load: RomLoad, state: Bytes, env: LoadEnv, resetGame: bool)
    ensures var m := AfterRomLoad(load, state, env, resetGame).effects;
      && (forall e | e in m :: !IsBracket(e))
      && (StopConsole in m <==> load.Threw?)
      && ((exists e | e in m :: e.ReplayState?) ==> load.Loaded? && !resetGame)
  {
    if load.Loaded? && !resetGame {
      var env' := env.(current := load.info);
      var d := DecodeHeader(state, env'.running, false);
      var o := ResolveAndReplay(d, env');
      assert AfterRomLoad(load, state, env, resetGame).effects == o.effects;
      var prefix := ResolveSplit(d, env');
      forall e | e in o.effects
        ensures !IsBracket(e) && !e.StopConsole?
      {
        if o.error.None? {
          assert e in prefix || e in Replay(d.rest, d.result.value.formatVersion);
        }
      }
    }
  }

  /**
   * Pause and Resume are balanced on every path: the first effect pauses,
   * the last resumes, and neither occurs in between, even when the ROM load
   * throws (and then the console is stopped).
   */
  lemma ResumeBracketed(archive: Archive, env: LoadEnv, openRom: (Bytes, Bytes) -> RomLoad, resetGame: bool)
    ensures var (_, romPath, patchPath) := ReadRomInfo(Entry(archive, RomInfoEntry));
      var e := ResumeGame(archive, env, openRom, resetGame).effects;
      && |e| >= 3 && e[..2] == [Pause, LoadRomByPath(romPath, patchPath)] && e[|e| - 1] == Resume
      && (forall i | 0 < i < |e| - 1 :: !IsBracket(e[i]))
      && (StopConsole in e <==> openRom(romPath, patchPath).Threw?)
  {
    var (_, romPath, patchPath) := ReadRomInfo(Entry(archive, RomInfoEntry));
    var load := openRom(romPath, patchPath);
    var state := Entry(archive, StateEntry);
    AfterRomLoadEffects(load, state, env, resetGame);
    ResumeGameOf(archive, env, openRom, resetGame, romPath, patchPath);
    Enclosed(LoadRomByPath(romPath, patchPath), AfterRomLoad(load, state, env, resetGame).effects);
  }

  /** Pause, one more effect, effects without a bracket, then Resume: the bracket is balanced. */
  lemma Enclosed(first: Event, m: seq<Event>)
    requires first.LoadRomByPath?
    requires forall e | e in m :: !IsBracket(e)
    ensures var e := [Pause] + [first] + m + [Resume];
      && |e| >= 3 && e[..2] == [Pause, first] && e[|e| - 1] == Resume
      && (forall i | 0 < i < |e| - 1 :: !IsBracket(e[i]))
      && (StopConsole in e <==> StopConsole in m)
  {
    var e := [Pause] + [first] + m + [Resume];
    assert forall i | 2 <= i < |e| - 1 :: e[i] == m[i - 2];
    assert forall i | 2 <= i < |e| - 1 :: e[i] in m;
  }

  /**
   * The bundled state is replayed only after a successful ROM load and when
   * the game is not being reset.
   */
  lemma ResumeReplaysOnlyAfterLoad(archive: Archive, env: LoadEnv, openRom: (Bytes, Bytes) -> RomLoad, resetGame: bool)
    requires exists e | e in ResumeGame(archive, env, openRom, resetGame).effects :: e.ReplayState?
    ensures !resetGame
    ensures var (_, romPath, patchPath) := ReadRomInfo(Entry(archive, RomInfoEntry));
      openRom(romPath, patchPath).Loaded?
  {
    var (_, romPath, patchPath) := ReadRomInfo(Entry(archive, RomInfoEntry));
    var load := openRom(romPath, patchPath);
    var state := Entry(archive, StateEntry);
    var m := AfterRomLoad(load, state, env, resetGame).effects;
    AfterRomLoadEffects(load, state, env, resetGame);
    var e := ResumeGame(archive, env, openRom, resetGame).effects;
    assert e == [Pause, LoadRomByPath(romPath, patchPath)] + m + [Resume];
    var x :| x in e && x.ReplayState?;
    assert x in m;
  }

  /**
   * Resuming a bundle `SaveRecentGame` wrote loads the ROM by the path and
   * patch it recorded; if that load brings back the same game and the game
   * is not reset, the saved payload is replayed with the writer's format.
   */
  lemma SaveResumeRoundTrip(screenshot: Bytes, emuVersion: U32, formatVersion: U32, saved: MapperInfo,
                            payload: Bytes, romName: Bytes, romPath: Bytes, patchPath: Bytes,
                            env: LoadEnv, openRom: (Bytes, Bytes) -> RomLoad, resetGame: bool)
    requires Newline !in romName && Newline !in romPath && Newline !in patchPath
    requires RoundTrips(formatVersion, saved) && emuVersion <= env.running
    ensures var archive := Bundle(screenshot, EncodeState(emuVersion, formatVersion, saved, payload),
                                  RomInfoText(romName, romPath, patchPath));
      var e := ResumeGame(archive, env, openRom, resetGame).effects;
      && e[..2] == [Pause, LoadRomByPath(romPath, patchPath)]
      && (openRom(romPath, patchPath).Loaded? && openRom(romPath, patchPath).info.sha1Hash == saved.sha1Hash
          && !resetGame ==>
            e == [Pause, LoadRomByPath(romPath, patchPath)] + Replay(payload, formatVersion) + [Resume])
  {
    var state := EncodeState(emuVersion, formatVersion, saved, payload);
    var romInfo := RomInfoText(romName, romPath, patchPath);
    var archive := Bundle(screenshot, state, romInfo);
    BundleEntries(screenshot, state, romInfo);
    RomInfoRoundTrip(romName, romPath, patchPath);
    ResumeGameOf(archive, env, openRom, resetGame, romPath, patchPath);
    var load := openRom(romPath, patchPath);
    if load.Loaded? && !resetGame && load.info.sha1Hash == saved.sha1Hash {
      ReplaySavedState(emuVersion, formatVersion, saved, payload, load.info, env);
    }
  }

  /** The bundle's entries read back as written. */
  lemma BundleEntries(screenshot: Bytes, state: Bytes, romInfo: Bytes)
    ensures Entry(Bundle(screenshot, state, romInfo), StateEntry) == state
    ensures Entry(Bundle(screenshot, state, romInfo), RomInfoEntry) == romInfo
  {
  }

  /** After loading the game a state was saved with, the bundled state replays exactly its payload. */
  lemma ReplaySavedState(emuVersion: U32, formatVersion: U32, saved: MapperInfo, payload: Bytes,
                         info: MapperInfo, env: LoadEnv)
    requires RoundTrips(formatVersion, saved) && emuVersion <= env.running && info.sha1Hash == saved.sha1Hash
    ensures AfterRomLoad(Loaded(info), EncodeState(emuVersion, formatVersion, saved, payload), env, false).effects
         == Replay(payload, formatVersion)
  {
    SaveLoadRoundTrip(emuVersion, formatVersion, saved, payload, env.(current := info), false);
  }
}
