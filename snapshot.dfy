/**
 * The save-state stream format and the decision ladder that reads it back
 * (Core/SaveStateManager.cpp, `SaveState(ostream&)` and
 * `LoadState(istream&, bool)`), as functions over byte strings.  The class
 * `Manager.SaveStateManager` runs the same steps against a stream cursor and
 * is proved equal to these functions.
 */
module Snapshot {
  import opened Wrappers
  import opened Bytes
  import opened Events

  /** "MST" */
  const Magic: Bytes := [0x4D, 0x53, 0x54]

  /** Length of the SHA-1 field the reader consumes: 40 hex digits. */
  const HashLength: nat := 40

  /** The loaded game, as `Console::GetMapperInfo()` describes it. */
  datatype MapperInfo = MapperInfo(
    romName: Bytes,
    mapperId: U16,
    subMapperId: Byte,
    sha1Hash: Bytes,   // empty when no game is loaded
    isNsf: bool)       // `Format == RomFormat::Nsf`

  /**
   * The ROM identity stored in a state of format 6 or later.  The mapper ids
   * are -1 when the format (6 or 7) does not store them.
   */
  datatype Identity = Identity(mapperId: int, subMapperId: int, sha1Hash: Bytes, romName: Bytes)

  datatype Header = Header(emuVersion: U32, formatVersion: U32, identity: Option<Identity>)

  /**
   * Why a load fails.  `Truncated` stands for a stream that ends inside a
   * field the source reads into an uninitialised variable (the magic, the
   * two versions, the mapper ids of format 8 on): the source does not check
   * short reads, and what it does next depends on that memory, so the model
   * stops there.
   */
  datatype LoadError =
    | InvalidFile
    | NewerVersion
    | IncompatibleVersion
    | MissingRom(romName: Bytes)
    | Truncated

  /** A decoded header, or the error, with what is left of the stream. */
  datatype Decoded = Decoded(result: Result<Header, LoadError>, rest: Bytes)

  /** What the running emulator contributes to a load. */
  datatype LoadEnv = LoadEnv(
    running: U32,                                  // EmulationSettings::GetMesenVersion()
    current: MapperInfo,                           // Console::GetMapperInfo()
    allowMismatch: bool,                           // EmulationFlags::AllowMismatchingSaveState
    findRom: (Bytes, Bytes) -> Option<MapperInfo>) // Console::LoadROM(romName, hash): the game it loads

  /** The effects of one stream load, the game loaded afterwards and the unread input. */
  datatype LoadOutcome = LoadOutcome(error: Option<LoadError>, effects: seq<Event>, info: MapperInfo, rest: Bytes)

  /**
   * The bytes `SaveState(ostream&)` writes: magic, writer version, format
   * version, the game's identity, then the console payload.
   */
  function EncodeState(emuVersion: U32, formatVersion: U32, info: MapperInfo, payload: Bytes): Bytes
  {
    Magic + U32Bytes(emuVersion) + U32Bytes(formatVersion) + EncodeIdentity(info) + payload
  }

  /**
   * The identity as written: mapper id, sub-mapper id, the hash as it is
   * (however long), the ROM name behind its length cast to `uint32_t`.
   */
  function EncodeIdentity(info: MapperInfo): Bytes
  {
    U16Bytes(info.mapperId) + [info.subMapperId] + info.sha1Hash
    + U32Bytes(|info.romName| % 0x1_0000_0000) + info.romName
  }

  /** The header fields `LoadState(istream&, bool)` reads, in order, up to the payload. */
  function DecodeHeader(s: Bytes, running: U32, hashCheckRequired: bool): (d: Decoded)
    ensures |d.rest| <= |s| && d.rest == s[|s| - |d.rest|..]
  {
    if |s| < 3 then Decoded(Failure(Truncated), [])
    else if s[..3] != Magic then Decoded(Failure(InvalidFile), s[3..])
    else DecodeVersions(s[3..], running, hashCheckRequired)
  }

  /** The two version fields after the magic, and the format ladder. */
  function DecodeVersions(s: Bytes, running: U32, hashCheckRequired: bool): (d: Decoded)
    ensures |d.rest| <= |s| && d.rest == s[|s| - |d.rest|..]
  {
    if |s| < 4 then Decoded(Failure(Truncated), [])
    else
      var emuVersion := DecodeU32(s[..4]);
      if emuVersion > running then Decoded(Failure(NewerVersion), s[4..])
      else if |s| < 8 then Decoded(Failure(Truncated), [])
      else
        var formatVersion := DecodeU32(s[4..8]);
        var r := s[8..];
        if formatVersion < 5 then Decoded(Failure(IncompatibleVersion), r)
        else if formatVersion == 5 then
          // no identity in format 5
          if hashCheckRequired then Decoded(Failure(IncompatibleVersion), r)
          else Decoded(Success(Header(emuVersion, 5, None)), r)
        else
          match DecodeIdentity(r, formatVersion)
          case (Some(id), rest) => Decoded(Success(Header(emuVersion, formatVersion, Some(id))), rest)
          case (None, rest) => Decoded(Failure(Truncated), rest)
  }

  /** Mapper ids (format 8 on; -1 before), then the hash and the ROM name. */
  function DecodeIdentity(s: Bytes, formatVersion: U32): (r: (Option<Identity>, Bytes))
    ensures |r.1| <= |s| && r.1 == s[|s| - |r.1|..]
    ensures r.0.None? ==> r.1 == []
  {
    if formatVersion < 8 then
      var (id, rest) := DecodeHashAndName(s, -1, -1);
      (Some(id), rest)
    else if |s| < 3 then (None, [])
    else
      var (id, rest) := DecodeHashAndName(s[3..], DecodeU16(s[..2]), s[2] as int);
      (Some(id), rest)
  }

  /**
   * The 40-byte hash read as a C string, the name length, the ROM name.
   * These reads never fail: the hash buffer and the length start at zero
   * and the name buffer is value-initialised, so a stream that ends early
   * leaves a shorter hash, a length of its bytes read so far (0 when none)
   * and a name padded with NUL bytes to that length, and nothing unread.
   */
  function DecodeHashAndName(s: Bytes, mapperId: int, subMapperId: int): (r: (Identity, Bytes))
    ensures |r.1| <= |s| && r.1 == s[|s| - |r.1|..]
  {
    var rawHash := Take(s, HashLength);
    var afterHash := s[|rawHash|..];
    var rawLength := Take(afterHash, 4);
    var nameLength := FromLittleEndian(rawLength);
    var afterLength := afterHash[|rawLength|..];
    var rawName := Take(afterLength, nameLength);
    (Identity(mapperId, subMapperId, CString(rawHash), rawName + Zeros(nameLength - |rawName|)),
     afterLength[|rawName|..])
  }

  /**
   * Whether the stored identity sends the loader to `Console::LoadROM`: the
   * hashes differ and the lenient path (mismatches allowed, a game loaded,
   * both mapper ids equal) does not apply.
   */
  predicate NeedsRomReload(current: MapperInfo, allowMismatch: bool, id: Identity)
  {
    current.sha1Hash != id.sha1Hash &&
    (!allowMismatch || current.sha1Hash == [] ||
     current.mapperId != id.mapperId || current.subMapperId != id.subMapperId)
  }

  /** The message a header error shows; a truncated stream shows none. */
  function ErrorEffects(e: LoadError): seq<Event>
  {
    match e
    case InvalidFile => [Display(SaveStateInvalidFile)]
    case NewerVersion => [Display(SaveStateNewerVersion)]
    case IncompatibleVersion => [Display(SaveStateIncompatibleVersion)]
    case MissingRom(name) => [Display(SaveStateMissingRom(name))]
    case Truncated => []
  }

  /** The replay that ends every successful load. */
  function Replay(payload: Bytes, formatVersion: U32): seq<Event>
  {
    [StopMovie, ReplayState(payload, formatVersion)]
  }

  /** `LoadState(istream&, hashCheckRequired)` on the bytes left in the stream. */
  function StreamLoad(s: Bytes, env: LoadEnv, hashCheckRequired: bool): LoadOutcome
  {
    ResolveAndReplay(DecodeHeader(s, env.running, hashCheckRequired), env)
  }

  /**
   * What follows the header: a failed header shows its message; a stored
   * identity that needs its ROM calls `Console::LoadROM`, and fails with
   * the ROM name if nothing is found; every other path stops the movie and
   * hands the rest of the stream to the console.
   */
  function ResolveAndReplay(d: Decoded, env: LoadEnv): LoadOutcome
  {
    match d.result
    case Failure(e) => LoadOutcome(Some(e), ErrorEffects(e), env.current, d.rest)
    case Success(h) =>
      if h.identity.Some? && NeedsRomReload(env.current, env.allowMismatch, h.identity.value) then
        var id := h.identity.value;
        var load := LoadRomByHash(id.romName, id.sha1Hash);
        match env.findRom(id.romName, id.sha1Hash)
        case None =>
          LoadOutcome(Some(MissingRom(id.romName)), [load] + ErrorEffects(MissingRom(id.romName)), env.current, d.rest)
        case Some(info) =>
          LoadOutcome(None, [load] + Replay(d.rest, h.formatVersion), info, [])
      else
        LoadOutcome(None, Replay(d.rest, h.formatVersion), env.current, [])
  }

  // ---------------------------------------------------------------------
  // Round trip

  /** The identity a writer with this game stores. */
  function IdentityOf(info: MapperInfo): Identity
  {
    Identity(info.mapperId, info.subMapperId, info.sha1Hash, info.romName)
  }

  /** What the round trip needs: a 40-character hash, a name whose length fits, a format that stores the mapper. */
  predicate RoundTrips(formatVersion: U32, info: MapperInfo)
  {
    formatVersion >= 8 && |info.sha1Hash| == HashLength && 0 !in info.sha1Hash &&
    |info.romName| < 0x1_0000_0000
  }

  /**
   * Decoding what the writer produced recovers the versions, the mapper ids,
   * the hash and the ROM name, and leaves exactly the payload unread.
   */
  lemma DecodeEncodedHeader(emuVersion: U32, formatVersion: U32, info: MapperInfo, payload: Bytes,
                            running: U32, hashCheckRequired: bool)
    requires RoundTrips(formatVersion, info) && emuVersion <= running
    ensures DecodeHeader(EncodeState(emuVersion, formatVersion, info, payload), running, hashCheckRequired)
         == Decoded(Success(Header(emuVersion, formatVersion, Some(IdentityOf(info)))), payload)
  {
    var ident := EncodeIdentity(info) + payload;
    var versions := U32Bytes(emuVersion) + U32Bytes(formatVersion) + ident;
    assert EncodeState(emuVersion, formatVersion, info, payload) == Magic + versions;
    DecodeAfterMagic(versions, running, hashCheckRequired);
    DecodeVersionFields(emuVersion, formatVersion, ident, running, hashCheckRequired);
    DecodeEncodedIdentity(formatVersion, info, payload);
  }

  /** Three byte strings joined in either grouping. */
  lemma Regroup(a: Bytes, b: Bytes, c: Bytes)
    ensures a + b + c == a + (b + c)
  {
  }

  /** After a correct magic the decoder goes on with the version fields. */
  lemma DecodeAfterMagic(v: Bytes, running: U32, hashCheckRequired: bool)
    ensures DecodeHeader(Magic + v, running, hashCheckRequired) == DecodeVersions(v, running, hashCheckRequired)
  {
    assert (Magic + v)[..3] == Magic && (Magic + v)[3..] == v;
  }

  /** Two version fields the running emulator accepts, of a format that stores an identity. */
  lemma DecodeVersionFields(emuVersion: U32, formatVersion: U32, ident: Bytes, running: U32, hashCheckRequired: bool)
    requires emuVersion <= running && formatVersion >= 6
    ensures var d := DecodeVersions(U32Bytes(emuVersion) + U32Bytes(formatVersion) + ident, running, hashCheckRequired);
      var (id, rest) := DecodeIdentity(ident, formatVersion);
      d == if id.Some? then Decoded(Success(Header(emuVersion, formatVersion, id)), rest)
           else Decoded(Failure(Truncated), rest)
  {
    var v := U32Bytes(emuVersion) + U32Bytes(formatVersion) + ident;
    assert v[..4] == U32Bytes(emuVersion) && v[4..8] == U32Bytes(formatVersion) && v[8..] == ident;
    DecodeU32Bytes(emuVersion);
    DecodeU32Bytes(formatVersion);
  }

  lemma DecodeEncodedIdentity(formatVersion: U32, info: MapperInfo, payload: Bytes)
    requires RoundTrips(formatVersion, info)
    ensures DecodeIdentity(EncodeIdentity(info) + payload, formatVersion) == (Some(IdentityOf(info)), payload)
  {
    var hashAndName := info.sha1Hash + U32Bytes(|info.romName|) + info.romName + payload;
    var ident := U16Bytes(info.mapperId) + [info.subMapperId] + hashAndName;
    assert ident == EncodeIdentity(info) + payload;
    assert ident[..2] == U16Bytes(info.mapperId) && ident[2] == info.subMapperId && ident[3..] == hashAndName;
    DecodeU16Bytes(info.mapperId);
    DecodeEncodedHashAndName(info, payload);
    assert DecodeHashAndName(ident[3..], DecodeU16(ident[..2]), ident[2] as int) == (IdentityOf(info), payload);
  }

  lemma DecodeEncodedHashAndName(info: MapperInfo, payload: Bytes)
    requires |info.sha1Hash| == HashLength && 0 !in info.sha1Hash && |info.romName| < 0x1_0000_0000
    ensures DecodeHashAndName(info.sha1Hash + U32Bytes(|info.romName|) + info.romName + payload,
                              info.mapperId, info.subMapperId)
         == (IdentityOf(info), payload)
  {
    var nameLength := |info.romName|;
    var tail := info.romName + payload;
    var r := info.sha1Hash + U32Bytes(nameLength) + tail;
    assert r == info.sha1Hash + U32Bytes(|info.romName|) + info.romName + payload;
    assert r[..HashLength] == info.sha1Hash;
    CStringOfNulFree(info.sha1Hash);
    DecodeU32Bytes(nameLength);
    assert r[HashLength..HashLength + 4] == U32Bytes(nameLength);
    assert r[HashLength + 4..] == tail;
    assert tail[..nameLength] == info.romName && tail[nameLength..] == payload;
    HashAndNameLayout(r, info.mapperId, info.subMapperId);
  }

  /**
   * Where the hash and the name are found: the hash in the first 40 bytes,
   * the name length in the next 4, the name after it.  A stream that ends
   * early still yields an identity, with nothing left unread: a shorter
   * hash, a length of the bytes read so far (0 when none) and a name padded
   * with NUL bytes to that length.
   */
  lemma HashAndNameLayout(s: Bytes, mapperId: int, subMapperId: int)
    ensures var (id, rest) := DecodeHashAndName(s, mapperId, subMapperId);
      && (|s| < HashLength ==> id == Identity(mapperId, subMapperId, CString(s), []) && rest == [])
      && (HashLength <= |s| < HashLength + 4 ==>
            && id == Identity(mapperId, subMapperId, CString(s[..HashLength]), Zeros(FromLittleEndian(s[HashLength..])))
            && rest == [])
      && (|s| >= HashLength + 4 ==>
            var n := DecodeU32(s[HashLength..HashLength + 4]);
            var name := s[HashLength + 4..];
            && id.mapperId == mapperId && id.subMapperId == subMapperId
            && id.sha1Hash == CString(s[..HashLength])
            && (|name| >= n ==> id.romName == name[..n] && rest == name[n..])
            && (|name| < n ==> id.romName == name + Zeros(n - |name|) && rest == []))
  {
    if |s| < HashLength {
      assert Take(s, HashLength) == s;
    } else if |s| < HashLength + 4 {
      assert s[|Take(s, HashLength)|..] == s[HashLength..];
    } else {
      var afterHash := s[HashLength..];
      assert afterHash[..4] == s[HashLength..HashLength + 4];
      assert afterHash[4..] == s[HashLength + 4..];
    }
  }

  /**
   * Loading a state this writer produced: it succeeds exactly when the
   * identity check accepts the stored game or the ROM it names is found, and
   * a successful load hands exactly the payload and the format version to
   * the console.  With the same game loaded nothing but the replay happens.
   */
  lemma SaveLoadRoundTrip(emuVersion: U32, formatVersion: U32, info: MapperInfo, payload: Bytes,
                          env: LoadEnv, hashCheckRequired: bool)
    requires RoundTrips(formatVersion, info) && emuVersion <= env.running
    ensures var o := StreamLoad(EncodeState(emuVersion, formatVersion, info, payload), env, hashCheckRequired);
      && (o.error.None? <==>
            !NeedsRomReload(env.current, env.allowMismatch, IdentityOf(info)) ||
            env.findRom(info.romName, info.sha1Hash).Some?)
      && (o.error.None? ==> |o.effects| >= 2 && o.effects[|o.effects| - 2..] == Replay(payload, formatVersion) && o.rest == [])
      && (env.current.sha1Hash == info.sha1Hash ==>
            o == LoadOutcome(None, Replay(payload, formatVersion), env.current, []))
  {
    DecodeEncodedHeader(emuVersion, formatVersion, info, payload, env.running, hashCheckRequired);
    var d := Decoded(Success(Header(emuVersion, formatVersion, Some(IdentityOf(info)))), payload);
    assert StreamLoad(EncodeState(emuVersion, formatVersion, info, payload), env, hashCheckRequired)
        == ResolveAndReplay(d, env);
  }

  // ---------------------------------------------------------------------
  // Early rejections and the version ladder

  /** A stream that does not start with "MST" fails as an invalid file after reading 3 bytes, and nothing else happens. */
  lemma BadMagicRejected(s: Bytes, env: LoadEnv, hashCheckRequired: bool)
    requires |s| >= 3 && s[..3] != Magic
    ensures StreamLoad(s, env, hashCheckRequired)
         == LoadOutcome(Some(InvalidFile), [Display(SaveStateInvalidFile)], env.current, s[3..])
  {
  }

  /** A state written by a newer emulator fails after the version field, and nothing else happens. */
  lemma NewerVersionRejected(s: Bytes, env: LoadEnv, hashCheckRequired: bool)
    requires |s| >= 7 && s[..3] == Magic && DecodeU32(s[3..7]) > env.running
    ensures StreamLoad(s, env, hashCheckRequired)
         == LoadOutcome(Some(NewerVersion), [Display(SaveStateNewerVersion)], env.current, s[7..])
  {
    assert s[3..][..4] == s[3..7];
    assert s[3..][4..] == s[7..];
  }

  /** A stream whose magic and writer version pass: the format field is readable. */
  predicate PassesPreamble(s: Bytes, running: U32)
  {
    |s| >= 11 && s[..3] == Magic && DecodeU32(s[3..7]) <= running
  }

  function FormatOf(s: Bytes): U32
    requires |s| >= 11
  {
    DecodeU32(s[7..11])
  }

  lemma PreambleSlices(s: Bytes)
    requires |s| >= 11
    ensures s[3..][..4] == s[3..7] && s[3..][4..8] == s[7..11] && s[3..][8..] == s[11..]
  {
  }

  /** Formats below 5 are refused whatever follows. */
  lemma FormatBelowFiveRejected(s: Bytes, running: U32, hashCheckRequired: bool)
    requires PassesPreamble(s, running) && FormatOf(s) < 5
    ensures DecodeHeader(s, running, hashCheckRequired) == Decoded(Failure(IncompatibleVersion), s[11..])
  {
    PreambleSlices(s);
  }

  /**
   * Format 5 fails exactly when a hash check is required; otherwise no
   * identity is read and the payload starts right after byte 11.
   */
  lemma FormatFive(s: Bytes, running: U32, hashCheckRequired: bool)
    requires PassesPreamble(s, running) && FormatOf(s) == 5
    ensures DecodeHeader(s, running, hashCheckRequired)
         == if hashCheckRequired then Decoded(Failure(IncompatibleVersion), s[11..])
            else Decoded(Success(Header(DecodeU32(s[3..7]), 5, None)), s[11..])
  {
    PreambleSlices(s);
  }

  /**
   * From format 6 on: the mapper ids are a u16 and a u8 at bytes 11-13 from
   * format 8, and -1 before; the hash and the name follow them, as
   * `HashAndNameLayout` places them, and the payload is what is left.  Only
   * a format 8 stream that ends inside the mapper ids fails.
   */
  lemma IdentityLayout(s: Bytes, running: U32, hashCheckRequired: bool)
    requires PassesPreamble(s, running) && FormatOf(s) >= 6
    ensures var fmt := FormatOf(s);
      var at := if fmt >= 8 then 14 else 11;
      var d := DecodeHeader(s, running, hashCheckRequired);
      && (d.result.Success? <==> |s| >= at)
      && (d.result.Failure? ==> d.result.error == Truncated && d.rest == [])
      && (d.result.Success? ==>
            var (id, rest) := DecodeHashAndName(s[at..],
                                                if fmt >= 8 then DecodeU16(s[11..13]) else -1,
                                                if fmt >= 8 then s[13] as int else -1);
            d.result.value == Header(DecodeU32(s[3..7]), fmt, Some(id)) && d.rest == rest)
  {
    PreambleSlices(s);
    var r := s[11..];
    if FormatOf(s) >= 8 && |r| >= 3 {
      assert r[..2] == s[11..13] && r[2] == s[13] && r[3..] == s[14..];
    }
  }

  /**
   * A stream that ends right after the format field of a format 6 state
   * still loads: the hash read is empty, so with no game loaded the hashes
   * agree, and the movie is stopped and the console handed the empty rest.
   */
  lemma EmptyIdentityStillLoads(emuVersion: U32, env: LoadEnv, hashCheckRequired: bool)
    requires emuVersion <= env.running && env.current.sha1Hash == []
    ensures StreamLoad(Magic + U32Bytes(emuVersion) + U32Bytes(6), env, hashCheckRequired)
         == LoadOutcome(None, Replay([], 6), env.current, [])
  {
    var versions := U32Bytes(emuVersion) + U32Bytes(6);
    DecodeAfterMagic(versions, env.running, hashCheckRequired);
    assert versions == U32Bytes(emuVersion) + U32Bytes(6) + [];
    DecodeVersionFields(emuVersion, 6, [], env.running, hashCheckRequired);
    HashAndNameLayout([], -1, -1);
    var id := Identity(-1, -1, [], []);
    assert DecodeIdentity([], 6) == (Some(id), []);
    var d := Decoded(Success(Header(emuVersion, 6, Some(id))), []);
    Regroup(Magic, U32Bytes(emuVersion), U32Bytes(6));
    assert StreamLoad(Magic + versions, env, hashCheckRequired) == ResolveAndReplay(d, env);
    assert !NeedsRomReload(env.current, env.allowMismatch, id);
  }

  // ---------------------------------------------------------------------
  // Identity check and replay

  /**
   * Once the header decodes with an identity, `Console::LoadROM` is called
   * exactly when the hashes differ and the lenient path does not apply; if
   * it finds nothing the load fails with the stored ROM name, otherwise the
   * payload is replayed.  Equal hashes never reload.
   */
  lemma IdentityCheck(d: Decoded, env: LoadEnv)
    requires d.result.Success? && d.result.value.identity.Some?
    ensures var id := d.result.value.identity.value;
      var o := ResolveAndReplay(d, env);
      var reload := env.current.sha1Hash != id.sha1Hash &&
                    !(env.allowMismatch && env.current.sha1Hash != [] &&
                      env.current.mapperId == id.mapperId && env.current.subMapperId == id.subMapperId);
      && (LoadRomByHash(id.romName, id.sha1Hash) in o.effects <==> reload)
      && (forall e | e in o.effects :: e.LoadRomByHash? ==> reload)
      && (reload && env.findRom(id.romName, id.sha1Hash).None? ==>
            o.error == Some(MissingRom(id.romName)) &&
            o.effects == [LoadRomByHash(id.romName, id.sha1Hash), Display(SaveStateMissingRom(id.romName))])
      && (o.error.None? <==> !reload || env.findRom(id.romName, id.sha1Hash).Some?)
  {
  }

  /**
   * The lenient path needs the mapper ids of format 8: a state of format 6
   * or 7 whose hash differs from the loaded game's always asks for its ROM.
   */
  lemma OldFormatsAlwaysReload(s: Bytes, env: LoadEnv, hashCheckRequired: bool)
    requires var d := DecodeHeader(s, env.running, hashCheckRequired);
      && d.result.Success? && d.result.value.formatVersion < 8 && d.result.value.identity.Some?
      && d.result.value.identity.value.sha1Hash != env.current.sha1Hash
    ensures var d := DecodeHeader(s, env.running, hashCheckRequired);
      var id := d.result.value.identity.value;
      LoadRomByHash(id.romName, id.sha1Hash) in ResolveAndReplay(d, env).effects
  {
    var d := DecodeHeader(s, env.running, hashCheckRequired);
    assert |s| >= 3 && s[..3] == Magic;
    var v := s[3..];
    assert |v| >= 8;
    var fmt := DecodeU32(v[4..8]);
    assert fmt == d.result.value.formatVersion;
    var id := DecodeIdentity(v[8..], fmt).0.value;
    assert id.mapperId == -1;
  }

  /**
   * The movie is stopped and the payload replayed exactly when the load
   * succeeds, as its last two effects, with the unread stream and the format
   * version; no failing path reaches either.  Pause and Resume belong to the
   * callers and never occur here.
   */
  lemma ReplayOnlyOnSuccess(d: Decoded, env: LoadEnv)
    ensures var o := ResolveAndReplay(d, env);
      && (o.error.None? <==> StopMovie in o.effects)
      && (o.error.None? <==> exists e | e in o.effects :: e.ReplayState?)
      && (o.error.None? ==>
            |o.effects| >= 2 && d.result.Success? &&
            o.effects[|o.effects| - 2..] == Replay(d.rest, d.result.value.formatVersion) &&
            forall i | 0 <= i < |o.effects| - 2 :: !o.effects[i].StopMovie? && !o.effects[i].ReplayState?)
      && (o.error.Some? ==> o.info == env.current && forall e | e in o.effects :: !e.StopMovie? && !e.ReplayState?)
      && (forall e | e in o.effects :: !IsBracket(e))
  {
    var prefix := ResolveSplit(d, env);
    var o := ResolveAndReplay(d, env);
    if o.error.None? {
      var tail := Replay(d.rest, d.result.value.formatVersion);
      assert o.effects[|prefix|] == StopMovie && o.effects[|prefix| + 1] == tail[1];
      forall i | 0 <= i < |o.effects| - 2
        ensures !o.effects[i].StopMovie? && !o.effects[i].ReplayState?
      {
        assert o.effects[i] == prefix[i];
      }
      forall e | e in o.effects
        ensures !IsBracket(e)
      {
        assert e in prefix || e in tail;
      }
    }
  }

  /** A message or a ROM lookup: never a replay and never a Pause or Resume. */
  predicate MessageOrRomLookup(e: Event)
  {
    e.Display? || e.LoadRomByHash?
  }

  /** The effects of `ResolveAndReplay`: quiet ones, then the replay when the load succeeds. */
  lemma ResolveSplit(d: Decoded, env: LoadEnv) returns (prefix: seq<Event>)
    ensures forall e | e in prefix :: MessageOrRomLookup(e)
    ensures var o := ResolveAndReplay(d, env);
      && (o.error.None? ==>
            d.result.Success? && o.effects == prefix + Replay(d.rest, d.result.value.formatVersion))
      && (o.error.Some? ==> o.info == env.current && o.effects == prefix)
  {
    var o := ResolveAndReplay(d, env);
    if d.result.Failure? {
      prefix := ErrorEffects(d.result.error);
    } else {
      var h := d.result.value;
      if h.identity.Some? && NeedsRomReload(env.current, env.allowMismatch, h.identity.value) {
        var id := h.identity.value;
        if env.findRom(id.romName, id.sha1Hash).None? {
          prefix := [LoadRomByHash(id.romName, id.sha1Hash), Display(SaveStateMissingRom(id.romName))];
        } else {
          prefix := [LoadRomByHash(id.romName, id.sha1Hash)];
        }
      } else {
        prefix := [];
      }
    }
  }
}
