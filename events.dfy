/**
 * What the save-state manager does to the world besides returning a value:
 * messages shown to the user, calls into the console, the movie player and
 * the debugger.  The manager's collaborators are not modelled; their calls
 * are recorded, in order, as events.
 */
module Events {
  import opened Bytes

  /** Message keys passed to `MessageManager::DisplayMessage("SaveStates", ...)`. */
  datatype Notice =
    | SaveStateSlotSelected(slot: int)
    | SaveStateSaved(slot: int)
    | SaveStateLoaded(slot: int)
    | SaveStateNewerVersion
    | SaveStateIncompatibleVersion
    | SaveStateMissingRom(romName: Bytes)
    | SaveStateInvalidFile
    | SaveStateEmpty

  /** Events raised through `Debugger::ProcessEvent`. */
  datatype DebugEvent = StateSaved | StateLoaded

  datatype Event =
    | Display(notice: Notice)                          // MessageManager::DisplayMessage
    | Pause                                            // Console::Pause
    | Resume                                           // Console::Resume
    | Debugger(event: DebugEvent)                      // Debugger::ProcessEvent, when a debugger exists
    | LoadRomByHash(romName: Bytes, sha1Hash: Bytes)   // Console::LoadROM(romName, HashInfo)
    | LoadRomByPath(romPath: Bytes, patchPath: Bytes)  // Console::LoadROM(romPath, patchPath)
    | StopMovie                                        // MovieManager::Stop
    | ReplayState(payload: Bytes, formatVersion: U32)  // Console::LoadState(stream, fileFormatVersion)
    | StopConsole                                      // Console::GetInstance()->Stop()

  /** A Pause or a Resume. */
  predicate IsBracket(e: Event)
  {
    e.Pause? || e.Resume?
  }
}
