/** The preview screen shown after a capture: the user keeps the photo
    (save) or drops it (discard or close). A one-shot `actionHandled` flag
    makes sure the temporary file is finalised at most once, re-armed when a
    save fails; a final destroy of an unsaved preview deletes the file. */
module Preview {

  import opened Wrappers
  import Storage

  /** Kotlin's `Char.isWhitespace`: Java's whitespace characters together
      with the Unicode space separators. */
  predicate IsWhitespace(ch: char)
  {
    || '\t' <= ch <= '\r'
    || '\U{001C}' <= ch <= ' '
    || ch == '\U{00A0}' || ch == '\U{1680}'
    || '\U{2000}' <= ch <= '\U{200A}'
    || ch == '\U{2028}' || ch == '\U{2029}' || ch == '\U{202F}' || ch == '\U{205F}' || ch == '\U{3000}'
  }

  /** Kotlin's `isNullOrBlank`. */
  predicate IsNullOrBlank(s: Option<string>)
  {
    s.None? || forall i :: 0 <= i < |s.value| ==> IsWhitespace(s.value[i])
  }

  /** How the user finalised the capture, if they did. */
  datatype Outcome = Undecided | Saved(result: Storage.SaveResult) | Discarded

  datatype PreviewScreen = PreviewScreen(
    tempFilePath: Option<Storage.Path>,
    fileName: string,
    listenersInstalled: bool,
    actionHandled: bool,
    saved: bool,
    outcome: Outcome,
    finishing: bool,
    destroyed: bool)

  /** Opens the preview for the temporary file and name passed by the
      camera screen. Without a usable path it finishes straight away and
      installs no button listeners. */
  function OnCreate(tempFilePath: Option<Storage.Path>, fileName: Option<string>): (s: PreviewScreen)
    ensures s.listenersInstalled <==> !IsNullOrBlank(tempFilePath)
    ensures s.finishing <==> IsNullOrBlank(tempFilePath)
    ensures s.tempFilePath == tempFilePath
    ensures s.fileName == if fileName.Some? then fileName.value else ""
    ensures !s.actionHandled && !s.saved && s.outcome == Undecided && !s.destroyed
  {
    var name := if fileName.Some? then fileName.value else "";
    var s := PreviewScreen(tempFilePath, name, false, false, false, Undecided, false, false);
    if IsNullOrBlank(tempFilePath) then s.(finishing := true) else s.(listenersInstalled := true)
  }

  /** Save button. `saveResult` is what saving the photo returns, `None`
      when it fails; it is only consulted when the temporary file exists. A
      missing file or a failed save re-arms the guard so the user may try
      again. A successful save deletes the temporary file, opens the saved
      image and finishes. */
  function OnSaveClicked(s: PreviewScreen, fs: Storage.FileSystem, saveResult: Option<Storage.SaveResult>)
    : (r: (PreviewScreen, Storage.FileSystem))
    ensures s.actionHandled ==> r == (s, fs)
    ensures !s.actionHandled && (s.tempFilePath.None? || s.tempFilePath.value !in fs.files || saveResult.None?) ==>
              r == (s, fs)
    ensures r.0.saved != s.saved ==>
              && !s.actionHandled && saveResult.Some? && s.tempFilePath.Some? && s.tempFilePath.value in fs.files
              && r.0 == s.(actionHandled := true, saved := true, outcome := Saved(saveResult.value), finishing := true)
              && r.1 == Storage.DeleteTempCapture(fs, s.tempFilePath).1
    ensures !s.actionHandled && s.tempFilePath.Some? && s.tempFilePath.value in fs.files && saveResult.Some? ==>
              && r.0 == s.(actionHandled := true, saved := true, outcome := Saved(saveResult.value), finishing := true)
              && r.1 == Storage.DeleteTempCapture(fs, s.tempFilePath).1
              && s.tempFilePath.value !in r.1.files
  {
    if s.actionHandled then (s, fs)
    else
      match s.tempFilePath
      case None => (s, fs)
      case Some(path) =>
        if path !in fs.files then (s, fs)
        else match saveResult
          case None => (s, fs)
          case Some(result) =>
            var s1 := s.(actionHandled := true, saved := true, outcome := Saved(result));
            var fs' := Storage.DeleteTempCapture(fs, Some(path)).1;
            (s1.(finishing := true), fs')
  }

  /** Discard button, and the close button, which shares its handler:
      deletes the temporary file and finishes, once. */
  function OnDiscardClicked(s: PreviewScreen, fs: Storage.FileSystem): (r: (PreviewScreen, Storage.FileSystem))
    ensures s.actionHandled ==> r == (s, fs)
    ensures !s.actionHandled ==>
              && r.0 == s.(actionHandled := true, outcome := Discarded, finishing := true)
              && (s.tempFilePath.Some? ==> s.tempFilePath.value !in r.1.files)
              && r.1 == Storage.DeleteTempCapture(fs, s.tempFilePath).1
              && r.1.files.Keys <= fs.files.Keys
  {
    if s.actionHandled then (s, fs)
    else
      var fs' := Storage.DeleteTempCapture(fs, s.tempFilePath).1;
      (s.(actionHandled := true, outcome := Discarded, finishing := true), fs')
  }

  /** Destroy. Across a configuration change the file must survive for the
      recreated screen; a final destroy of an unsaved preview deletes it. */
  function OnDestroy(s: PreviewScreen, fs: Storage.FileSystem, changingConfigurations: bool)
    : (r: (PreviewScreen, Storage.FileSystem))
    ensures r.0 == s.(destroyed := true)
    ensures changingConfigurations || s.saved ==> r.1 == fs
    ensures !changingConfigurations && !s.saved ==> r.1 == Storage.DeleteTempCapture(fs, s.tempFilePath).1
    ensures !changingConfigurations && !s.saved && s.tempFilePath.Some? ==> s.tempFilePath.value !in r.1.files
  {
    if !changingConfigurations && !s.saved then (s.(destroyed := true), Storage.DeleteTempCapture(fs, s.tempFilePath).1)
    else (s.(destroyed := true), fs)
  }

  datatype Event =
    | SaveClicked(saveResult: Option<Storage.SaveResult>)
    | DiscardClicked
    | CloseClicked
    | Destroyed(changingConfigurations: bool)

  /** One event on a live screen. Clicks reach the handlers only through the
      installed listeners; a destroyed screen receives nothing more. */
  function Step(s: PreviewScreen, fs: Storage.FileSystem, e: Event): (PreviewScreen, Storage.FileSystem)
  {
    if s.destroyed then (s, fs)
    else match e
      case SaveClicked(result) => if s.listenersInstalled then OnSaveClicked(s, fs, result) else (s, fs)
      case DiscardClicked => if s.listenersInstalled then OnDiscardClicked(s, fs) else (s, fs)
      case CloseClicked => if s.listenersInstalled then OnDiscardClicked(s, fs) else (s, fs)
      case Destroyed(changing) => OnDestroy(s, fs, changing)
  }

  /** The meaning of the two flags: `actionHandled` holds exactly when the
      capture has been finalised, `saved` exactly when it was saved; either
      way the screen is finishing and the temporary file is gone. */
  predicate Invariant(s: PreviewScreen, fs: Storage.FileSystem)
  {
    && (s.actionHandled <==> s.outcome != Undecided)
    && (s.saved <==> s.outcome.Saved?)
    && (s.outcome != Undecided ==> s.finishing && s.listenersInstalled)
    && (s.outcome != Undecided && s.tempFilePath.Some? ==> s.tempFilePath.value !in fs.files)
  }

  lemma CreatedScreenSatisfiesInvariant(tempFilePath: Option<Storage.Path>, fileName: Option<string>, fs: Storage.FileSystem)
    ensures Invariant(OnCreate(tempFilePath, fileName), fs)
  {
  }

  /** Every event keeps the invariant, and a decided outcome never changes:
      the capture is saved or discarded at most once. */
  lemma {:induction false} StepPreservesInvariant(s: PreviewScreen, fs: Storage.FileSystem, e: Event)
    requires Invariant(s, fs)
    ensures Invariant(Step(s, fs, e).0, Step(s, fs, e).1)
    ensures s.outcome != Undecided ==> Step(s, fs, e).0.outcome == s.outcome
  {
  }

  function Run(s: PreviewScreen, fs: Storage.FileSystem, events: seq<Event>): (PreviewScreen, Storage.FileSystem)
    decreases |events|
  {
    if |events| == 0 then (s, fs)
    else
      var r := Step(s, fs, events[0]);
      Run(r.0, r.1, events[1..])
  }

  /** Over any sequence of events the invariant holds and a decided outcome
      stays decided the same way. */
  lemma {:induction false} RunPreservesInvariant(s: PreviewScreen, fs: Storage.FileSystem, events: seq<Event>)
    requires Invariant(s, fs)
    ensures Invariant(Run(s, fs, events).0, Run(s, fs, events).1)
    ensures s.outcome != Undecided ==> Run(s, fs, events).0.outcome == s.outcome
    decreases |events|
  {
    if |events| > 0 {
      StepPreservesInvariant(s, fs, events[0]);
      var r := Step(s, fs, events[0]);
      RunPreservesInvariant(r.0, r.1, events[1..]);
    }
  }

  /** Whatever the user did before, once the screen is finally destroyed
      the temporary file no longer exists. */
  lemma {:induction false} FinalDestroyLeavesNoTempFile(
    path: Storage.Path, fileName: Option<string>, fs: Storage.FileSystem, events: seq<Event>)
    ensures var start := OnCreate(Some(path), fileName);
            var before := Run(start, fs, events);
            !before.0.destroyed ==> path !in OnDestroy(before.0, before.1, false).1.files
  {
    var start := OnCreate(Some(path), fileName);
    CreatedScreenSatisfiesInvariant(Some(path), fileName, fs);
    RunPreservesInvariant(start, fs, events);
    RunKeepsPath(start, fs, events);
  }

  lemma {:induction false} RunKeepsPath(s: PreviewScreen, fs: Storage.FileSystem, events: seq<Event>)
    ensures Run(s, fs, events).0.tempFilePath == s.tempFilePath
    decreases |events|
  {
    if |events| > 0 {
      var r := Step(s, fs, events[0]);
      RunKeepsPath(r.0, r.1, events[1..]);
    }
  }

  /** A failed save leaves the user free to try again or discard. */
  lemma FailedSaveRearmsGuard(s: PreviewScreen, fs: Storage.FileSystem)
    requires Invariant(s, fs) && !s.actionHandled && s.listenersInstalled && !s.destroyed
    ensures var r := Step(s, fs, SaveClicked(None));
            !r.0.actionHandled && !r.0.saved && r.1 == fs
            && Step(r.0, r.1, DiscardClicked).0.outcome == Discarded
  {
  }
}
