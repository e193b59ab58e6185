/** The control state of the camera screen: the flash mode cycle, the
    exposure-compensation index kept inside the camera's range, the display
    rotation shown on the controls, and the rule that a close requested
    while a capture is running waits for the capture to finish. Every user
    action and camera callback is an event applied to an immutable record. */
module CameraControl {

  import opened Wrappers
  import PhotoFileName

  /** CameraX's `ImageCapture.FLASH_MODE_*` values. */
  const FlashAuto: int := 0
  const FlashOn: int := 1
  const FlashOff: int := 2

  predicate IsKnownFlashMode(m: int)
  {
    m == FlashOff || m == FlashOn || m == FlashAuto
  }

  /** The flash button's cycle OFF -> ON -> AUTO -> OFF; any value outside
      the cycle (a restored mode the button never produces) goes to OFF. */
  function NextFlashMode(m: int): (r: int)
    ensures IsKnownFlashMode(r)
    ensures IsKnownFlashMode(m) ==> r != m
  {
    if m == FlashOff then FlashOn
    else if m == FlashOn then FlashAuto
    else FlashOff
  }

  /** Three presses bring a known mode back, and the cycle reaches every
      known mode from OFF. */
  lemma {:induction false} FlashCycleHasPeriodThree(m: int)
    ensures NextFlashMode(FlashOff) == FlashOn && NextFlashMode(FlashOn) == FlashAuto && NextFlashMode(FlashAuto) == FlashOff
    ensures IsKnownFlashMode(m) ==> NextFlashMode(NextFlashMode(NextFlashMode(m))) == m
    ensures !IsKnownFlashMode(m) ==> NextFlashMode(m) == FlashOff
    ensures IsKnownFlashMode(m) ==>
              m in {FlashOff, NextFlashMode(FlashOff), NextFlashMode(NextFlashMode(FlashOff))}
  {
  }

  function Distance(a: int, b: int): nat
  {
    if a <= b then b - a else a - b
  }

  /** Kotlin's `coerceIn`: the point of `[lo, hi]` nearest to `x`. An empty
      range throws there; a camera's exposure range is never empty. */
  function CoerceIn(x: int, lo: int, hi: int): (r: int)
    requires lo <= hi
    ensures lo <= r <= hi
    ensures lo <= x <= hi ==> r == x
  {
    if x < lo then lo else if x > hi then hi else x
  }

  /** No point of the range is nearer to `x` than the coerced value. */
  lemma CoerceInIsNearest(x: int, lo: int, hi: int)
    requires lo <= hi
    ensures forall y :: lo <= y <= hi ==> Distance(CoerceIn(x, lo, hi), x) <= Distance(y, x)
  {
  }

  /** `Surface.ROTATION_0 .. ROTATION_270` are 0 .. 3. */
  function MapDisplayRotationToDegrees(displayRotation: int): (d: int)
    ensures 0 <= d < 360 && d % 90 == 0
    ensures 0 <= displayRotation <= 3 ==> d == 90 * displayRotation
    ensures !(0 <= displayRotation <= 3) ==> d == 0
  {
    match displayRotation
    case 0 => 0
    case 1 => 90
    case 2 => 180
    case 3 => 270
    case _ => 0
  }

  /** What the screen knows of a bound camera: whether it has a flash unit,
      its exposure-compensation range, and the index its control currently
      applies. */
  datatype Camera = Camera(hasFlashUnit: bool, lower: int, upper: int, appliedIndex: int)

  /** A camera as the platform reports it: the range is a real interval and
      the applied index lies in it. */
  predicate ValidCamera(c: Camera)
  {
    c.lower <= c.upper && c.lower <= c.appliedIndex <= c.upper
  }

  /** A range of (0, 0) means the camera has no exposure compensation. */
  predicate ExposureSupported(c: Camera)
  {
    c.lower != 0 || c.upper != 0
  }

  /** The screen's fields: `camera` is the active camera, `captureFlashMode`
      the flash mode of the image-capture use case once one is bound. */
  datatype Screen = Screen(
    flashMode: int,
    hasFlashUnit: bool,
    flashButtonEnabled: bool,
    exposureIndex: int,
    camera: Option<Camera>,
    captureFlashMode: Option<int>,
    captureInProgress: bool,
    closeRequested: bool,
    closeButtonEnabled: bool,
    shutterEnabled: bool,
    rotationDegrees: int,
    destroyed: bool,
    finishing: bool)

  /** The flash mode and exposure index kept across a configuration change. */
  datatype SavedState = SavedState(flashMode: int, exposureIndex: int)

  /** The screen as it is created, restoring the saved flash mode and
      exposure index if there are any. The flash button stays disabled until
      a camera reports a flash unit. */
  function OnCreate(saved: Option<SavedState>): (s: Screen)
    ensures saved.None? ==> s.flashMode == FlashOff && s.exposureIndex == 0
    ensures saved.Some? ==> s.flashMode == saved.value.flashMode && s.exposureIndex == saved.value.exposureIndex
    ensures !s.flashButtonEnabled && s.camera.None? && s.captureFlashMode.None?
    ensures !s.captureInProgress && !s.closeRequested && !s.finishing
    ensures !s.hasFlashUnit && s.shutterEnabled && s.closeButtonEnabled && s.rotationDegrees == 0 && !s.destroyed
  {
    var flash := if saved.Some? then saved.value.flashMode else FlashOff;
    var exposure := if saved.Some? then saved.value.exposureIndex else 0;
    Screen(flash, false, false, exposure, None, None, false, false, true, true, 0, false, false)
  }

  /** Flash button: ignored without a flash unit; otherwise advances the
      mode and hands it to the capture use case, if one is bound. */
  function OnFlashClicked(s: Screen): (s': Screen)
    ensures !s.hasFlashUnit ==> s' == s
    ensures s.hasFlashUnit ==> s' == s.(flashMode := NextFlashMode(s.flashMode),
                                         captureFlashMode := if s.captureFlashMode.Some? then Some(NextFlashMode(s.flashMode)) else None)
  {
    if !s.hasFlashUnit then s
    else
      var mode := NextFlashMode(s.flashMode);
      s.(flashMode := mode, captureFlashMode := if s.captureFlashMode.Some? then Some(mode) else None)
  }

  /** Sends `target`, clamped to the active camera's range, to the camera
      and shows it; does nothing while no camera is active. */
  function SetExposureIndex(s: Screen, target: int): (s': Screen)
    requires s.camera.Some? ==> ValidCamera(s.camera.value)
    ensures s.camera.None? ==> s' == s
    ensures s.camera.Some? ==>
              && s'.camera.Some? && ValidCamera(s'.camera.value)
              && s'.camera.value.appliedIndex == s'.exposureIndex
              && s'.camera.value.lower <= s'.exposureIndex <= s'.camera.value.upper
              && (s.camera.value.lower <= target <= s.camera.value.upper ==> s'.exposureIndex == target)
    ensures s.camera.Some? ==>
              var c := s.camera.value;
              var t := CoerceIn(target, c.lower, c.upper);
              s' == s.(exposureIndex := t, camera := Some(c.(appliedIndex := t)))
  {
    match s.camera
    case None => s
    case Some(c) =>
      var clamped := CoerceIn(target, c.lower, c.upper);
      s.(exposureIndex := clamped, camera := Some(c.(appliedIndex := clamped)))
  }

  /** Exposure buttons: step the index by `delta` within the camera's range.
      Without a camera, with an unsupported range, or at the end of the
      range, nothing changes. */
  function AdjustExposureBy(s: Screen, delta: int): (s': Screen)
    requires s.camera.Some? ==> ValidCamera(s.camera.value)
    ensures s.camera.None? || !ExposureSupported(s.camera.value) ==> s' == s
    ensures s.camera.Some? && ExposureSupported(s.camera.value) ==>
              var c := s.camera.value;
              var t := CoerceIn(s.exposureIndex + delta, c.lower, c.upper);
              if t == s.exposureIndex then s' == s
              else s' == s.(exposureIndex := t, camera := Some(c.(appliedIndex := t)))
  {
    match s.camera
    case None => s
    case Some(c) =>
      if !ExposureSupported(c) then s
      else
        var target := CoerceIn(s.exposureIndex + delta, c.lower, c.upper);
        if target == s.exposureIndex then s else SetExposureIndex(s, target)
  }

  /** The camera-bound hook: record the flash unit (forcing OFF without one)
      and fit the exposure index to the new camera's range, or reset it to 0
      when the camera has no exposure compensation. The final
      `SetExposureIndex` goes to whatever camera is active at that moment. */
  function OnCameraBound(s: Screen, c: Camera): (s': Screen)
    requires ValidCamera(c)
    requires s.camera.Some? ==> ValidCamera(s.camera.value)
    ensures s' == s.(hasFlashUnit := c.hasFlashUnit, flashButtonEnabled := c.hasFlashUnit,
                     flashMode := if c.hasFlashUnit then s.flashMode else FlashOff,
                     exposureIndex := s'.exposureIndex, camera := s'.camera)
    ensures !ExposureSupported(c) ==> s'.exposureIndex == 0 && s'.camera == s.camera
    ensures ExposureSupported(c) && s.camera.None? ==>
              s'.exposureIndex == CoerceIn(s.exposureIndex, c.lower, c.upper) && s'.camera.None?
    ensures ExposureSupported(c) && s.camera.Some? ==>
              var a := s.camera.value;
              s'.exposureIndex == CoerceIn(CoerceIn(s.exposureIndex, c.lower, c.upper), a.lower, a.upper)
              && s'.camera == Some(a.(appliedIndex := s'.exposureIndex))
  {
    FitExposure(RecordFlashUnit(s, c), c)
  }

  /** The flash half of the bound hook. */
  function RecordFlashUnit(s: Screen, c: Camera): (s': Screen)
    ensures s' == s.(hasFlashUnit := c.hasFlashUnit, flashButtonEnabled := c.hasFlashUnit,
                     flashMode := if c.hasFlashUnit then s.flashMode else FlashOff)
  {
    s.(hasFlashUnit := c.hasFlashUnit, flashButtonEnabled := c.hasFlashUnit,
       flashMode := if c.hasFlashUnit then s.flashMode else FlashOff)
  }

  /** The exposure half of the bound hook. */
  function FitExposure(s: Screen, c: Camera): (s': Screen)
    requires ValidCamera(c)
    requires s.camera.Some? ==> ValidCamera(s.camera.value)
    ensures s' == s.(exposureIndex := s'.exposureIndex, camera := s'.camera)
    ensures if !ExposureSupported(c) then s'.exposureIndex == 0 && s'.camera == s.camera
            else if s.camera.None? then s'.exposureIndex == CoerceIn(s.exposureIndex, c.lower, c.upper) && s'.camera.None?
            else
              var a := s.camera.value;
              s'.exposureIndex == CoerceIn(CoerceIn(s.exposureIndex, c.lower, c.upper), a.lower, a.upper)
              && s'.camera == Some(a.(appliedIndex := s'.exposureIndex))
  {
    if !ExposureSupported(c) then s.(exposureIndex := 0)
    else
      var fitted := CoerceIn(s.exposureIndex, c.lower, c.upper);
      SetExposureIndex(s.(exposureIndex := fitted), fitted)
  }

  /** Binding as the source orders it: the capture use case is built with
      the current flash mode, the bound hook runs, and only then does `c`
      become the active camera; the controls then turn to the display's
      rotation. On a first bind the hook's exposure update therefore finds no
      active camera and never reaches `c`. */
  function BindCameraAsWritten(s: Screen, c: Camera, displayRotation: int): (s': Screen)
    requires ValidCamera(c)
    requires s.camera.Some? ==> ValidCamera(s.camera.value)
    ensures s'.camera == Some(c)
    ensures s' == s.(hasFlashUnit := c.hasFlashUnit, flashButtonEnabled := c.hasFlashUnit,
                     flashMode := if c.hasFlashUnit then s.flashMode else FlashOff,
                     exposureIndex := s'.exposureIndex, camera := Some(c), captureFlashMode := Some(s.flashMode),
                     rotationDegrees := MapDisplayRotationToDegrees(displayRotation))
    ensures !ExposureSupported(c) ==> s'.exposureIndex == 0
    ensures ExposureSupported(c) && s.camera.None? ==> s'.exposureIndex == CoerceIn(s.exposureIndex, c.lower, c.upper)
    ensures ExposureSupported(c) && s.camera.Some? ==>
              var a := s.camera.value;
              s'.exposureIndex == CoerceIn(CoerceIn(s.exposureIndex, c.lower, c.upper), a.lower, a.upper)
  {
    var buildFlash := s.flashMode;
    var bound := OnCameraBound(s, c);
    UpdateRotationTargets(bound.(camera := Some(c), captureFlashMode := Some(buildFlash)), displayRotation)
  }

  /** Binding with `c` made active before the bound hook runs, so that the
      fitted exposure index is applied to the camera that was just bound. */
  function BindCamera(s: Screen, c: Camera, displayRotation: int): (s': Screen)
    requires ValidCamera(c)
    ensures s'.camera.Some? && ValidCamera(s'.camera.value)
    ensures s'.hasFlashUnit == c.hasFlashUnit && s'.flashButtonEnabled == c.hasFlashUnit
    ensures !c.hasFlashUnit ==> s'.flashMode == FlashOff
    ensures c.hasFlashUnit ==> s'.flashMode == s.flashMode
    ensures s'.captureFlashMode == Some(s.flashMode)
    ensures !ExposureSupported(c) ==> s'.exposureIndex == 0
    ensures ExposureSupported(c) ==> s'.exposureIndex == CoerceIn(s.exposureIndex, c.lower, c.upper)
    ensures s'.camera.value.appliedIndex == s'.exposureIndex
    ensures s' == s.(hasFlashUnit := c.hasFlashUnit, flashButtonEnabled := c.hasFlashUnit,
                     flashMode := if c.hasFlashUnit then s.flashMode else FlashOff,
                     exposureIndex := s'.exposureIndex, camera := Some(c.(appliedIndex := s'.exposureIndex)),
                     captureFlashMode := Some(s.flashMode),
                     rotationDegrees := MapDisplayRotationToDegrees(displayRotation))
  {
    var buildFlash := s.flashMode;
    var bound := OnCameraBound(s.(camera := Some(c)), c);
    UpdateRotationTargets(bound.(captureFlashMode := Some(buildFlash)), displayRotation)
  }

  /** A restored exposure index of 2 on a camera whose range is [-2, 2] and
      whose control is at 0: the screen shows 2 after binding, while the
      camera still applies 0. */
  lemma BindAsWrittenLeavesCameraUnset()
    ensures var s := BindCameraAsWritten(OnCreate(Some(SavedState(FlashOff, 2))), Camera(true, -2, 2, 0), 0);
            s.exposureIndex == 2 && s.camera.value.appliedIndex == 0 && !Invariant(s)
  {
  }

  /** On every first bind to a camera with exposure compensation, the
      written order leaves the camera's index and the screen's in step
      exactly when the fitted index happens to be the one the camera
      already applies. */
  lemma FirstBindAsWrittenInStepIff(s: Screen, c: Camera, displayRotation: int)
    requires ValidCamera(c) && ExposureSupported(c) && s.camera.None?
    ensures var s' := BindCameraAsWritten(s, c, displayRotation);
            s'.camera.value.appliedIndex == s'.exposureIndex <==> c.appliedIndex == CoerceIn(s.exposureIndex, c.lower, c.upper)
  {
  }

  /** Unbinds the camera and finishes the screen. */
  function CloseAndFinish(s: Screen): (s': Screen)
    ensures s'.finishing && s'.camera.None?
    ensures s' == s.(camera := None, finishing := true)
  {
    s.(camera := None, finishing := true)
  }

  /** Close button: only the first press counts. It disables the button and
      closes at once, unless a capture is running, in which case the close
      is left for the end of the capture. */
  function OnCloseClicked(s: Screen): (s': Screen)
    ensures s.closeRequested ==> s' == s
    ensures !s.closeRequested ==> s'.closeRequested && !s'.closeButtonEnabled
    ensures !s.closeRequested ==> (s'.finishing <==> s.finishing || !s.captureInProgress)
    ensures s'.captureInProgress == s.captureInProgress
    ensures !s.closeRequested && s.captureInProgress ==> s' == s.(closeRequested := true, closeButtonEnabled := false)
    ensures !s.closeRequested && !s.captureInProgress ==>
              s' == s.(closeRequested := true, closeButtonEnabled := false, camera := None, finishing := true)
  {
    if s.closeRequested then s
    else
      var s1 := s.(closeRequested := true, closeButtonEnabled := false);
      if s1.captureInProgress then s1 else CloseAndFinish(s1)
  }

  /** Shutter button: without a capture use case nothing happens; otherwise
      a capture starts and the shutter is disabled until it ends. */
  function CapturePhoto(s: Screen): (s': Screen)
    ensures s.captureFlashMode.None? ==> s' == s
    ensures s.captureFlashMode.Some? ==> s' == s.(captureInProgress := true, shutterEnabled := false)
  {
    if s.captureFlashMode.None? then s
    else s.(captureInProgress := true, shutterEnabled := false)
  }

  /** End of a capture, success or error: the shutter comes back unless the
      screen is destroyed, and a close that was waiting now happens. */
  function OnCaptureFinished(s: Screen): (s': Screen)
    ensures !s'.captureInProgress
    ensures s'.closeRequested == s.closeRequested
    ensures s.closeRequested ==> s'.finishing && s'.camera.None?
    ensures !s.closeRequested ==> s'.finishing == s.finishing && s'.camera == s.camera
    ensures s'.shutterEnabled == (!s.destroyed || s.shutterEnabled)
    ensures s' == s.(captureInProgress := false, shutterEnabled := s'.shutterEnabled,
                     camera := if s.closeRequested then None else s.camera,
                     finishing := s.finishing || s.closeRequested)
  {
    var s1 := s.(captureInProgress := false, shutterEnabled := if !s.destroyed then true else s.shutterEnabled);
    if s1.closeRequested then CloseAndFinish(s1) else s1
  }

  /** What the screen does after a capture ends. */
  datatype CaptureEffect = NoEffect | ShowSaveFailed | LaunchPreview(tempFile: string, fileName: string)

  /** The capture callback back on the UI thread. `tempFile` is the JPEG the
      worker wrote, or `None` if the capture or its processing failed; `now`
      is the clock when the preview is launched, which names the photo. */
  function OnCaptureResult(s: Screen, tempFile: Option<string>, now: PhotoFileName.Timestamp): (r: (Screen, CaptureEffect))
    ensures r.0 == OnCaptureFinished(s)
    ensures r.1.LaunchPreview? <==> !s.closeRequested && !s.destroyed && !s.finishing && tempFile.Some?
    ensures r.1.LaunchPreview? ==> r.1 == LaunchPreview(tempFile.value, PhotoFileName.Format(now))
    ensures r.1.ShowSaveFailed? <==> !s.closeRequested && !s.destroyed && !s.finishing && tempFile.None?
  {
    var s1 := OnCaptureFinished(s);
    if s1.destroyed || s1.finishing then (s1, NoEffect)
    else match tempFile
      case None => (s1, ShowSaveFailed)
      case Some(f) => (s1, LaunchPreview(f, PhotoFileName.Format(now)))
  }

  /** The controls turn to face the display's rotation. */
  function UpdateRotationTargets(s: Screen, displayRotation: int): (s': Screen)
    ensures s' == s.(rotationDegrees := MapDisplayRotationToDegrees(displayRotation))
  {
    s.(rotationDegrees := MapDisplayRotationToDegrees(displayRotation))
  }

  /** The screen is torn down and its camera released. */
  function OnDestroy(s: Screen): (s': Screen)
    ensures s' == s.(destroyed := true, camera := None)
  {
    s.(destroyed := true, camera := None)
  }

  datatype Event =
    | FlashClicked
    | ExposureClicked(delta: int)
    | CameraBound(c: Camera, displayRotation: int)
    | BindFailed
    | ShutterClicked
    | CloseClicked
    | CaptureEnded(tempFile: Option<string>, now: PhotoFileName.Timestamp)
    | DisplayRotated(rotation: int)
    | Destroyed

  predicate ValidEvent(e: Event)
  {
    e.CameraBound? ==> ValidCamera(e.c)
  }

  function Step(s: Screen, e: Event): Screen
    requires ValidEvent(e)
    requires s.camera.Some? ==> ValidCamera(s.camera.value)
  {
    match e
    case FlashClicked => OnFlashClicked(s)
    case ExposureClicked(delta) => AdjustExposureBy(s, delta)
    case CameraBound(c, rotation) => BindCamera(s, c, rotation)
    case BindFailed => s.(finishing := true)
    case ShutterClicked => CapturePhoto(s)
    case CloseClicked => OnCloseClicked(s)
    case CaptureEnded(f, now) => OnCaptureResult(s, f, now).0
    case DisplayRotated(r) => UpdateRotationTargets(s, r)
    case Destroyed => OnDestroy(s)
  }

  /** What holds of the screen between events:
      - a requested close has disabled the close button, and has finished
        the screen unless a capture is still running;
      - a capture runs only with a capture use case, and with the shutter off;
      - the active camera is valid, agrees on the flash unit, and shows 0
        when it has no exposure compensation;
      - with a bound camera and no flash unit the mode is OFF, and with a
        flash unit the capture use case uses the mode on screen.
      This much holds with either binding order. */
  predicate ControlsConsistent(s: Screen)
  {
    && (s.closeRequested ==> !s.closeButtonEnabled)
    && (s.closeRequested && !s.captureInProgress ==> s.finishing)
    && (s.captureInProgress ==> s.captureFlashMode.Some? && !s.shutterEnabled)
    && (s.camera.Some? ==>
          && ValidCamera(s.camera.value)
          && s.hasFlashUnit == s.camera.value.hasFlashUnit
          && (!ExposureSupported(s.camera.value) ==> s.exposureIndex == 0))
    && (s.camera.Some? && !s.hasFlashUnit ==> s.flashMode == FlashOff)
    && (s.hasFlashUnit && s.captureFlashMode.Some? ==> s.captureFlashMode.value == s.flashMode)
  }

  /** The consistent controls, and moreover the active camera applies the
      index on screen, which therefore lies in its range. */
  predicate Invariant(s: Screen)
  {
    && ControlsConsistent(s)
    && (s.camera.Some? ==> s.camera.value.appliedIndex == s.exposureIndex)
  }

  lemma {:induction false} StepPreservesInvariant(s: Screen, e: Event)
    requires ValidEvent(e) && Invariant(s)
    ensures Invariant(Step(s, e))
  {
    match e
    case CameraBound(c, rotation) =>
      var s' := BindCamera(s, c, rotation);
      assert s'.camera.Some? && s'.camera.value.appliedIndex == s'.exposureIndex;
    case _ =>
      StepPreservesConsistency(s, e);
  }

  function Run(s: Screen, events: seq<Event>): Screen
    requires forall i :: 0 <= i < |events| ==> ValidEvent(events[i])
    requires Invariant(s)
    decreases |events|
  {
    if |events| == 0 then s
    else
      StepPreservesInvariant(s, events[0]);
      Run(Step(s, events[0]), events[1..])
  }

  /** From creation on, every sequence of events keeps the invariant. */
  lemma {:induction false} RunPreservesInvariant(s: Screen, events: seq<Event>)
    requires forall i :: 0 <= i < |events| ==> ValidEvent(events[i])
    requires Invariant(s)
    ensures Invariant(Run(s, events))
    decreases |events|
  {
    if |events| > 0 {
      StepPreservesInvariant(s, events[0]);
      RunPreservesInvariant(Step(s, events[0]), events[1..]);
    }
  }

  /** Apart from a bind, every event keeps the controls consistent. */
  lemma {:induction false} StepPreservesConsistency(s: Screen, e: Event)
    requires ValidEvent(e) && ControlsConsistent(s) && !e.CameraBound?
    ensures ControlsConsistent(Step(s, e))
  {
    match e
    case FlashClicked => FlashClickKeepsConsistency(s);
    case ExposureClicked(delta) => ExposureClickKeepsConsistency(s, delta);
    case BindFailed => BindFailureKeepsConsistency(s);
    case ShutterClicked => ShutterClickKeepsConsistency(s);
    case CloseClicked => CloseClickKeepsConsistency(s);
    case CaptureEnded(f, now) => CaptureEndKeepsConsistency(s, f, now);
    case DisplayRotated(r) => RotationKeepsConsistency(s, r);
    case Destroyed => DestroyKeepsConsistency(s);
  }

  /** Each event other than a bind, one at a time. */
  lemma FlashClickKeepsConsistency(s: Screen)
    requires ControlsConsistent(s)
    ensures ControlsConsistent(Step(s, FlashClicked))
  {
  }

  lemma ExposureClickKeepsConsistency(s: Screen, delta: int)
    requires ControlsConsistent(s)
    ensures ControlsConsistent(Step(s, ExposureClicked(delta)))
  {
  }

  lemma BindFailureKeepsConsistency(s: Screen)
    requires ControlsConsistent(s)
    ensures ControlsConsistent(Step(s, BindFailed))
  {
  }

  lemma ShutterClickKeepsConsistency(s: Screen)
    requires ControlsConsistent(s)
    ensures ControlsConsistent(Step(s, ShutterClicked))
  {
  }

  lemma CloseClickKeepsConsistency(s: Screen)
    requires ControlsConsistent(s)
    ensures ControlsConsistent(Step(s, CloseClicked))
  {
  }

  lemma CaptureEndKeepsConsistency(s: Screen, tempFile: Option<string>, now: PhotoFileName.Timestamp)
    requires ControlsConsistent(s)
    ensures ControlsConsistent(Step(s, CaptureEnded(tempFile, now)))
  {
  }

  lemma RotationKeepsConsistency(s: Screen, displayRotation: int)
    requires ControlsConsistent(s)
    ensures ControlsConsistent(Step(s, DisplayRotated(displayRotation)))
  {
  }

  lemma DestroyKeepsConsistency(s: Screen)
    requires ControlsConsistent(s)
    ensures ControlsConsistent(Step(s, Destroyed))
  {
  }

  /** One event with binding in the written order. */
  function StepAsWritten(s: Screen, e: Event): Screen
    requires ValidEvent(e)
    requires s.camera.Some? ==> ValidCamera(s.camera.value)
  {
    if e.CameraBound? then BindCameraAsWritten(s, e.c, e.displayRotation) else Step(s, e)
  }

  /** In the written order every event keeps the controls consistent, though
      not the camera's index in step with the screen's. */
  lemma {:induction false} StepAsWrittenPreservesConsistency(s: Screen, e: Event)
    requires ValidEvent(e) && ControlsConsistent(s)
    ensures ControlsConsistent(StepAsWritten(s, e))
  {
    match e
    case CameraBound(c, rotation) =>
      var s' := BindCameraAsWritten(s, c, rotation);
      assert s'.camera == Some(c);
    case _ =>
      StepPreservesConsistency(s, e);
  }

  function RunAsWritten(s: Screen, events: seq<Event>): Screen
    requires forall i :: 0 <= i < |events| ==> ValidEvent(events[i])
    requires ControlsConsistent(s)
    decreases |events|
  {
    if |events| == 0 then s
    else
      StepAsWrittenPreservesConsistency(s, events[0]);
      RunAsWritten(StepAsWritten(s, events[0]), events[1..])
  }

  lemma {:induction false} RunAsWrittenPreservesConsistency(s: Screen, events: seq<Event>)
    requires forall i :: 0 <= i < |events| ==> ValidEvent(events[i])
    requires ControlsConsistent(s)
    ensures ControlsConsistent(RunAsWritten(s, events))
    decreases |events|
  {
    if |events| > 0 {
      StepAsWrittenPreservesConsistency(s, events[0]);
      RunAsWrittenPreservesConsistency(StepAsWritten(s, events[0]), events[1..]);
    }
  }

  lemma CreatedScreenSatisfiesInvariant(saved: Option<SavedState>)
    ensures Invariant(OnCreate(saved))
  {
  }

  /** A close pressed during a capture does not finish the screen, and the
      capture's end then finishes it without opening the preview. */
  lemma {:induction false} CloseDuringCaptureDefersAndSuppressesPreview(
    s: Screen, tempFile: Option<string>, now: PhotoFileName.Timestamp)
    requires Invariant(s) && s.captureInProgress && !s.closeRequested && !s.finishing
    ensures !OnCloseClicked(s).finishing
    ensures var r := OnCaptureResult(OnCloseClicked(s), tempFile, now);
            r.0.finishing && r.1 == NoEffect && Invariant(r.0)
  {
    StepPreservesInvariant(s, CloseClicked);
    StepPreservesInvariant(OnCloseClicked(s), CaptureEnded(tempFile, now));
  }
}
