# cameraX_sample in Dafny

A model of the capture core of the cameraX_sample Android app:

- **NV21 repack** (`nv21.dfy`, module `Nv21`): the manual conversion of a
  YUV_420_888 frame (three planes with row and pixel strides) into the NV21
  byte layout the JPEG encoder takes. The layout is the luma plane row by
  row, then the chroma planes interleaved V,U at quarter resolution. The
  model includes the caller's catch of an out-of-bounds plane read.
- **Photo names** (`photo_file_name.dfy`, module `PhotoFileName`): the
  `IMG_yyyyMMdd_HHmmss.jpg` names given to captures, with a parser that
  inverts them.
- **Storage rules** (`storage.dfy`, module `Storage`): allocation of the
  temporary destination of a capture. On API level 29 (Q) and later this is
  a pending record in the shared media index; below it, a file in the
  cache. The module also covers commit, discard, the legacy copy to
  Downloads, and the sweep of pending records left by an earlier session.
  The media index is a map from id to record; the file system is a map from
  path to bytes plus a set of directories.
- **Camera screen control** (`camera_control.dfy`, module `CameraControl`):
  the flash cycle OFF -> ON -> AUTO, the exposure index kept in the camera's
  range, the display rotation shown on the controls, and a close pressed
  during a capture deferred to the capture's end. Each user action or camera
  callback is an event on an immutable screen record. The screen invariant,
  including "the camera applies the index on screen", is proved for every
  event sequence with binding in the corrected order (see Findings); with
  binding in the written order, every invariant clause but that one is
  proved.
- **Preview screen** (`preview.dfy`, module `Preview`): the one-shot guard
  that finalises a capture (save, or discard/close) at most once. A failed
  save re-arms the guard. A final destroy of an unsaved preview deletes the
  temporary file.
- **Permission gate** (`gate.dfy`, module `Gate`): which runtime permissions
  are needed on which API level, and what the button, the permission result
  and the two dialogs do next.

`wrappers.dfy` holds the `Option` and `Result` types.

Parameters stand in for everything the model cannot see: the API level
(`sdk`), the clock (a `Timestamp`), the id the media provider assigns, and
whether a provider call or `mkdirs` fails. The same goes for the result of
saving a photo, the cursor order of a query, and whether the activity is
being recreated for a configuration change.

## Model

| member | source | states |
|---|---|---|
| Nv21.Yuv420ToNv21 | app/src/main/java/com/example/cameraxsample/ui/camera/CameraActivity.kt:416-457 | For planes large enough for their strides, the output has the allocated length `w*h + 2*(w*h/4)`. Luma sample (r, c) sits at `r*w + c`. Chroma sample (r, c) is the pair V, U at `w*h + 2*(r*(w/2) + c)`, and every byte past the last pair stays 0. |
| Nv21.TryYuv420ToNv21 | app/src/main/java/com/example/cameraxsample/ui/camera/CameraActivity.kt:383-401 | The repack yields bytes exactly when every plane read is in bounds; otherwise the caught exception becomes "no image". When bytes come back, they are the NV21 layout above. |
| Nv21.Nv21Determined | app/src/main/java/com/example/cameraxsample/ui/camera/CameraActivity.kt:416-457 | The layout predicate pins down every output byte: two outputs that both satisfy it are equal. |
| Nv21.WrittenPositionCovered | app/src/main/java/com/example/cameraxsample/ui/camera/CameraActivity.kt:427-455 | Every position before the end of the last chroma pair is the slot of a luma sample, or of the V or U byte of a chroma sample. |
| Nv21.RowMajorInjective | app/src/main/java/com/example/cameraxsample/ui/camera/CameraActivity.kt:431-436 | The running `outputOffset++` never writes two samples of the grid to the same slot. |
| Nv21.RowMajorCovers | app/src/main/java/com/example/cameraxsample/ui/camera/CameraActivity.kt:431-436 | Every slot below `rows * cols` belongs to some sample of the grid. |
| Nv21.RowMajorIsProduct | app/src/main/java/com/example/cameraxsample/ui/camera/CameraActivity.kt:431-436 | After `r` full rows and `c` more samples, the running offset is `r * cols + c`. |
| Nv21.WrittenFitsOutput | app/src/main/java/com/example/cameraxsample/ui/camera/CameraActivity.kt:419-455 | The chroma pairs written, `2*((h/2)*(w/2))` bytes after the luma block, never pass the allocated `2*(w*h/4)`. |
| Nv21.EvenFrameFullyWritten | app/src/main/java/com/example/cameraxsample/ui/camera/CameraActivity.kt:419-421 | With even width and height, the last pair ends exactly at the end of the buffer. |
| Nv21.ReadableIffLastSampleFits | app/src/main/java/com/example/cameraxsample/ui/camera/CameraActivity.kt:428-454 | All reads of a plane are in bounds if and only if the read of its last sample is. |
| Nv21.CopyLuma | app/src/main/java/com/example/cameraxsample/ui/camera/CameraActivity.kt:427-436 | The luma loops place Y sample (r, c) at its row-major slot, end the running offset at `w*h`, and leave the rest zero. |
| Nv21.CopyChroma | app/src/main/java/com/example/cameraxsample/ui/camera/CameraActivity.kt:438-455 | The chroma loops continue the running offset and write V then U for each chroma sample. They leave the luma block untouched and the tail zero. |
| PhotoFileName.Format | app/src/main/java/com/example/cameraxsample/storage/StorageModule.kt:177-181 | Every name starts with `IMG_` and ends with `.jpg`, and is at least 23 characters long; the name of a valid timestamp is exactly 23. |
| PhotoFileName.FormatParseRoundTrip | app/src/main/java/com/example/cameraxsample/storage/StorageModule.kt:177-181 | A valid timestamp's name is 23 characters: `IMG_`, eight date digits, `_`, six time digits, `.jpg`. Parsing the name gives back the timestamp. |
| PhotoFileName.SameNameIffSameSecond | app/src/main/java/com/example/cameraxsample/storage/StorageModule.kt:177-181 | Two captures get the same name if and only if their local wall-clock times agree to the second. |
| PhotoFileName.ParsePadded | app/src/main/java/com/example/cameraxsample/storage/StorageModule.kt:178-179 | Each zero-padded field reads back as the number it encodes. |
| PhotoFileName.ParseAppendDigit | app/src/main/java/com/example/cameraxsample/storage/StorageModule.kt:178-179 | Reading one more digit on the right multiplies the value read so far by ten and adds the digit. |
| PhotoFileName.PaddedLength | app/src/main/java/com/example/cameraxsample/storage/StorageModule.kt:178 | A field that fits its width is padded to exactly that width. |
| Storage.CreateTemporaryCaptureRequest | app/src/main/java/com/example/cameraxsample/storage/StorageModule.kt:33-77 | On Q and later, allocation fails exactly when the insert yields no URI. On success it adds exactly one pending JPEG record in the app's folder and changes no file. Below Q it names `<cache>/capture_temp/<name>` with both a file URI and the file, and leaves the media index and the files alone. Below Q the cache sub-directory is added to the directories exactly when `mkdirs` succeeds. |
| Storage.CommitPendingCapture | app/src/main/java/com/example/cameraxsample/storage/StorageModule.kt:79-93 | Commit succeeds exactly on Q and later, for a content URI naming an existing record, when the provider does not throw. It then clears only that record's pending flag; otherwise nothing changes. |
| Storage.DiscardTemporaryCapture | app/src/main/java/com/example/cameraxsample/storage/StorageModule.kt:114-135 | On Q and later with a URI, it deletes the record and reports whether one existed. Otherwise, with a file, it deletes the file and reports whether it existed. With neither it reports `false` and changes nothing. |
| Storage.SaveLegacyTempCapture | app/src/main/java/com/example/cameraxsample/storage/StorageModule.kt:95-112 | The copy lands at `<Downloads>/codex_app/cameraX/<name>`. It succeeds exactly when the source exists, the folder exists or can be made, the destination is not a directory, and the destination can be opened for writing; a destination that cannot be opened leaves every file as it was. It carries the source's bytes, except that copying a file onto itself leaves it empty. It overwrites no other file, and a failed copy changes no file. The target folder is added to the directories exactly when `mkdirs` succeeds, and no other directory appears. |
| Storage.LegacySaveTwiceSameAsOnce | app/src/main/java/com/example/cameraxsample/storage/StorageModule.kt:95-112 | Saving the same temporary file again right after a save, to a different path, gives the same result and the same files and directories as the first save. |
| Storage.CleanupPendingCaptures | app/src/main/java/com/example/cameraxsample/storage/StorageModule.kt:137-158 | Below Q it does nothing. Otherwise it deletes the selected records in cursor order, up to the one whose delete throws, and nothing else. |
| Storage.CompleteSweepRemovesExactlyOrphans | app/src/main/java/com/example/cameraxsample/storage/StorageModule.kt:137-158 | A sweep that runs to the end removes exactly the pending records in the app's folder and leaves every other record unchanged. |
| Storage.SweepIdempotent | app/src/main/java/com/example/cameraxsample/storage/StorageModule.kt:137-158 | A second sweep right after a complete one deletes nothing. |
| Storage.AllocateThenDiscardRestoresIndex | app/src/main/java/com/example/cameraxsample/storage/StorageModule.kt:114-125 | Discarding a freshly allocated pending record reports success and restores the media index exactly. |
| Storage.AllocateThenCommitPublishes | app/src/main/java/com/example/cameraxsample/storage/StorageModule.kt:79-93 | Committing a fresh allocation succeeds and publishes the record with its name, type and folder, no longer pending. The sweep then no longer selects it. |
| Storage.UncommittedAllocationIsOrphan | app/src/main/java/com/example/cameraxsample/storage/StorageModule.kt:137-143 | An allocation that is never committed is selected by the next sweep. It would not be selected if the provider kept the folder without its trailing `/`. |
| Storage.LegacyDiscardDeletesOnlyWrittenFile | app/src/main/java/com/example/cameraxsample/storage/StorageModule.kt:127-131 | Below Q, discarding before the camera wrote the file reports `false`; after a write, discard reports `true` and restores the file system. |
| Storage.CommitThenDiscardBothSucceed | app/src/main/java/com/example/cameraxsample/storage/StorageModule.kt:114-125 | Storage alone does not stop a second finalisation: after a commit, a discard of the same URI also succeeds and removes the published record. |
| Storage.ResolverSetPending | app/src/main/java/com/example/cameraxsample/storage/StorageModule.kt:86-88 | The update touches at most one row, and one exactly when the record exists. It sets only that record's pending flag. |
| Storage.ResolverDelete | app/src/main/java/com/example/cameraxsample/storage/StorageModule.kt:118-120 | The delete removes at most the named record and counts 1 exactly when it existed. |
| Storage.NormalizeRelativePath | app/src/main/java/com/example/cameraxsample/storage/StorageModule.kt:143 | The stored folder always ends in `/`, as the sweep's selection argument expects, and a folder that already ends in `/` is kept as is; any other folder gets exactly one `/` appended. |
| Storage.DeleteTempCapture | app/src/main/java/com/example/cameraxsample/ui/preview/PreviewActivity.kt:106-109 | Afterwards the temporary file is gone and no other file has changed. The result says whether the file was there. |
| CameraControl.NextFlashMode | app/src/main/java/com/example/cameraxsample/ui/camera/CameraActivity.kt:560-566 | The next mode is always one of OFF, ON, AUTO, and always differs from a known current mode. The cycle itself, OFF to ON to AUTO to OFF, is stated by `CameraControl.FlashCycleHasPeriodThree`. |
| CameraControl.FlashCycleHasPeriodThree | app/src/main/java/com/example/cameraxsample/ui/camera/CameraActivity.kt:560-566 | OFF goes to ON, ON to AUTO, and AUTO back to OFF, so three presses return to the starting mode and the cycle from OFF visits every known mode. An unknown mode falls back to OFF. |
| CameraControl.CoerceIn | app/src/main/java/com/example/cameraxsample/ui/camera/CameraActivity.kt:549 | The clamped index lies in the camera's range, and an index already in the range is kept. |
| CameraControl.CoerceInIsNearest | app/src/main/java/com/example/cameraxsample/ui/camera/CameraActivity.kt:549 | No point of the range is nearer the requested index than the clamped one. |
| CameraControl.MapDisplayRotationToDegrees | app/src/main/java/com/example/cameraxsample/ui/camera/CameraActivity.kt:599-607 | Rotations 0..3 map to 90 times their value; anything else maps to 0. The result is always a right angle in [0, 360). |
| CameraControl.OnCreate | app/src/main/java/com/example/cameraxsample/ui/camera/CameraActivity.kt:48-95 | The screen restores the saved flash mode and exposure index, or OFF and 0 without saved state. It starts with no camera, no capture use case, the flash button disabled, and nothing pending. The flash unit is unknown (false), the controls face 0 degrees, the shutter and close buttons are enabled, and the screen is not destroyed. |
| CameraControl.OnFlashClicked | app/src/main/java/com/example/cameraxsample/ui/camera/CameraActivity.kt:148-154 | Without a flash unit the press changes nothing. Otherwise the mode advances one step in the cycle and the bound capture use case follows it. |
| CameraControl.SetExposureIndex | app/src/main/java/com/example/cameraxsample/ui/camera/CameraActivity.kt:546-554 | Without an active camera nothing changes. Otherwise the index on screen and the one the camera applies agree and lie in its range, and an in-range target is taken as is. Exactly those two fields change, both to the target clamped to the range. |
| CameraControl.AdjustExposureBy | app/src/main/java/com/example/cameraxsample/ui/camera/CameraActivity.kt:533-544 | Without a camera, without exposure compensation, or at the end of the range, a press is a no-op. Otherwise the index moves by the clamped step, the camera applies it, and nothing else changes. |
| CameraControl.OnCameraBound | app/src/main/java/com/example/cameraxsample/ui/camera/CameraActivity.kt:274-298 | The bound hook records the flash unit and forces OFF without one. It resets the index to 0 without exposure compensation, and otherwise fits the index to the new camera's range. That index reaches only the camera active at that moment. Nothing else changes. |
| CameraControl.RecordFlashUnit | app/src/main/java/com/example/cameraxsample/ui/camera/CameraActivity.kt:275-282 | The flash half of the hook: the flash unit and button follow the camera, the mode is forced OFF without a unit, and nothing else changes. |
| CameraControl.FitExposure | app/src/main/java/com/example/cameraxsample/ui/camera/CameraActivity.kt:284-297 | The exposure half of the hook: 0 without compensation; otherwise the index fitted to the new camera's range, sent on to the active camera if there is one. Only the index and the active camera change. |
| CameraControl.BindCameraAsWritten | app/src/main/java/com/example/cameraxsample/ui/camera/CameraActivity.kt:245-264 | Binding in the source's order ends with the new camera active and the capture use case built with the current flash mode, and the flash state follows the camera's unit. The index is 0 without compensation. On a first bind it is fitted to the new camera's range while the camera keeps its own applied index; on a rebind it is fitted to the new range and then clamped to the old camera's range. Finally the controls turn to the display rotation passed with the bind, and nothing else changes. |
| CameraControl.BindAsWrittenLeavesCameraUnset | app/src/main/java/com/example/cameraxsample/ui/camera/CameraActivity.kt:259-261 | On a first bind in the source's order, a restored index of 2 shows on screen while the camera still applies 0, which breaks the screen invariant. |
| CameraControl.FirstBindAsWrittenInStepIff | app/src/main/java/com/example/cameraxsample/ui/camera/CameraActivity.kt:259-261 | On any first bind in the source's order to a camera with compensation, the camera's index and the screen's agree exactly when the fitted index happens to be the one the camera already applies. |
| CameraControl.BindCamera | app/src/main/java/com/example/cameraxsample/ui/camera/CameraActivity.kt:235-272 | After a bind the camera applies exactly the index on screen, which is fitted to its range (0 without compensation). The flash state follows the camera's flash unit, and the capture use case starts with the current flash mode. Finally the controls turn to the display rotation passed with the bind, and nothing else changes. |
| CameraControl.CloseAndFinish | app/src/main/java/com/example/cameraxsample/ui/camera/CameraActivity.kt:323-336 | The screen is finishing with no active camera, and nothing else changes. |
| CameraControl.OnCloseClicked | app/src/main/java/com/example/cameraxsample/ui/camera/CameraActivity.kt:309-321 | Only the first press counts; it disables the close button. The screen finishes at once exactly when no capture is running, and the capture keeps running either way. A first press during a capture changes only the close flag and button; otherwise it also releases the camera and finishes, and nothing else changes. |
| CameraControl.CapturePhoto | app/src/main/java/com/example/cameraxsample/ui/camera/CameraActivity.kt:338-342 | Without a capture use case the shutter does nothing. Otherwise a capture starts with the shutter disabled, and nothing else changes. |
| CameraControl.OnCaptureFinished | app/src/main/java/com/example/cameraxsample/ui/camera/CameraActivity.kt:467-475 | No capture runs afterwards. The shutter comes back unless the screen is destroyed. A waiting close now finishes and releases the camera; without one, finishing and the camera are unchanged. Nothing else changes. |
| CameraControl.OnCaptureResult | app/src/main/java/com/example/cameraxsample/ui/camera/CameraActivity.kt:347-378 | The preview opens exactly when no close was requested, the screen is alive, and a file was written; it gets that file and the name for `now`. "Save failed" shows exactly when the screen is alive with no file. |
| CameraControl.UpdateRotationTargets | app/src/main/java/com/example/cameraxsample/ui/camera/CameraActivity.kt:577-591 | The controls face the display's rotation in degrees, and nothing else changes. |
| CameraControl.OnDestroy | app/src/main/java/com/example/cameraxsample/ui/camera/CameraActivity.kt:103-108 | The screen is destroyed with its camera released, and nothing else changes. |
| CameraControl.CreatedScreenSatisfiesInvariant | app/src/main/java/com/example/cameraxsample/ui/camera/CameraActivity.kt:78-95 | A freshly created screen satisfies the screen invariant. |
| CameraControl.StepPreservesInvariant | app/src/main/java/com/example/cameraxsample/ui/camera/CameraActivity.kt:148-475 | With binding in the corrected order, every event keeps the invariant. A requested close has disabled its button and finished the screen unless a capture runs. A capture runs only with a use case and the shutter off. The active camera applies the index on screen. With a bound camera and no flash unit, the mode is OFF. |
| CameraControl.RunPreservesInvariant | app/src/main/java/com/example/cameraxsample/ui/camera/CameraActivity.kt:148-475 | With binding in the corrected order, any sequence of events keeps the invariant. |
| CameraControl.StepPreservesConsistency | app/src/main/java/com/example/cameraxsample/ui/camera/CameraActivity.kt:148-475 | Every event other than a bind keeps the invariant's clauses other than "the camera applies the index on screen". |
| CameraControl.FlashClickKeepsConsistency | app/src/main/java/com/example/cameraxsample/ui/camera/CameraActivity.kt:148-154 | A flash press keeps the invariant's clauses other than "the camera applies the index on screen". |
| CameraControl.ExposureClickKeepsConsistency | app/src/main/java/com/example/cameraxsample/ui/camera/CameraActivity.kt:533-544 | An exposure press keeps the invariant's clauses other than "the camera applies the index on screen". |
| CameraControl.BindFailureKeepsConsistency | app/src/main/java/com/example/cameraxsample/ui/camera/CameraActivity.kt:267-271 | A failed bind keeps the invariant's clauses other than "the camera applies the index on screen". |
| CameraControl.ShutterClickKeepsConsistency | app/src/main/java/com/example/cameraxsample/ui/camera/CameraActivity.kt:338-342 | A shutter press keeps the invariant's clauses other than "the camera applies the index on screen". |
| CameraControl.CloseClickKeepsConsistency | app/src/main/java/com/example/cameraxsample/ui/camera/CameraActivity.kt:309-321 | A close press keeps the invariant's clauses other than "the camera applies the index on screen". |
| CameraControl.CaptureEndKeepsConsistency | app/src/main/java/com/example/cameraxsample/ui/camera/CameraActivity.kt:347-378 | The end of a capture keeps the invariant's clauses other than "the camera applies the index on screen". |
| CameraControl.RotationKeepsConsistency | app/src/main/java/com/example/cameraxsample/ui/camera/CameraActivity.kt:577-591 | A display rotation keeps the invariant's clauses other than "the camera applies the index on screen". |
| CameraControl.DestroyKeepsConsistency | app/src/main/java/com/example/cameraxsample/ui/camera/CameraActivity.kt:103-108 | Destroying the screen keeps the invariant's clauses other than "the camera applies the index on screen". |
| CameraControl.StepAsWrittenPreservesConsistency | app/src/main/java/com/example/cameraxsample/ui/camera/CameraActivity.kt:148-475 | With binding in the source's order, every event keeps every invariant clause except "the camera applies the index on screen". |
| CameraControl.RunAsWrittenPreservesConsistency | app/src/main/java/com/example/cameraxsample/ui/camera/CameraActivity.kt:148-475 | With binding in the source's order, any sequence of events keeps those clauses. |
| CameraControl.CloseDuringCaptureDefersAndSuppressesPreview | app/src/main/java/com/example/cameraxsample/ui/camera/CameraActivity.kt:347-475 | A close during a capture does not finish the screen. The capture's end then finishes it and does not open the preview, whatever the capture produced. |
| Preview.OnCreate | app/src/main/java/com/example/cameraxsample/ui/preview/PreviewActivity.kt:24-40 | Without a non-blank temporary path the screen finishes at once and installs no listeners; with one it installs them. A missing name becomes "". |
| Preview.OnSaveClicked | app/src/main/java/com/example/cameraxsample/ui/preview/PreviewActivity.kt:66-95 | A handled screen ignores the press. A missing file or a failed save leaves screen and files as they were, so the guard is re-armed. Only a successful save of an existing file marks the capture saved and handled, deletes the temporary file, and finishes; then exactly those screen fields change, and the files are as before minus the temporary file. |
| Preview.OnDiscardClicked | app/src/main/java/com/example/cameraxsample/ui/preview/PreviewActivity.kt:97-104 | The first discard or close deletes the temporary file, leaves every other file as it was, and finishes; later ones change nothing. |
| Preview.OnDestroy | app/src/main/java/com/example/cameraxsample/ui/preview/PreviewActivity.kt:42-50 | A configuration change, or a saved capture, leaves the files alone. A final destroy of an unsaved preview deletes the temporary file and leaves every other file as it was. |
| Preview.CreatedScreenSatisfiesInvariant | app/src/main/java/com/example/cameraxsample/ui/preview/PreviewActivity.kt:19-40 | A new preview satisfies the guard invariant. |
| Preview.StepPreservesInvariant | app/src/main/java/com/example/cameraxsample/ui/preview/PreviewActivity.kt:52-104 | Every event keeps the invariant: handled means decided, saved means saved, and a decided capture's temporary file is gone. Once decided, the outcome never changes, so a capture is finalised at most once. |
| Preview.RunPreservesInvariant | app/src/main/java/com/example/cameraxsample/ui/preview/PreviewActivity.kt:52-104 | Over any sequence of events the invariant holds and a decided outcome stays the same. |
| Preview.RunKeepsPath | app/src/main/java/com/example/cameraxsample/ui/preview/PreviewActivity.kt:29 | The temporary path read at creation never changes. |
| Preview.FinalDestroyLeavesNoTempFile | app/src/main/java/com/example/cameraxsample/ui/preview/PreviewActivity.kt:42-50 | Whatever the user did, after the final destroy the temporary file no longer exists. |
| Preview.FailedSaveRearmsGuard | app/src/main/java/com/example/cameraxsample/ui/preview/PreviewActivity.kt:70-82 | After a failed save the capture is neither handled nor saved, and a discard still goes through. |
| Gate.RequiredPermissions | app/src/main/java/com/example/cameraxsample/ui/gate/GateActivity.kt:57-66 | Camera is always required. Storage write is required exactly up to API 28, and nothing else is ever requested. |
| Gate.AllGranted | app/src/main/java/com/example/cameraxsample/ui/gate/GateActivity.kt:25 | True exactly when every listed permission is in the result as granted; a missing entry counts as denied. |
| Gate.AnyWants | app/src/main/java/com/example/cameraxsample/ui/gate/GateActivity.kt:71-73 | True exactly when some listed permission wants a rationale. |
| Gate.HasRequiredPermissions | app/src/main/java/com/example/cameraxsample/ui/gate/GateActivity.kt:47-51 | True exactly when every required permission is granted. |
| Gate.OnTakePhotoClicked | app/src/main/java/com/example/cameraxsample/ui/gate/GateActivity.kt:38-44 | The button goes to the camera exactly when all required permissions are granted; otherwise it requests exactly the required ones. |
| Gate.OnPermissionResult | app/src/main/java/com/example/cameraxsample/ui/gate/GateActivity.kt:23-31 | The result goes to the camera exactly when every required permission came back granted; otherwise the denial is handled. |
| Gate.HandlePermissionDenied | app/src/main/java/com/example/cameraxsample/ui/gate/GateActivity.kt:68-80 | The rationale dialog shows exactly when some required permission wants a rationale; otherwise the settings dialog shows. |
| Gate.OnDialogConfirmed | app/src/main/java/com/example/cameraxsample/ui/gate/GateActivity.kt:82-102 | Retry in the rationale dialog asks again for exactly the required permissions; the settings dialog opens the app's settings. |
| Gate.CameraAloneSufficesFromQ | app/src/main/java/com/example/cameraxsample/ui/gate/GateActivity.kt:57-66 | A camera-only grant is enough exactly from API 29 on. |
| Gate.ResultDecisionIgnoresUnrequested | app/src/main/java/com/example/cameraxsample/ui/gate/GateActivity.kt:25 | Entries for permissions that were not required do not change the decision. |

## Left out

- JPEG encoding, bitmap decoding and rotation (`imageProxyToBitmap`, `bitmap.compress`): the capture pipeline is modelled up to the NV21 bytes. Whether processing produced a file is an event parameter.
- Pinch zoom, tap-to-focus and the focus ring: float geometry, and calls into the camera control whose results only drive log lines and toasts.
- Toasts, log lines, icons, the exposure text, animations and window insets: they have no effect on state.
- Threads and executors: `onCaptureSuccess` runs on the capture executor and calls `processCapturedImage` there; only its `runOnUiThread` blocks, and that of `onError`, run on the UI thread. The worker's result becomes the `tempFile` of the capture event, and each UI-thread block is one event. Interleavings of the worker with UI events are not modelled.
- The display listener registration, `getCurrentDisplayRotation`, and the use cases' target rotation: the rotation arrives with a rotation event or with a bind, and only the controls' rotation is modelled.
- The media scanner call in the legacy save: it only notifies the platform.
- The negative buttons of the two gate dialogs: they close the dialog and do nothing else.
- `SavedImageActivity`: the model stops at the intent that opens it.
- StorageModule's `saveCapturedPhoto`, `deleteTempCapture`, `createTemporaryCaptureFile` and `cleanupTemporaryCaptures` are called by the screens but are not part of this model. Saving is a parameter of the save event. Deleting is `Storage.DeleteTempCapture`, modelled by the effect its callers rely on. The capture worker's file is the `tempFile` of the capture event. The cache cleanup at camera-screen creation is omitted, since no modelled state depends on it.
- Nv21.Yuv420ToNv21: does not model 32-bit `Int` overflow of `width * height` or of the plane offsets; dimensions and strides are unbounded naturals.
- PhotoFileName.FormatParseRoundTrip: the clock is a parameter already split into calendar fields, so the conversion of `Date()` to local time and `SimpleDateFormat` itself are not modelled.
- PhotoFileName.SameNameIffSameSecond: the statement is about local wall-clock fields, not instants; when the clocks go back for daylight saving, two captures an hour apart get the same name, and below Q the second legacy save overwrites the first.
- Storage.SaveLegacyTempCapture: a copy that fails part-way is not modelled; a copy either fails before writing or completes. Why storage refuses to open the destination (unmounted, read-only, no space) is not modelled; the `openFails` flag stands for all of it. `mkdirs` is one flag for the whole target path, with no parent directories.
- Storage.CreateTemporaryCaptureRequest: the media provider's own renaming of duplicate display names is not modelled. The record stores the name it was given.
- CameraControl.StepPreservesInvariant: proved for `Step`, which binds in the corrected order (`CameraControl.BindCamera`); the app's own order keeps only the weaker `CameraControl.ControlsConsistent`.
- CameraControl.RunPreservesInvariant: proved for event sequences with binding in the corrected order; for the app's order see `CameraControl.RunAsWrittenPreservesConsistency`.
- CameraControl.CloseAndFinish: the exception path of `unbindAll` inside `releaseCameraResourcesSafely`, which leaves the camera active, is not modelled.
- Preview.OnDestroy: recreation after a configuration change makes a new screen from the same intent; the model keeps the old record, marked destroyed.

Two details of the legacy (below Q) allocation, as the code has them, are
easy to miss:

- Below Q, allocation does not fail when `mkdirs` fails. The result of `mkdirs` is ignored, and the request is returned anyway.
- Below Q, the request carries both a `file://` URI and the file, not exactly one of the two.

## Findings

| source | as written | input that shows it | evidently intended | confidence | as-written member | corrected member |
|---|---|---|---|---|---|---|
| app/src/main/java/com/example/cameraxsample/ui/camera/CameraActivity.kt:259-261 | `onCameraBound(camera)` runs before `activeCamera = camera`. On a first bind, its `setExposureIndex` finds no active camera and returns early, so the fitted exposure index is shown but never sent to the camera. | Saved exposure index 2, camera range [-2, 2] with its control at 0, first bind after creation: the screen shows 2 and the camera applies 0. | Make the camera active before the hook runs, so the camera applies the index shown on screen. | medium, not executed | CameraControl.BindAsWrittenLeavesCameraUnset | CameraControl.BindCamera |
