/** The pending-capture storage rules: allocate a temporary destination for a
    photo, commit it, discard it, save a legacy temporary file to the public
    Downloads folder, and sweep pending records left behind by an earlier
    session. On API level Q (29) and later the destination is a pending
    record in the shared media index; below Q it is a file in the app's cache.

    The media index is a map from record id to record, and the file system a
    map from path to bytes plus the set of existing directories. */
module Storage {

  import opened Wrappers
  import PhotoFileName

  /** `Build.VERSION_CODES.Q`, the first level with scoped storage. */
  const Q: int := 29

  const RelativeDownloadPath: string := "Download/codex_app/cameraX"
  const LegacySubDirectory: string := "codex_app/cameraX"
  const CaptureTempDirectory: string := "capture_temp"
  const JpegMimeType: string := "image/jpeg"

  type RecordId = nat
  type Path = string

  /** The columns of a media record the capture flow writes or selects on. */
  datatype MediaRecord = MediaRecord(displayName: string, mimeType: string, relativePath: string, isPending: bool)

  type MediaIndex = map<RecordId, MediaRecord>

  datatype FileSystem = FileSystem(files: map<Path, seq<bv8>>, dirs: set<Path>)

  /** A `content://` URI naming one media record, or a `file://` URI. */
  datatype Uri = ContentUri(id: RecordId) | FileUri(path: Path)

  /** Where a capture is written before the user decides to keep it. */
  datatype CaptureTempRequest = CaptureTempRequest(tempUri: Option<Uri>, tempFile: Option<Path>, fileName: string)

  datatype AllocationError = PendingInsertFailed

  function Join(dir: Path, name: string): Path
  {
    dir + "/" + name
  }

  /** The media index stores a relative path with a trailing separator,
      whatever the inserting app wrote. This is an assumption about the
      platform provider, which is not part of this model. */
  function NormalizeRelativePath(p: string): (r: string)
    ensures |r| > 0 && r[|r| - 1] == '/'
    ensures |p| > 0 && p[|p| - 1] == '/' ==> r == p
    ensures !(|p| > 0 && p[|p| - 1] == '/') ==> r == p + "/"
  {
    if |p| > 0 && p[|p| - 1] == '/' then p else p + "/"
  }

  /** The record the allocation inserts, as the index stores it. */
  function PendingRecord(fileName: string): MediaRecord
  {
    MediaRecord(fileName, JpegMimeType, NormalizeRelativePath(RelativeDownloadPath), true)
  }

  /** Shape of a request: a URI is always present; a file is present exactly
      when the URI is a `file://` URI, and then names the same path. */
  predicate WellFormedRequest(req: CaptureTempRequest)
  {
    && req.tempUri.Some?
    && (req.tempFile.Some? <==> req.tempUri.value.FileUri?)
    && (req.tempFile.Some? ==> req.tempUri.value.path == req.tempFile.value)
  }

  /** Allocates the temporary destination of a capture taken at `now`. On Q
      and later it inserts one pending record; `inserted` is the id the
      provider hands back, or `None` when the insert yields no URI, which
      throws. Below Q it makes sure the cache sub-directory exists
      (`mkdirsOk` says whether `mkdirs` succeeds; its result is ignored) and
      names a file in it. */
  function CreateTemporaryCaptureRequest(
    sdk: int, now: PhotoFileName.Timestamp, cacheDir: Path, inserted: Option<RecordId>, mkdirsOk: bool,
    index: MediaIndex, fs: FileSystem
  ): (r: Result<(CaptureTempRequest, MediaIndex, FileSystem), AllocationError>)
    requires inserted.Some? ==> inserted.value !in index
    ensures r.Failure? <==> sdk >= Q && inserted.None?
    ensures r.Success? ==> WellFormedRequest(r.value.0) && r.value.0.fileName == PhotoFileName.Format(now)
    ensures r.Success? && sdk >= Q ==>
              && r.value.0.tempFile.None?
              && r.value.0.tempUri == Some(ContentUri(inserted.value))
              && r.value.1.Keys == index.Keys + {inserted.value}
              && r.value.1[inserted.value] == PendingRecord(PhotoFileName.Format(now))
              && (forall id :: id in index ==> r.value.1[id] == index[id])
              && r.value.2 == fs
    ensures r.Success? && sdk < Q ==>
              && r.value.0.tempFile == Some(Join(Join(cacheDir, CaptureTempDirectory), PhotoFileName.Format(now)))
              && r.value.1 == index
              && r.value.2.files == fs.files
              && r.value.2.dirs == fs.dirs + (if mkdirsOk then {Join(cacheDir, CaptureTempDirectory)} else {})
  {
    var fileName := PhotoFileName.Format(now);
    if sdk >= Q then
      match inserted
      case None => Failure(PendingInsertFailed)
      case Some(id) =>
        Success((CaptureTempRequest(Some(ContentUri(id)), None, fileName), index[id := PendingRecord(fileName)], fs))
    else
      var tempDirectory := Join(cacheDir, CaptureTempDirectory);
      var dirs := if tempDirectory !in fs.dirs && mkdirsOk then fs.dirs + {tempDirectory} else fs.dirs;
      var tempFile := Join(tempDirectory, fileName);
      Success((CaptureTempRequest(Some(FileUri(tempFile)), Some(tempFile), fileName), index, FileSystem(fs.files, dirs)))
  }

  /** What the content resolver does with an update of `IS_PENDING` on `uri`:
      the number of rows it changed and the new index, or `None` when the
      call throws (a `file://` URI has no provider, and `throws` covers every
      other failure of the provider). */
  function ResolverSetPending(index: MediaIndex, uri: Uri, pending: bool, throws: bool): (r: Option<(nat, MediaIndex)>)
    ensures r.None? <==> throws || uri.FileUri?
    ensures r.Some? ==> r.value.0 <= 1 && (r.value.0 == 1 <==> uri.id in index)
    ensures r.Some? ==> r.value.1.Keys == index.Keys
    ensures r.Some? ==> forall id :: id in index ==>
              r.value.1[id] == if id == uri.id then index[id].(isPending := pending) else index[id]
  {
    if throws then None
    else match uri
      case FileUri(_) => None
      case ContentUri(id) =>
        if id in index then Some((1, index[id := index[id].(isPending := pending)])) else Some((0, index))
  }

  /** What the content resolver does with a delete of `uri`. */
  function ResolverDelete(index: MediaIndex, uri: Uri, throws: bool): (r: Option<(nat, MediaIndex)>)
    ensures r.None? <==> throws || uri.FileUri?
    ensures r.Some? ==> r.value.0 <= 1 && (r.value.0 == 1 <==> uri.id in index)
    ensures r.Some? ==> r.value.1 == index - {uri.id}
  {
    if throws then None
    else match uri
      case FileUri(_) => None
      case ContentUri(id) => Some((if id in index then 1 else 0, index - {id}))
  }

  /** Clears the pending flag of the record behind `pendingUri`. Below Q
      there is nothing to commit; an exception reads as failure. */
  function CommitPendingCapture(sdk: int, index: MediaIndex, pendingUri: Uri, throws: bool): (r: (bool, MediaIndex))
    ensures sdk < Q ==> r == (false, index)
    ensures r.0 <==> sdk >= Q && !throws && pendingUri.ContentUri? && pendingUri.id in index
    ensures r.0 ==> r.1 == index[pendingUri.id := index[pendingUri.id].(isPending := false)]
    ensures !r.0 ==> r.1 == index
  {
    if sdk < Q then (false, index)
    else match ResolverSetPending(index, pendingUri, false, throws)
      case None => (false, index)
      case Some((updated, index')) => (updated > 0, index')
  }

  /** Deletes the temporary destination: the record behind `uri` on Q and
      later, otherwise the file, otherwise nothing. The result says whether
      something was deleted; nothing to delete is `false`, not an error. */
  function DiscardTemporaryCapture(
    sdk: int, index: MediaIndex, fs: FileSystem, uri: Option<Uri>, file: Option<Path>, throws: bool
  ): (r: (bool, MediaIndex, FileSystem))
    ensures sdk >= Q && uri.Some? ==>
              && r.2 == fs
              && (r.0 <==> !throws && uri.value.ContentUri? && uri.value.id in index)
              && r.1 == (if !throws && uri.value.ContentUri? then index - {uri.value.id} else index)
    ensures !(sdk >= Q && uri.Some?) && file.Some? ==>
              && r.1 == index
              && (r.0 <==> file.value in fs.files)
              && r.2 == FileSystem(fs.files - {file.value}, fs.dirs)
    ensures !(sdk >= Q && uri.Some?) && file.None? ==> r == (false, index, fs)
  {
    if sdk >= Q && uri.Some? then
      match ResolverDelete(index, uri.value, throws)
      case None => (false, index, fs)
      case Some((deleted, index')) => (deleted > 0, index', fs)
    else if file.Some? then
      (file.value in fs.files, index, FileSystem(fs.files - {file.value}, fs.dirs))
    else
      (false, index, fs)
  }

  /** Copies a legacy temporary file to `Downloads/codex_app/cameraX/<fileName>`,
      creating that directory first when it is missing (`mkdirsOk` says
      whether `mkdirs` succeeds). A missing source, a target directory that
      still does not exist, or a destination that cannot be opened for
      writing makes the copy throw and the result `None`. The destination
      cannot be opened when it is itself a directory, or when the storage
      refuses the write for reasons outside the model (`openFails`).
      Opening a file onto itself truncates it before it is read. */
  function SaveLegacyTempCapture(
    fs: FileSystem, downloadsDir: Path, tempFile: Path, fileName: string, mkdirsOk: bool, openFails: bool
  ): (r: (Option<Path>, FileSystem))
    ensures r.0.Some? ==> r.0.value == Join(Join(downloadsDir, LegacySubDirectory), fileName)
    ensures r.0.Some? <==>
              && tempFile in fs.files
              && (Join(downloadsDir, LegacySubDirectory) in fs.dirs || mkdirsOk)
              && Join(Join(downloadsDir, LegacySubDirectory), fileName) !in fs.dirs
              && !openFails
    ensures openFails ==> r.0.None? && r.1.files == fs.files
    ensures r.0.Some? ==> r.1.files.Keys == fs.files.Keys + {r.0.value}
    ensures r.0.Some? && r.0.value != tempFile ==> r.1.files[r.0.value] == fs.files[tempFile]
    ensures r.0.Some? && r.0.value == tempFile ==> r.1.files[tempFile] == []
    ensures forall p :: p in fs.files && (r.0.None? || p != r.0.value) ==> p in r.1.files && r.1.files[p] == fs.files[p]
    ensures r.0.None? ==> r.1.files == fs.files
    ensures r.1.dirs == fs.dirs + (if mkdirsOk then {Join(downloadsDir, LegacySubDirectory)} else {})
  {
    var targetDirectory := Join(downloadsDir, LegacySubDirectory);
    var dirs := if targetDirectory !in fs.dirs && mkdirsOk then fs.dirs + {targetDirectory} else fs.dirs;
    var destination := Join(targetDirectory, fileName);
    if tempFile !in fs.files || targetDirectory !in dirs || destination in dirs || openFails then
      (None, FileSystem(fs.files, dirs))
    else
      var bytes := if tempFile == destination then [] else fs.files[tempFile];
      (Some(destination), FileSystem(fs.files[destination := bytes], dirs))
  }

  /** Saving the same temporary file again right after a save lands on the
      same path and leaves the files and directories as the first save left
      them, unless the copy is onto the source itself. */
  lemma {:induction false} LegacySaveTwiceSameAsOnce(
    fs: FileSystem, downloadsDir: Path, tempFile: Path, fileName: string, mkdirsOk: bool, openFails: bool)
    requires tempFile != Join(Join(downloadsDir, LegacySubDirectory), fileName)
    ensures var first := SaveLegacyTempCapture(fs, downloadsDir, tempFile, fileName, mkdirsOk, openFails);
            var second := SaveLegacyTempCapture(first.1, downloadsDir, tempFile, fileName, mkdirsOk, openFails);
            second == first
  {
    var first := SaveLegacyTempCapture(fs, downloadsDir, tempFile, fileName, mkdirsOk, openFails);
    var second := SaveLegacyTempCapture(first.1, downloadsDir, tempFile, fileName, mkdirsOk, openFails);
    if first.0.Some? {
      assert second.1.files == first.1.files;
    }
  }

  /** The sweep's query: pending records whose relative path is the app's
      folder written with a trailing separator. */
  predicate IsOrphan(rec: MediaRecord)
  {
    rec.relativePath == RelativeDownloadPath + "/" && rec.isPending
  }

  ghost function Orphans(index: MediaIndex): set<RecordId>
  {
    set id | id in index && IsOrphan(index[id])
  }

  /** A cursor over the query result: every orphan exactly once, in the
      provider's order. */
  ghost predicate EnumeratesOrphans(index: MediaIndex, order: seq<RecordId>)
  {
    && (forall i, j :: 0 <= i < j < |order| ==> order[i] != order[j])
    && (set i | 0 <= i < |order| :: order[i]) == Orphans(index)
  }

  /** Deletes, one by one in cursor order, the pending records of earlier
      sessions. `failAt` is the position at which a provider call throws;
      the exception is caught and the sweep stops there, so only the records
      before it are gone. Below Q it does nothing. */
  method CleanupPendingCaptures(sdk: int, index: MediaIndex, order: seq<RecordId>, failAt: Option<nat>)
    returns (index': MediaIndex)
    requires EnumeratesOrphans(index, order)
    ensures sdk < Q ==> index' == index
    ensures sdk >= Q ==>
              var done := if failAt.Some? && failAt.value < |order| then failAt.value else |order|;
              index' == index - (set i | 0 <= i < done :: order[i])
  {
    index' := index;
    if sdk < Q {
      return;
    }
    var done := if failAt.Some? && failAt.value < |order| then failAt.value else |order|;
    var k := 0;
    while k < done
      invariant k <= done
      invariant index' == index - (set i | 0 <= i < k :: order[i])
    {
      var r := ResolverDelete(index', ContentUri(order[k]), false);
      index' := r.value.1;
      assert (set i | 0 <= i < k + 1 :: order[i]) == (set i | 0 <= i < k :: order[i]) + {order[k]};
      k := k + 1;
    }
  }

  /** A sweep that runs to the end removes exactly the orphans and leaves
      every other record as it was. */
  lemma {:induction false} CompleteSweepRemovesExactlyOrphans(index: MediaIndex, order: seq<RecordId>, index': MediaIndex)
    requires EnumeratesOrphans(index, order)
    requires index' == index - (set i | 0 <= i < |order| :: order[i])
    ensures index'.Keys == index.Keys - Orphans(index)
    ensures forall id :: id in index' ==> index'[id] == index[id] && !IsOrphan(index'[id])
    ensures Orphans(index') == {}
  {
  }

  /** Running the sweep again right after a complete sweep deletes nothing. */
  lemma {:induction false} SweepIdempotent(index: MediaIndex, order: seq<RecordId>, index': MediaIndex, order': seq<RecordId>)
    requires EnumeratesOrphans(index, order)
    requires index' == index - (set i | 0 <= i < |order| :: order[i])
    requires EnumeratesOrphans(index', order')
    ensures index' - (set i | 0 <= i < |order'| :: order'[i]) == index'
  {
    CompleteSweepRemovesExactlyOrphans(index, order, index');
  }

  /** Discarding a freshly allocated pending record reports a deletion and
      puts the media index back as it was: discard undoes allocation. */
  lemma AllocateThenDiscardRestoresIndex(
    sdk: int, now: PhotoFileName.Timestamp, cacheDir: Path, id: RecordId, index: MediaIndex, fs: FileSystem)
    requires sdk >= Q && id !in index
    ensures var alloc := CreateTemporaryCaptureRequest(sdk, now, cacheDir, Some(id), true, index, fs);
            && alloc.Success?
            && DiscardTemporaryCapture(sdk, alloc.value.1, alloc.value.2, alloc.value.0.tempUri, alloc.value.0.tempFile, false)
               == (true, index, fs)
  {
    var alloc := CreateTemporaryCaptureRequest(sdk, now, cacheDir, Some(id), true, index, fs);
    assert alloc.value.1 - {id} == index;
  }

  /** Committing a freshly allocated record succeeds and publishes it: the
      same name, type and folder with the pending flag cleared, which the
      sweep no longer selects. */
  lemma AllocateThenCommitPublishes(
    sdk: int, now: PhotoFileName.Timestamp, cacheDir: Path, id: RecordId, index: MediaIndex, fs: FileSystem)
    requires sdk >= Q && id !in index
    ensures var alloc := CreateTemporaryCaptureRequest(sdk, now, cacheDir, Some(id), true, index, fs);
            var commit := CommitPendingCapture(sdk, alloc.value.1, alloc.value.0.tempUri.value, false);
            && commit.0
            && commit.1 == index[id := MediaRecord(PhotoFileName.Format(now), JpegMimeType, RelativeDownloadPath + "/", false)]
            && !IsOrphan(commit.1[id])
  {
  }

  /** A record allocated and never committed is exactly what the next
      session's sweep looks for. This rests on the provider adding the
      trailing separator: the folder as the allocation writes it does not
      match the sweep's selection. */
  lemma UncommittedAllocationIsOrphan(
    sdk: int, now: PhotoFileName.Timestamp, cacheDir: Path, id: RecordId, index: MediaIndex, fs: FileSystem)
    requires sdk >= Q && id !in index
    ensures var alloc := CreateTemporaryCaptureRequest(sdk, now, cacheDir, Some(id), true, index, fs);
            id in Orphans(alloc.value.1)
    ensures !IsOrphan(MediaRecord(PhotoFileName.Format(now), JpegMimeType, RelativeDownloadPath, true))
  {
    var raw := RelativeDownloadPath;
    assert raw[|raw| - 1] != '/';
    assert |raw| != |raw + "/"|;
  }

  /** Below Q, discarding a destination before the camera wrote to it finds
      nothing and reports `false`; once bytes were written, it deletes them. */
  lemma LegacyDiscardDeletesOnlyWrittenFile(
    sdk: int, now: PhotoFileName.Timestamp, cacheDir: Path, mkdirsOk: bool, index: MediaIndex, fs: FileSystem, bytes: seq<bv8>)
    requires sdk < Q
    requires Join(Join(cacheDir, CaptureTempDirectory), PhotoFileName.Format(now)) !in fs.files
    ensures var alloc := CreateTemporaryCaptureRequest(sdk, now, cacheDir, None, mkdirsOk, index, fs);
            var req, fs1 := alloc.value.0, alloc.value.2;
            var unwritten := DiscardTemporaryCapture(sdk, index, fs1, req.tempUri, req.tempFile, false);
            var written := FileSystem(fs1.files[req.tempFile.value := bytes], fs1.dirs);
            var after := DiscardTemporaryCapture(sdk, index, written, req.tempUri, req.tempFile, false);
            && !unwritten.0 && unwritten.2 == fs1
            && after.0 && after.2 == fs1
  {
    var alloc := CreateTemporaryCaptureRequest(sdk, now, cacheDir, None, mkdirsOk, index, fs);
    var req, fs1 := alloc.value.0, alloc.value.2;
    var written := FileSystem(fs1.files[req.tempFile.value := bytes], fs1.dirs);
    assert written.files - {req.tempFile.value} == fs1.files;
    assert fs1.files - {req.tempFile.value} == fs1.files;
  }

  /** The storage layer does not itself stop a second finalisation: after a
      successful commit, a discard of the same URI also succeeds and removes
      the photo that was just published. The one-shot guard of the preview
      screen is what prevents this. */
  lemma CommitThenDiscardBothSucceed(sdk: int, index: MediaIndex, id: RecordId)
    requires sdk >= Q && id in index
    ensures var commit := CommitPendingCapture(sdk, index, ContentUri(id), false);
            var discard := DiscardTemporaryCapture(sdk, commit.1, FileSystem(map[], {}), Some(ContentUri(id)), None, false);
            commit.0 && discard.0 && id !in discard.1
  {
  }

  /** The outcome of saving a captured photo for good: the published URI,
      the file path, or both. The saving routine itself belongs to a version
      of this module that is not part of this model; callers only look at
      whether a result came back. */
  datatype SaveResult = SaveResult(savedUri: Option<Uri>, savedFilePath: Option<Path>)

  /** Deletes a temporary capture file if there is one. Only its effect is
      modelled, as its callers rely on it: afterwards the file is gone, and
      the result says whether it was there. */
  function DeleteTempCapture(fs: FileSystem, file: Option<Path>): (r: (bool, FileSystem))
    ensures file.None? ==> r == (false, fs)
    ensures file.Some? ==> (r.0 <==> file.value in fs.files) && file.value !in r.1.files
    ensures r.1.dirs == fs.dirs && r.1.files.Keys <= fs.files.Keys
    ensures forall p :: p in r.1.files ==> r.1.files[p] == fs.files[p]
    ensures file.Some? ==> r.1.files.Keys == fs.files.Keys - {file.value}
  {
    match file
    case None => (false, fs)
    case Some(f) => (f in fs.files, FileSystem(fs.files - {f}, fs.dirs))
  }
}
