/**
 Downloading a desktop release (electron/lib/desktop-update-feed.ts:47-150): try to rebuild
 the package from a cached base, fall back to the full package, publish it by rename.

 Every file system call, read and clock check may fail. The guarantees hold whatever fails; where
 `fs.reliable`, nothing fails but what the inputs decide, and the outcome is determined.
 */
module UpdateFeed {
  import opened Results
  import opened Sequences
  import opened LocalFiles
  import opened DifferentialPlan
  import opened DifferentialTransfer
  import Coalescing

  // ---------------------------------------------------------------------------
  // What a download starts from

  /** A blockmap: where it is cached, the name of its temporary file, and what the network would give. */
  datatype BlockMapSource =
    BlockMapSource(metadata: Artifact, path: Path, temporary: Path, fetched: Option<seq<Byte>>, wellFormed: bool)

  /** A cached base and the plan computed from both blockmaps. */
  datatype Base =
    Base(file: Path, artifact: Artifact, blockMap: BlockMapSource, signed: bool, operations: seq<Operation>)

  /** Checks of the manifest signature: against no key, a good one, or a bad one. */
  datatype Signature = Unpinned | Genuine | Forged

  datatype Release = Release(
    legacyEnabled: bool,          // the legacy update channel; always off in shipped builds
    valid: bool,                  // validateDesktopManifest accepts the manifest
    signature: Signature,
    artifact: Artifact,
    blockMap: Option<BlockMapSource>,
    upgrade: bool,                // the caller names a well-formed, lower current version
    base: Option<Base>)           // findCachedDesktopBase

  datatype Failure =
    | LegacyDisabled | InvalidManifest | InvalidSignature | NoDirectory | RequestFailed
    | TemporaryExists | TemporaryRefused | ReadFailed | WriteFailed | TooLarge | ChecksumMismatch
    | SyncFailed | RemoveFailed | RenameFailed | CleanupFailed
    | DiscardFailed(created: bool)    // removing what a failed differential download had or had not created

  datatype Outcome = Kept | Downloaded(differential: bool) | Threw(failure: Failure)

  /** The failures that come after the temporary package was created and before it is moved into place. */
  predicate LeavesPackage(failure: Failure) {
    match failure
    case ReadFailed => true
    case WriteFailed => true
    case TooLarge => true
    case ChecksumMismatch => true
    case SyncFailed => true
    case RemoveFailed => true
    case RenameFailed => true
    case DiscardFailed(created) => created
    case _ => false
  }

  ghost predicate DisjointMap(m: BlockMapSource, file: Path, temporary: Path) {
    m.path != m.temporary && {m.path, m.temporary} !! {file, temporary}
  }

  /** The paths a download uses are different, and the random names are new. */
  ghost predicate FreshNames(release: Release, file: Path, temporary: Path, files: Files) {
    && file != temporary && temporary !in files
    && (release.blockMap.Some? ==>
          && DisjointMap(release.blockMap.value, file, temporary)
          && release.blockMap.value.temporary !in files)
    && (release.base.Some? ==>
          var m := release.base.value.blockMap;
          && DisjointMap(m, file, temporary) && m.temporary !in files
          && release.base.value.file !in {file, temporary} + MapPaths(release)
          && (release.blockMap.Some? ==>
                {m.path, m.temporary} !! {release.blockMap.value.path, release.blockMap.value.temporary}))
  }

  /** The map is cached, or can be fetched, and is a blockmap. */
  ghost predicate Loadable(m: BlockMapSource, files: Files, hash: Hash) {
    && m.wellFormed
    && (Matches(files, m.path, m.metadata, hash) || (m.fetched.Some? && Fits(m.fetched.value, m.metadata, hash)))
  }

  /** loadBlockMap: a map that is not cached yet is stored through a temporary file. */
  method LoadBlockMap(fs: FileSystem, m: BlockMapSource, hash: Hash) returns (ok: bool, dirty: bool)
    requires m.path != m.temporary && m.temporary !in fs.files
    modifies fs
    ensures Untouched(old(fs.files), fs.files, {m.path, m.temporary})
    ensures Safe(old(fs.files), fs.files, m.path, m.metadata, hash)
    ensures m.temporary in fs.files ==> dirty
    ensures dirty ==> !ok
    ensures ok ==> m.wellFormed && Matches(fs.files, m.path, m.metadata, hash)
    ensures fs.reliable ==> !dirty && (ok <==> Loadable(m, old(fs.files), hash))
  {
    dirty := false;
    var cached, _ := fs.Verify(m.path, m.metadata, hash);
    var bytes := [];
    if cached {
      var unreadable := Fault(fs.reliable);
      if unreadable { return false, false; }
      bytes := fs.files[m.path];
    } else {
      if m.fetched.None? { return false, false; }
      bytes := m.fetched.value;
    }
    if !Fits(bytes, m.metadata, hash) || !m.wellFormed { return false, false; }
    ok := true;
    if !cached { ok, dirty := StoreBlockMap(fs, m, bytes); }
  }

  /** The map goes into place by rename, from a new temporary file that is removed in any case. */
  method StoreBlockMap(fs: FileSystem, m: BlockMapSource, bytes: seq<Byte>) returns (ok: bool, dirty: bool)
    requires m.path != m.temporary && m.temporary !in fs.files
    modifies fs
    ensures Untouched(old(fs.files), fs.files, {m.path, m.temporary})
    ensures m.path in fs.files ==>
      fs.files[m.path] == bytes || (m.path in old(fs.files) && fs.files[m.path] == old(fs.files)[m.path])
    ensures ok ==> m.path in fs.files && fs.files[m.path] == bytes
    ensures m.temporary in fs.files ==> dirty
    ensures dirty ==> !ok
    ensures fs.reliable ==> ok && !dirty
  {
    ok := fs.WriteNew(m.temporary, bytes);
    if ok { ok := fs.Rename(m.temporary, m.path); }
    var removed := fs.Remove(m.temporary);
    dirty := !removed;
    ok := ok && removed;
  }

  lemma StillLoadable(m: BlockMapSource, before: Files, after: Files, paths: set<Path>, hash: Hash)
    requires Untouched(before, after, paths) && m.path !in paths
    ensures Loadable(m, before, hash) <==> Loadable(m, after, hash)
  {
  }

  // A failed attempt may have created its temporary file.
  datatype Attempt = Rebuilt(received: int) | NotWorthwhile | Failed(created: bool)

  function Replies(serve: nat -> Reply, count: nat): seq<Reply> {
    seq(count, i requires 0 <= i => serve(i))
  }

  /** Every operation can be completed from this base and these replies, and what they make verifies. */
  ghost predicate Rebuilds(ops: seq<Operation>, artifact: Artifact, source: seq<Byte>, hash: Hash, serve: nat -> Reply) {
    var replies := Replies(serve, |ops|);
    && Ordered(ops)
    && AllCompleted(ops, source, artifact.size, replies)
    && Fits(Stream(ops, source, replies, |ops|), artifact, hash)
  }

  /** The rewritten plan tiles the package, takes at most 256 requests and less than nine tenths of its bytes. */
  ghost predicate PlanAccepted(release: Release, base: Base)
    requires release.blockMap.Some?
  {
    var plan := Coalesced(base.operations);
    var overhead := release.blockMap.value.metadata.size + base.blockMap.metadata.size;
    && Tiles(plan, base.artifact.size, release.artifact.size)
    && Requests(plan) <= 256
    && 10 * (DownloadBytes(plan) + overhead) < 9 * release.artifact.size
  }

  /** What a differential download needs when nothing fails by chance. */
  ghost predicate Rebuildable(release: Release, base: Base, files: Files, hash: Hash, serve: nat -> Reply) {
    && release.signature.Genuine? && release.blockMap.Some? && base.signed
    && Loadable(base.blockMap, files, hash) && Loadable(release.blockMap.value, files, hash)
    && PlanAccepted(release, base)
    && base.file in files
    && Rebuilds(Coalesced(base.operations), release.artifact, files[base.file], hash, serve)
  }

  /** Both blockmaps, the base's first. */
  method LoadBlockMaps(fs: FileSystem, release: Release, base: Base, file: Path, temporary: Path, hash: Hash)
    returns (ok: bool, dirty: bool)
    requires release.base == Some(base) && release.blockMap.Some? && FreshNames(release, file, temporary, fs.files)
    modifies fs
    ensures Untouched(old(fs.files), fs.files, MapPaths(release))
    ensures MapsSafe(release, old(fs.files), fs.files, hash)
    ensures !dirty ==> MapTemporariesGone(release, fs.files)
    ensures dirty ==> !ok
    ensures fs.reliable ==>
      !dirty && (ok <==> Loadable(base.blockMap, old(fs.files), hash) && Loadable(release.blockMap.value, old(fs.files), hash))
  {
    hide Loadable, Fits;
    ok, dirty := LoadBlockMap(fs, base.blockMap, hash);
    if !ok { return; }
    StillLoadable(release.blockMap.value, old(fs.files), fs.files, {base.blockMap.path, base.blockMap.temporary}, hash);
    ok, dirty := LoadBlockMap(fs, release.blockMap.value, hash);
  }

  /** downloadDesktopDifferential: `NotWorthwhile` is its `false`, and comes before anything is created. */
  method DownloadDifferential(fs: FileSystem, release: Release, base: Base, file: Path, temporary: Path, hash: Hash,
                              serve: nat -> Reply)
    returns (attempt: Attempt, dirty: bool)
    requires release.base == Some(base) && FreshNames(release, file, temporary, fs.files)
    modifies fs
    ensures Untouched(old(fs.files), fs.files, {temporary} + MapPaths(release))
    ensures attempt.NotWorthwhile? ==> temporary !in fs.files
    ensures attempt.Rebuilt? ==> Matches(fs.files, temporary, release.artifact, hash)
    // What was received, and both blockmaps, are less than nine tenths of the package.
    ensures attempt.Rebuilt? ==> release.blockMap.Some? && PlanAccepted(release, base)
    ensures attempt.Rebuilt? ==>
      10 * (attempt.received + release.blockMap.value.metadata.size + base.blockMap.metadata.size) < 9 * release.artifact.size
    ensures attempt.Failed? ==> (attempt.created <==> temporary in fs.files)
    ensures MapsSafe(release, old(fs.files), fs.files, hash)
    ensures !dirty ==> MapTemporariesGone(release, fs.files)
    ensures fs.reliable ==> !dirty && (attempt.Rebuilt? <==> Rebuildable(release, base, old(fs.files), hash, serve))
  {
    hide Loadable, Rebuilds, Tiles;
    dirty := false;
    if release.blockMap.None? || !release.signature.Genuine? { return NotWorthwhile, false; }
    if !base.signed { return Failed(false), false; }
    var ok;
    ok, dirty := LoadBlockMaps(fs, release, base, file, temporary, hash);
    if !ok { return Failed(false), dirty; }
    assert base.file in fs.files <==> base.file in old(fs.files);
    var operations := CoalesceDifferentialRanges(base.operations);
    var plan := CheckPlan(operations, base.artifact.size, release.artifact.size);
    if plan.Err? { return Failed(false), false; }
    var overhead := release.blockMap.value.metadata.size + base.blockMap.metadata.size;
    if !Worthwhile(plan.value, overhead, release.artifact.size) { return NotWorthwhile, false; }
    attempt := TransferPlan(fs, operations, plan.value.downloadSize, base, release.artifact, temporary, hash, serve);
  }

  /** The open files of the differential download: run the plan into a new temporary file, then verify it. */
  method TransferPlan(fs: FileSystem, operations: seq<Operation>, downloadSize: int, base: Base, artifact: Artifact,
                      temporary: Path, hash: Hash, serve: nat -> Reply)
    returns (attempt: Attempt)
    requires Tiles(operations, base.artifact.size, artifact.size) && downloadSize == DownloadBytes(operations)
    requires temporary !in fs.files
    modifies fs
    ensures Untouched(old(fs.files), fs.files, {temporary})
    ensures !attempt.NotWorthwhile?
    ensures attempt.Rebuilt? ==> Matches(fs.files, temporary, artifact, hash)
    ensures attempt.Rebuilt? ==> attempt.received == downloadSize
    ensures attempt.Failed? ==> (attempt.created <==> temporary in fs.files)
    ensures fs.reliable ==>
      (attempt.Rebuilt? <==>
         base.file in old(fs.files) && Rebuilds(operations, artifact, old(fs.files)[base.file], hash, serve))
  {
    hide Stream, Completed, Tiles, DownloadBytes;
    var unreadable := Fault(fs.reliable);
    if unreadable || base.file !in fs.files { return Failed(false); }
    var source := fs.files[base.file];
    var created := fs.CreateExclusive(temporary);
    if !created.Created? { return Failed(false); }
    Forward(operations, base.artifact.size, artifact.size);
    var transfer := new Transfer(downloadSize, artifact.size, fs.reliable);
    var replies := Replies(serve, |operations|);
    var error, _ := Execute(transfer, operations, base.artifact.size, artifact.size, source, replies);
    fs.files := fs.files[temporary := transfer.target];
    if error.Some? { return Failed(true); }
    var verified, _ := fs.Verify(temporary, artifact, hash);
    attempt := if verified then Rebuilt(transfer.downloadedBytes) else Failed(true);
  }

  lemma Forward(operations: seq<Operation>, baseSize: int, size: int)
    requires Tiles(operations, baseSize, size)
    ensures Ordered(operations) && DownloadBytes(operations) >= 0
  {
    Coalescing.ForwardOperations(operations, 0, baseSize, size);
    Coalescing.NonNegativeBytes(operations);
  }

  ghost function MapPaths(release: Release): set<Path> {
    (if release.blockMap.Some? then {release.blockMap.value.path, release.blockMap.value.temporary} else {})
    + (if release.base.Some? then {release.base.value.blockMap.path, release.base.value.blockMap.temporary} else {})
  }

  ghost predicate MapsSafe(release: Release, before: Files, after: Files, hash: Hash) {
    && (release.blockMap.Some? ==> Safe(before, after, release.blockMap.value.path, release.blockMap.value.metadata, hash))
    && (release.base.Some? ==>
          Safe(before, after, release.base.value.blockMap.path, release.base.value.blockMap.metadata, hash))
  }

  ghost predicate MapTemporariesGone(release: Release, files: Files) {
    && (release.blockMap.Some? ==> release.blockMap.value.temporary !in files)
    && (release.base.Some? ==> release.base.value.blockMap.temporary !in files)
  }

  /** Removes the old package and moves the new one into place. */
  method Publish(fs: FileSystem, file: Path, temporary: Path, artifact: Artifact, hash: Hash) returns (failure: Option<Failure>)
    requires file != temporary && Matches(fs.files, temporary, artifact, hash)
    modifies fs
    ensures Untouched(old(fs.files), fs.files, {file, temporary})
    ensures Safe(old(fs.files), fs.files, file, artifact, hash)
    ensures failure.None? ==> Matches(fs.files, file, artifact, hash) && temporary !in fs.files
    ensures failure.Some? ==> (failure.value.RemoveFailed? || failure.value.RenameFailed?) && temporary in fs.files
    ensures fs.reliable ==> failure.None?
  {
    var removed := fs.Remove(file);
    if !removed { return Some(RemoveFailed); }
    var renamed := fs.Rename(temporary, file);
    failure := if renamed then None else Some(RenameFailed);
  }

  /** The response is the package. */
  ghost predicate Delivers(response: Option<seq<seq<Byte>>>, artifact: Artifact, hash: Hash) {
    response.Some? && Fits(Joined(response.value, |response.value|), artifact, hash)
  }

  /** What is wrong with a response that is not the package. */
  ghost function FullFailure(response: Option<seq<seq<Byte>>>, artifact: Artifact): Failure {
    if response.None? then Failure.RequestFailed
    else if |Joined(response.value, |response.value|)| > artifact.size then TooLarge
    else ChecksumMismatch
  }

  /** The full download, up to the checked temporary file. */
  method DownloadFull(fs: FileSystem, temporary: Path, artifact: Artifact, hash: Hash, response: Option<seq<seq<Byte>>>)
    returns (failure: Option<Failure>)
    requires temporary !in fs.files
    modifies fs
    ensures Untouched(old(fs.files), fs.files, {temporary})
    ensures failure.None? ==> Matches(fs.files, temporary, artifact, hash)
    ensures failure != Some(TemporaryExists) && failure != Some(CleanupFailed)
    ensures failure.Some? ==> (LeavesPackage(failure.value) <==> temporary in fs.files)
    ensures fs.reliable ==>
      failure == if Delivers(response, artifact, hash) then None else Some(FullFailure(response, artifact))
  {
    if response.None? { return Some(Failure.RequestFailed); }
    var chunks := response.value;
    var created := fs.CreateExclusive(temporary);
    if !created.Created? {
      return Some(if created.Exists? then TemporaryExists else TemporaryRefused);
    }
    failure := WriteChunks(fs, temporary, chunks, artifact, hash);
    if failure.Some? { return; }
    var unsynced := Fault(fs.reliable);
    failure := if unsynced then Some(Failure.SyncFailed) else None;
  }

  /** Streams the body to the file, hashing as it goes; the total is checked before it is trusted. */
  method WriteChunks(fs: FileSystem, temporary: Path, chunks: seq<seq<Byte>>, artifact: Artifact, hash: Hash)
    returns (failure: Option<Failure>)
    requires temporary in fs.files && fs.files[temporary] == []
    modifies fs
    ensures Untouched(old(fs.files), fs.files, {temporary}) && temporary in fs.files
    ensures failure.None? ==> Matches(fs.files, temporary, artifact, hash)
    ensures failure != Some(TemporaryExists) && failure != Some(CleanupFailed)
    ensures failure.Some? ==> LeavesPackage(failure.value)
    ensures failure.None? ==> Delivers(Some(chunks), artifact, hash)
    ensures fs.reliable ==>
      failure == if Delivers(Some(chunks), artifact, hash) then None else Some(FullFailure(Some(chunks), artifact))
  {
    hide Joined;
    var size := 0;
    var hashed: seq<Byte> := [];
    NothingJoined(chunks);
    for i := 0 to |chunks|
      invariant temporary in fs.files && fs.files[temporary] == hashed && |hashed| == size
      invariant hashed == Joined(chunks, i) && size <= artifact.size
      invariant Untouched(old(fs.files), fs.files, {temporary})
    {
      JoinedSoFar(chunks, i);
      var unread := Fault(fs.reliable);
      if unread { return Some(Failure.ReadFailed); }
      size := size + |chunks[i]|;
      if size > artifact.size { return Some(TooLarge); }
      hashed := hashed + chunks[i];
      var written := fs.Append(temporary, chunks[i]);
      if !written { return Some(Failure.WriteFailed); }
    }
    var unread := Fault(fs.reliable);
    if unread { return Some(Failure.ReadFailed); }
    failure := if size != artifact.size || hash(hashed) != artifact.sha256 then Some(ChecksumMismatch) else None;
  }

  lemma NothingJoined(chunks: seq<seq<Byte>>)
    ensures Joined(chunks, 0) == []
  {
  }

  lemma JoinedSoFar(chunks: seq<seq<Byte>>, i: nat)
    requires i < |chunks|
    ensures Joined(chunks, i + 1) == Joined(chunks, i) + chunks[i]
    ensures |Joined(chunks, i + 1)| <= |Joined(chunks, |chunks|)|
  {
    JoinedIsPrefix(chunks, i + 1, |chunks|);
  }

  /** A file matches an artifact if it has its size and its digest. */
  lemma MatchesMeans(hash: Hash)
    ensures forall files: Files, path, artifact ::
      Matches(files, path, artifact, hash)
      <==> path in files && |files[path]| == artifact.size && hash(files[path]) == artifact.sha256
  {
  }

  /** The release may be downloaded at all. */
  predicate Admitted(release: Release) {
    release.legacyEnabled && release.valid && !release.signature.Forged?
  }

  /**
   downloadDesktopRelease. `misread` says that the check of the destination at entry could not
   read it, `dirty` that removing a temporary file failed, and `cause` what the download had come to
   before its last removal, whose failure takes its place.
   */
  method DownloadDesktopRelease(fs: FileSystem, release: Release, file: Path, temporary: Path, hash: Hash,
                                serve: nat -> Reply, response: Option<seq<seq<Byte>>>)
    returns (outcome: Outcome, misread: bool, dirty: bool, cause: Outcome)
    requires FreshNames(release, file, temporary, fs.files)
    modifies fs
    // A normal return means the package is there and verified.
    ensures !outcome.Threw? ==> Matches(fs.files, file, release.artifact, hash)
    ensures !outcome.Threw? ==>
      file in fs.files && |fs.files[file]| == release.artifact.size && hash(fs.files[file]) == release.artifact.sha256
    // A package that verified at entry is kept, and then nothing at all has changed.
    ensures outcome.Kept? ==> fs.files == old(fs.files)
    ensures Matches(old(fs.files), file, release.artifact, hash) && !misread ==> fs.files == old(fs.files)
    // Whatever fails, the destination is as it was, absent, or verified.
    ensures Safe(old(fs.files), fs.files, file, release.artifact, hash)
    ensures MapsSafe(release, old(fs.files), fs.files, hash)
    // Temporary files are gone unless a removal failed; a temporary package stays exactly when the
    // download had failed between creating and moving it, and its final removal failed as well.
    ensures !dirty ==> temporary !in fs.files && MapTemporariesGone(release, fs.files)
    ensures outcome != cause ==> outcome == Threw(CleanupFailed)
    ensures temporary in fs.files <==>
      outcome == Threw(CleanupFailed) && cause.Threw? && LeavesPackage(cause.failure)
    // The full download never collides with what the differential one left.
    ensures outcome != Threw(TemporaryExists)
    // Rebuilding from a base needs a genuine signature, blockmaps and an older current version.
    ensures outcome == Downloaded(true) ==>
      release.signature.Genuine? && release.blockMap.Some? && release.upgrade && release.base.Some?
    // It transfers less than the package: fewer than nine tenths of its bytes, blockmaps included.
    ensures outcome == Downloaded(true) ==> Saves(release)
    // Nothing else is touched; a disabled channel or a bad manifest touches nothing.
    ensures Untouched(old(fs.files), fs.files, {file, temporary} + MapPaths(release))
    ensures !Admitted(release) ==> outcome == cause && !misread && !dirty && fs.files == old(fs.files)
    ensures !release.legacyEnabled ==> outcome == Threw(LegacyDisabled)
    ensures release.legacyEnabled && !release.valid ==> outcome == Threw(InvalidManifest)
    ensures release.legacyEnabled && release.valid && release.signature.Forged? ==> outcome == Threw(InvalidSignature)
    // When nothing fails by chance the outcome is decided by what is on disk and on the network.
    ensures fs.reliable && Admitted(release) ==>
      && !dirty && !misread
      && if Matches(old(fs.files), file, release.artifact, hash) then outcome.Kept?
         else Determined(release, old(fs.files), hash, serve, response, outcome)
  {
    MatchesMeans(hash);
    hide Determined, Fits, Matches;
    misread, dirty, cause := false, false, Threw(LegacyDisabled);
    if !release.legacyEnabled { return cause, false, false, cause; }
    cause := Threw(InvalidManifest);
    if !release.valid { return cause, false, false, cause; }
    cause := Threw(InvalidSignature);
    if release.signature.Forged? { return cause, false, false, cause; }
    cause := Threw(NoDirectory);
    var noDirectory := Fault(fs.reliable);
    if noDirectory { return cause, false, false, cause; }
    var present;
    present, misread := fs.Verify(file, release.artifact, hash);
    if present { return Kept, misread, false, Kept; }
    var mapsDirty;
    cause, mapsDirty := Attempts(fs, release, file, temporary, hash, serve, response);
    var removed := fs.Remove(temporary);
    dirty := mapsDirty || !removed;
    outcome := if removed then cause else Threw(CleanupFailed);
  }

  /**
   The source's inner `try`: an outcome that ends the download, or none when the full download
   is next, and then the temporary file is gone.
   */
  method TryDifferential(fs: FileSystem, release: Release, file: Path, temporary: Path, hash: Hash, serve: nat -> Reply)
    returns (outcome: Option<Outcome>, dirty: bool)
    requires FreshNames(release, file, temporary, fs.files)
    requires release.signature.Genuine? && release.blockMap.Some? && release.upgrade && release.base.Some?
    modifies fs
    ensures outcome.Some? ==> outcome == Some(Downloaded(true)) || (outcome.value.Threw? && outcome.value.failure.DiscardFailed?)
    ensures outcome == Some(Downloaded(true)) ==> Matches(fs.files, file, release.artifact, hash) && Saves(release)
    ensures outcome.Some? ==>
      (temporary in fs.files <==> outcome.value.Threw? && LeavesPackage(outcome.value.failure))
    ensures outcome.None? ==> temporary !in fs.files
    ensures Safe(old(fs.files), fs.files, file, release.artifact, hash)
    ensures MapsSafe(release, old(fs.files), fs.files, hash)
    ensures !dirty ==> MapTemporariesGone(release, fs.files)
    ensures Untouched(old(fs.files), fs.files, {file, temporary} + MapPaths(release))
    ensures fs.reliable ==>
      !dirty && outcome == if Rebuildable(release, release.base.value, old(fs.files), hash, serve)
                           then Some(Downloaded(true)) else None
  {
    hide Rebuildable, Fits, PlanAccepted, Saves;
    var attempt;
    attempt, dirty := DownloadDifferential(fs, release, release.base.value, file, temporary, hash, serve);
    if attempt.NotWorthwhile? { return None, dirty; }
    if attempt.Rebuilt? {
      AcceptedSaves(release, release.base.value);
      var failure := Publish(fs, file, temporary, release.artifact, hash);
      if failure.None? { return Some(Downloaded(true)), dirty; }
    }
    var removed := fs.Remove(temporary);
    outcome := if removed then None else Some(Threw(DiscardFailed(attempt.Rebuilt? || attempt.created)));
  }

  lemma AcceptedSaves(release: Release, base: Base)
    requires release.base == Some(base) && release.blockMap.Some? && PlanAccepted(release, base)
    ensures Saves(release)
  {
    hide DownloadBytes, Coalesced, Tiles;
  }

  /** A differential download is attempted and would succeed. */
  ghost predicate TakesDifferential(release: Release, files: Files, hash: Hash, serve: nat -> Reply) {
    && release.signature.Genuine? && release.blockMap.Some? && release.upgrade && release.base.Some?
    && Rebuildable(release, release.base.value, files, hash, serve)
  }

  /** When nothing fails by chance, the differential package if it can be rebuilt, else the full one if it is right. */
  ghost predicate Determined(release: Release, files: Files, hash: Hash, serve: nat -> Reply,
                             response: Option<seq<seq<Byte>>>, outcome: Outcome) {
    if TakesDifferential(release, files, hash, serve) then outcome == Downloaded(true)
    else if Delivers(response, release.artifact, hash) then outcome == Downloaded(false)
    else outcome == Threw(FullFailure(response, release.artifact))
  }

  /** The plan that was run downloads, together with both blockmaps, less than nine tenths of the package. */
  ghost predicate Saves(release: Release) {
    && release.base.Some? && release.blockMap.Some?
    && var downloaded := DownloadBytes(Coalesced(release.base.value.operations));
       var overhead := release.blockMap.value.metadata.size + release.base.value.blockMap.metadata.size;
       10 * (downloaded + overhead) < 9 * release.artifact.size && downloaded + overhead < release.artifact.size
  }

  /** The body of the source's outer `try`. */
  method Attempts(fs: FileSystem, release: Release, file: Path, temporary: Path, hash: Hash,
                  serve: nat -> Reply, response: Option<seq<seq<Byte>>>)
    returns (outcome: Outcome, dirty: bool)
    requires FreshNames(release, file, temporary, fs.files)
    modifies fs
    ensures !outcome.Threw? ==> Matches(fs.files, file, release.artifact, hash)
    ensures !outcome.Kept? && outcome != Threw(TemporaryExists) && outcome != Threw(CleanupFailed)
    ensures temporary in fs.files <==> outcome.Threw? && LeavesPackage(outcome.failure)
    ensures outcome == Downloaded(true) ==>
      release.signature.Genuine? && release.blockMap.Some? && release.upgrade && release.base.Some?
    ensures outcome == Downloaded(true) ==> Saves(release)
    ensures Safe(old(fs.files), fs.files, file, release.artifact, hash)
    ensures MapsSafe(release, old(fs.files), fs.files, hash)
    ensures !dirty ==> MapTemporariesGone(release, fs.files)
    ensures Untouched(old(fs.files), fs.files, {file, temporary} + MapPaths(release))
    ensures fs.reliable ==> !dirty && Determined(release, old(fs.files), hash, serve, response, outcome)
  {
    hide Rebuildable, Delivers, Fits, Safe, MapsSafe, MapTemporariesGone;
    dirty := false;
    NothingTouched(release, fs.files, file, hash);
    if release.signature.Genuine? && release.blockMap.Some? && release.upgrade && release.base.Some? {
      var ended;
      ended, dirty := TryDifferential(fs, release, file, temporary, hash, serve);
      if ended.Some? { return ended.value, dirty; }
    }
    ghost var middle := fs.files;
    outcome := FallBack(fs, file, temporary, release.artifact, hash, response);
    SafeStays(release, old(fs.files), middle, fs.files, file, temporary, hash);
  }

  lemma NothingTouched(release: Release, files: Files, file: Path, hash: Hash)
    ensures Safe(files, files, file, release.artifact, hash) && MapsSafe(release, files, files, hash)
    ensures (release.blockMap.Some? ==> release.blockMap.value.temporary !in files)
         && (release.base.Some? ==> release.base.value.blockMap.temporary !in files)
        ==> MapTemporariesGone(release, files)
  {
  }

  /** The full package, downloaded and published. */
  method FallBack(fs: FileSystem, file: Path, temporary: Path, artifact: Artifact, hash: Hash,
                  response: Option<seq<seq<Byte>>>)
    returns (outcome: Outcome)
    requires file != temporary && temporary !in fs.files
    modifies fs
    ensures outcome == Downloaded(false) || outcome.Threw?
    ensures outcome != Threw(TemporaryExists) && outcome != Threw(CleanupFailed)
    ensures temporary in fs.files <==> outcome.Threw? && LeavesPackage(outcome.failure)
    ensures !outcome.Threw? ==> Matches(fs.files, file, artifact, hash)
    ensures Safe(old(fs.files), fs.files, file, artifact, hash)
    ensures Untouched(old(fs.files), fs.files, {file, temporary})
    ensures fs.reliable ==>
      outcome == if Delivers(response, artifact, hash) then Downloaded(false) else Threw(FullFailure(response, artifact))
  {
    hide Delivers, Fits;
    var failure := DownloadFull(fs, temporary, artifact, hash, response);
    if failure.Some? { return Threw(failure.value); }
    failure := Publish(fs, file, temporary, artifact, hash);
    outcome := if failure.None? then Downloaded(false) else Threw(failure.value);
  }

  /** What was safe before the full download is safe after it. */
  lemma SafeStays(release: Release, before: Files, middle: Files, after: Files, file: Path, temporary: Path, hash: Hash)
    requires FreshNames(release, file, temporary, before)
    requires Safe(before, middle, file, release.artifact, hash) && MapsSafe(release, before, middle, hash)
    requires Safe(middle, after, file, release.artifact, hash) && Untouched(middle, after, {file, temporary})
    ensures Safe(before, after, file, release.artifact, hash) && MapsSafe(release, before, after, hash)
    ensures MapTemporariesGone(release, middle) ==> MapTemporariesGone(release, after)
  {
    hide Fits;
  }

  /**
   From the upstream plan to the outcome: if the plan rebuilds the new package from the cached one
   and the server answers its rewritten form range by range, the differential download is the one
   that is taken exactly when it takes at most 256 requests and less than nine tenths of the bytes.
   */
  lemma ServedUpgradeIsDifferential(release: Release, base: Base, files: Files, hash: Hash, serve: nat -> Reply,
                                    package: seq<Byte>)
    requires release.signature.Genuine? && release.blockMap.Some? && release.upgrade
    requires release.base == Some(base) && base.signed
    requires Loadable(base.blockMap, files, hash) && Loadable(release.blockMap.value, files, hash)
    requires base.file in files && |files[base.file]| == base.artifact.size && Fits(package, release.artifact, hash)
    requires WellFormed(base.operations, 0, base.artifact.size, |package|)
    requires Run(base.operations, 0, files[base.file], package) == package
    requires forall k: nat | k < |Coalesced(base.operations)| :: Served(Coalesced(base.operations)[k], serve(k), package)
    ensures TakesDifferential(release, files, hash, serve) <==>
      var plan := Coalesced(base.operations);
      && Requests(plan) <= 256
      && 10 * (DownloadBytes(plan) + release.blockMap.value.metadata.size + base.blockMap.metadata.size) < 9 * |package|
  {
    var plan := Coalesced(base.operations);
    var replies := Replies(serve, |plan|);
    hide Coalesced, Run, Served, Stream, DownloadBytes, Requests, Loadable, WellFormed, Tiles, AllCompleted, Ordered;
    ServedPlanCompletes(base.operations, files[base.file], package, replies);
  }
}
