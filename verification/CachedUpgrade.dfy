/**
 A cached release as the base of the next one: caching, the search for a base, signatures and the
 download put together (electron/lib/desktop-update-cache.ts:41-104,
 electron/lib/desktop-update-signing.ts:84-102, electron/lib/desktop-update-feed.ts:69-96).
 */
module CachedUpgrade {
  import opened Results
  import opened Sequences
  import opened LocalFiles
  import opened DifferentialPlan
  import opened DifferentialTransfer
  import ManifestSigning
  import JsonReader
  import SignedJson
  import Cache = UpdateCache
  import Feed = UpdateFeed

  /** The keys, the names of files in release directories, and what the network offers as blockmaps. */
  datatype Setting = Setting(
    scheme: ManifestSigning.Scheme,
    publicKey: string,
    fileIn: (Cache.Name, string) -> Path,
    temporaryOf: Cache.Name -> Path,
    fetched: Cache.Name -> Option<seq<Byte>>,
    wellFormed: Cache.Name -> bool)

  /** The manifest as it is signed. */
  function AsSigned(m: Cache.Manifest): ManifestSigning.Manifest {
    ManifestSigning.Manifest(m.format, Cache.VersionText(m.version), m.platform, m.arch, m.artifact, m.updateArchive,
      m.blockMap, m.signature)
  }

  /** What is signed for a cached manifest has its version, platform, architecture and artifacts. */
  lemma SignedAsCached(m: Cache.Manifest)
    ensures AsSigned(m).signature == m.signature
    ensures SignedJson.IsJsonOf(ManifestSigning.SigningBytes(AsSigned(m)), AsSigned(m))
    ensures var members := SignedJson.ManifestMembers(AsSigned(m));
            && |members| >= 5
            && members[1] == ("version", JsonReader.Text(m.version.major + "." + m.version.minor + "." + m.version.patch))
            && members[2] == ("platform", JsonReader.Text(m.platform))
            && members[3] == ("arch", JsonReader.Text(m.arch))
            && members[4] == ("artifact", SignedJson.ArtifactJson(m.artifact))
            && members[5..] == SignedJson.OptionalMember("updateArchive", m.updateArchive)
                               + SignedJson.OptionalMember("blockMap", m.blockMap)
  {
    SignedJson.SigningBytesAreRead(AsSigned(m));
    hide SignedJson.OptionalMember, SignedJson.ArtifactJson, ManifestSigning.SigningBytes;
  }

  /** What the signature check makes of a manifest under the pinned key. */
  function SignatureOf(setting: Setting, m: Cache.Manifest): Feed.Signature {
    match ManifestSigning.VerifyDesktopManifestSignature(setting.scheme, AsSigned(m), setting.publicKey)
    case Ok(genuine) => if genuine then Feed.Genuine else Feed.Unpinned
    case Err(_) => Feed.Forged
  }

  /** Genuine is what a pinned key accepted, and without one nothing is rejected. */
  lemma SignatureMeans(setting: Setting, m: Cache.Manifest)
    ensures SignatureOf(setting, m).Unpinned? <==> setting.publicKey == ""
    ensures SignatureOf(setting, m).Genuine? <==>
              && setting.publicKey != "" && setting.scheme.parse(setting.publicKey).Some?
              && m.signature.Some? && m.signature.value.algorithm == "ed25519"
              && setting.scheme.verify(setting.scheme.parse(setting.publicKey).value,
                   ManifestSigning.SigningBytes(AsSigned(m)), m.signature.value.value)
  {
    hide ManifestSigning.SigningBytes;
  }

  /** The checks of the cache are the signature check and the verification of files on disk. */
  ghost predicate Wired(setting: Setting, checks: Cache.Checks, files: Files, hash: Hash) {
    && (forall m :: checks.signatureHolds(m) <==> !SignatureOf(setting, m).Forged?)
    && (forall name, artifact :: checks.verifies(name, artifact) <==>
          Matches(files, setting.fileIn(name, artifact.name), artifact, hash))
  }

  function MapSource(setting: Setting, name: Cache.Name, metadata: Artifact): Feed.BlockMapSource {
    Feed.BlockMapSource(metadata, setting.fileIn(name, metadata.name), setting.temporaryOf(name),
      setting.fetched(name), setting.wellFormed(name))
  }

  /** The base a download gets from the search; `operations` is computed from the two blockmaps. */
  function FoundBase(setting: Setting, found: Option<(Cache.Release, Cache.Name)>, operations: seq<Operation>): Option<Feed.Base> {
    if found.None? || found.value.0.manifest.blockMap.None? then None
    else
      var (release, name) := found.value;
      var artifact := Cache.UpdateArtifact(release.manifest);
      Some(Feed.Base(setting.fileIn(name, artifact.name), artifact,
        MapSource(setting, name, release.manifest.blockMap.value), SignatureOf(setting, release.manifest).Genuine?, operations))
  }

  /** What downloadDesktopRelease works on for the release with manifest `next`, run by version `current`. */
  function ToDownload(setting: Setting, checks: Cache.Checks, cache: Cache.Cache, next: Cache.Manifest,
                      current: Cache.Version, operations: seq<Operation>): Feed.Release {
    Feed.Release(checks.legacyEnabled, checks.validManifest(next), SignatureOf(setting, next), Cache.UpdateArtifact(next),
      if next.blockMap.Some? then Some(MapSource(setting, Cache.DirectoryOf(next), next.blockMap.value)) else None,
      Cache.Canonical(current) && Cache.Numeric(next.version) && Cache.CompareVersions(current, next.version) < 0,
      FoundBase(setting, Cache.Base(checks, cache, current, next.platform, next.arch), operations))
  }

  /** With a pinned key a signature that is not rejected is genuine, so that of a cached release is. */
  lemma PinnedMeansGenuine(setting: Setting, m: Cache.Manifest, n: Cache.Manifest)
    requires SignatureOf(setting, n).Genuine? && !SignatureOf(setting, m).Forged?
    ensures SignatureOf(setting, m).Genuine?
  {
    hide ManifestSigning.SigningBytes, AsSigned;
  }

  /** What the network and the disk must offer beyond the two releases. */
  ghost predicate Offered(setting: Setting, previous: Cache.Manifest, next: Cache.Manifest, files: Files, hash: Hash,
                          operations: seq<Operation>)
    requires previous.blockMap.Some? && next.blockMap.Some?
  {
    var plan := Coalesced(operations);
    && Feed.Loadable(MapSource(setting, Cache.DirectoryOf(previous), previous.blockMap.value), files, hash)
    && Feed.Loadable(MapSource(setting, Cache.DirectoryOf(next), next.blockMap.value), files, hash)
    && Requests(plan) <= 256
    && 10 * (DownloadBytes(plan) + next.blockMap.value.size + previous.blockMap.value.size)
       < 9 * Cache.UpdateArtifact(next).size
  }

  /** The upstream plan rebuilds the package from the previous one, and the server serves its rewritten form. */
  ghost predicate Rebuilding(operations: seq<Operation>, source: seq<Byte>, package: seq<Byte>, serve: nat -> Reply) {
    && WellFormed(operations, 0, |source|, |package|) && Run(operations, 0, source, package) == package
    && forall k: nat | k < |Coalesced(operations)| :: Served(Coalesced(operations)[k], serve(k), package)
  }

  /**
   A release that was cached is what the next download rebuilds from exactly when: the next one is
   signed under a pinned key, has a blockmap and is newer; the cached one has a blockmap, a record
   within the limit and a package that verifies; both blockmaps can be had; and it pays.
   */
  lemma CachedReleaseIsUpgraded(
      setting: Setting, checks: Cache.Checks, cache: Cache.Cache, data: Cache.Parsed, next: Cache.Manifest,
      operations: seq<Operation>, files: Files, hash: Hash, serve: nat -> Reply, package: seq<Byte>)
    requires Wired(setting, checks, files, hash) && Cache.ChecksNames(checks)
    requires Cache.Validated(checks, data).Some? && checks.validManifest(next)
    requires next.platform == data.manifest.platform && next.arch == data.manifest.arch
    requires Fits(package, Cache.UpdateArtifact(next), hash)
    requires var artifact := Cache.UpdateArtifact(data.manifest);
             var previous := setting.fileIn(Cache.DirectoryOf(data.manifest), artifact.name);
             Matches(files, previous, artifact, hash) ==> Rebuilding(operations, files[previous], package, serve)
    ensures var r := Cache.Validated(checks, data).value;
            var release := ToDownload(setting, checks, Cache.Stored(checks, cache, r), next, data.manifest.version, operations);
            && Cache.Numeric(data.manifest.version) && Cache.Numeric(next.version)
            && (Feed.TakesDifferential(release, files, hash, serve) <==>
                  && SignatureOf(setting, next).Genuine? && next.blockMap.Some? && data.manifest.blockMap.Some?
                  && Cache.CompareVersions(data.manifest.version, next.version) < 0
                  && checks.recordSize(r) <= 100_000
                  && checks.verifies(Cache.DirectoryOf(data.manifest), Cache.UpdateArtifact(data.manifest))
                  && Offered(setting, data.manifest, next, files, hash, operations))
  {
    var r := Cache.Validated(checks, data).value;
    var previous := data.manifest;
    var release := ToDownload(setting, checks, Cache.Stored(checks, cache, r), next, previous.version, operations);
    assert Cache.Canonical(previous.version) && Cache.Canonical(next.version);
    Cache.CachedBaseIsFoundAgain(checks, cache, data);
    Cache.ValidatedAgain(checks, data);
    assert checks.signatureHolds(previous);
    hide Cache.CompareVersions, Cache.Canonical, Cache.Numeric, Cache.Base, Cache.Stored, Cache.Validated, Feed.Rebuildable;
    hide Rebuilding, Feed.Loadable, DownloadBytes, Fits, SignatureOf;
    if && SignatureOf(setting, next).Genuine? && next.blockMap.Some? && release.upgrade && release.base.Some? {
      PinnedMeansGenuine(setting, previous, next);
      BaseWorks(setting, previous, next, release, operations, files, hash, serve, package);
    }
  }

  lemma BaseWorks(
      setting: Setting, previous: Cache.Manifest, next: Cache.Manifest, release: Feed.Release, operations: seq<Operation>,
      files: Files, hash: Hash, serve: nat -> Reply, package: seq<Byte>)
    requires previous.blockMap.Some? && next.blockMap.Some? && SignatureOf(setting, previous).Genuine?
    requires release.signature.Genuine? && release.upgrade && release.artifact == Cache.UpdateArtifact(next)
    requires release.blockMap == Some(MapSource(setting, Cache.DirectoryOf(next), next.blockMap.value))
    requires var artifact := Cache.UpdateArtifact(previous);
             var file := setting.fileIn(Cache.DirectoryOf(previous), artifact.name);
             && release.base == Some(Feed.Base(file, artifact,
                  MapSource(setting, Cache.DirectoryOf(previous), previous.blockMap.value), true, operations))
             && Matches(files, file, artifact, hash) && Rebuilding(operations, files[file], package, serve)
    requires Fits(package, Cache.UpdateArtifact(next), hash)
    ensures Feed.TakesDifferential(release, files, hash, serve) <==> Offered(setting, previous, next, files, hash, operations)
  {
    var base := release.base.value;
    if Feed.Loadable(base.blockMap, files, hash) && Feed.Loadable(release.blockMap.value, files, hash) {
      Feed.ServedUpgradeIsDifferential(release, base, files, hash, serve, package);
    }
    hide Feed.Loadable, DownloadBytes, Feed.Rebuilds, Coalesced, Rebuilding;
  }
}
