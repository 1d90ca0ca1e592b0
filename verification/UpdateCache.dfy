/**
 The cache of downloaded desktop releases (electron/lib/desktop-update-cache.ts): one directory
 per version, platform and architecture, holding a record of the release and its package.
 */
module UpdateCache {
  import opened Results
  import opened Sequences
  import opened Decimals
  import ManifestSigning
  import LocalFiles

  /** A version as written: three runs of digits, possibly with leading zeros. */
  datatype Version = Version(major: string, minor: string, patch: string)

  predicate Digits(s: string) {
    s != "" && forall c | c in s :: IsDigit(c)
  }

  predicate Numeric(v: Version) {
    Digits(v.major) && Digits(v.minor) && Digits(v.patch)
  }

  /** No leading zeros, as release versions must be. */
  predicate Canonical(v: Version) {
    Numeric(v) && forall s | s in [v.major, v.minor, v.patch] :: s[0] == '0' ==> |s| == 1
  }

  function VersionText(v: Version): string {
    v.major + "." + v.minor + "." + v.patch
  }

  function Compare(a: nat, b: nat): int {
    if a > b then 1 else if a < b then -1 else 0
  }

  /** The first component that differs decides. */
  function CompareVersions(a: Version, b: Version): int
    requires Numeric(a) && Numeric(b)
  {
    var major := Compare(ValueOf(a.major), ValueOf(b.major));
    var minor := Compare(ValueOf(a.minor), ValueOf(b.minor));
    if major != 0 then major else if minor != 0 then minor else Compare(ValueOf(a.patch), ValueOf(b.patch))
  }

  type Artifact = LocalFiles.Artifact

  datatype Manifest = Manifest(
    format: nat, version: Version, platform: string, arch: string, artifact: Artifact,
    updateArchive: Option<Artifact>, blockMap: Option<Artifact>, signature: Option<ManifestSigning.Signature>)

  function UpdateArtifact(m: Manifest): Artifact {
    if m.updateArchive.Some? then m.updateArchive.value else m.artifact
  }

  datatype Release = Release(manifest: Manifest, url: string, notes: string)

  // What a record parses to; the notes may be missing or not a string.
  datatype Parsed = Parsed(manifest: Manifest, url: string, notes: Option<string>)

  // `{version}-{platform}-{arch}`
  datatype Name = Name(version: Version, platform: string, arch: string)

  /** A record on disk: its kind, its size, and what parsing it gives. */
  datatype Record = Record(isFile: bool, size: nat, content: Option<Parsed>)

  /** An entry of the cache directory. A record that is absent or cannot be read is `None`. */
  datatype Entry = Entry(isDirectory: bool, record: Option<Record>)

  /** The checks done elsewhere: manifests, their signatures, release URLs and packages. */
  datatype Checks = Checks(
    legacyEnabled: bool,
    validManifest: Manifest -> bool,
    signatureHolds: Manifest -> bool,       // false where the check throws
    urlOf: Manifest -> string,
    verifies: (Name, Artifact) -> bool,     // the package in that directory
    recordSize: Release -> nat)             // bytes of the release as JSON

  const NOTES_LIMIT := 20_000
  const RECORD_LIMIT := 100_000
  const PLATFORMS := ["darwin", "win32"]
  const ARCHS := ["arm64", "x64"]

  function DirectoryOf(m: Manifest): Name {
    Name(m.version, m.platform, m.arch)
  }

  function Slice(notes: string): string {
    if |notes| <= NOTES_LIMIT then notes else notes[..NOTES_LIMIT]
  }

  /** validateCachedRelease; `None` where it throws. */
  function Validated(checks: Checks, data: Parsed): Option<Release> {
    if !checks.validManifest(data.manifest) || !checks.signatureHolds(data.manifest) || !checks.legacyEnabled
       || data.url != checks.urlOf(data.manifest)
    then None
    else Some(Release(data.manifest, data.url, if data.notes.Some? then Slice(data.notes.value) else ""))
  }

  /** The release an entry holds, as far as its record goes. */
  function Recorded(checks: Checks, name: Name, entry: Entry): Option<Release> {
    if entry.record.None? || !entry.record.value.isFile || entry.record.value.size > RECORD_LIMIT
       || entry.record.value.content.None?
    then None
    else
      var release := Validated(checks, entry.record.value.content.value);
      if release.Some? && DirectoryOf(release.value.manifest) == name then release else None
  }

  predicate Verified(checks: Checks, name: Name, entry: Entry) {
    var release := Recorded(checks, name, entry);
    release.Some? && checks.verifies(name, UpdateArtifact(release.value.manifest))
  }

  type Cache = map<Name, Entry>

  /** A directory of the right platform with a newer version. */
  predicate Candidate(cache: Cache, name: Name, current: Version, platform: string, arch: string)
    requires Numeric(current)
  {
    && name in cache && cache[name].isDirectory
    && Numeric(name.version) && name.platform in PLATFORMS && name.arch in ARCHS
    && name.platform == platform && name.arch == arch
    && CompareVersions(name.version, current) > 0
  }

  // ---------------------------------------------------------------------------
  // Newest first

  ghost predicate Newest(names: seq<Name>) {
    && (forall n | n in names :: Numeric(n.version))
    && forall i, j | 0 <= i < j < |names| :: CompareVersions(names[i].version, names[j].version) >= 0
  }

  lemma CompareIsTransitive(a: Version, b: Version, c: Version)
    requires Numeric(a) && Numeric(b) && Numeric(c)
    requires CompareVersions(a, b) >= 0 && CompareVersions(b, c) >= 0
    ensures CompareVersions(a, c) >= 0
  {
    hide ValueOf;
  }

  lemma CompareIsTotal(a: Version, b: Version)
    requires Numeric(a) && Numeric(b)
    ensures CompareVersions(a, b) == -CompareVersions(b, a)
  {
    hide ValueOf;
  }

  /** Insertion into a list sorted newest first, after its equals. */
  function Inserted(name: Name, names: seq<Name>): (r: seq<Name>)
    requires Numeric(name.version) && forall n | n in names :: Numeric(n.version)
    ensures multiset(r) == multiset(names) + multiset{name}
  {
    if names == [] then [name]
    else if CompareVersions(names[|names| - 1].version, name.version) >= 0 then names + [name]
    else
      var r := Inserted(name, names[..|names| - 1]) + [names[|names| - 1]];
      assert names == names[..|names| - 1] + [names[|names| - 1]];
      r
  }

  lemma InsertedMembers(name: Name, names: seq<Name>)
    requires Numeric(name.version) && forall n | n in names :: Numeric(n.version)
    ensures forall n | n in Inserted(name, names) :: n == name || n in names
  {
    var r := Inserted(name, names);
    hide Inserted, Numeric;
    assert forall n :: n in r ==> n in multiset(r);
  }

  lemma EarlierIsNewer(names: seq<Name>, n: Name)
    requires Newest(names) && names != [] && n in names[..|names| - 1]
    ensures Numeric(n.version) && CompareVersions(n.version, names[|names| - 1].version) >= 0
  {
    hide CompareVersions, Numeric;
    var k :| 0 <= k < |names| - 1 && names[..|names| - 1][k] == n;
    assert names[k] == n;
  }

  lemma {:induction false} InsertedIsSorted(name: Name, names: seq<Name>)
    requires Newest(names) && Numeric(name.version)
    ensures Newest(Inserted(name, names))
    decreases |names|
  {
    hide CompareVersions, Numeric;
    if names != [] {
      var init, last := names[..|names| - 1], names[|names| - 1];
      if CompareVersions(last.version, name.version) >= 0 {
        forall i | 0 <= i < |names|
          ensures CompareVersions(names[i].version, name.version) >= 0
        {
          if i < |names| - 1 { CompareIsTransitive(names[i].version, last.version, name.version); }
        }
      } else {
        InsertedIsSorted(name, init);
        CompareIsTotal(last.version, name.version);
        var r := Inserted(name, init);
        InsertedMembers(name, init);
        hide Inserted;
        forall i | 0 <= i < |r|
          ensures Numeric(r[i].version) && CompareVersions(r[i].version, last.version) >= 0
        {
          assert r[i] in r;
          if r[i] != name { EarlierIsNewer(names, r[i]); }
        }
      }
    }
  }

  function SortedNewestFirst(names: seq<Name>): (r: seq<Name>)
    requires forall n | n in names :: Numeric(n.version)
    ensures multiset(r) == multiset(names)
  {
    if names == [] then []
    else
      var init := SortedNewestFirst(names[..|names| - 1]);
      assert names == names[..|names| - 1] + [names[|names| - 1]];
      assert forall n | n in init :: n in multiset(init);
      Inserted(names[|names| - 1], init)
  }

  lemma {:induction false} SortIsSorted(names: seq<Name>)
    requires forall n | n in names :: Numeric(n.version)
    ensures Newest(SortedNewestFirst(names))
  {
    if names != [] {
      SortIsSorted(names[..|names| - 1]);
      InsertedIsSorted(names[|names| - 1], SortedNewestFirst(names[..|names| - 1]));
    }
  }

  // ---------------------------------------------------------------------------
  // Finding releases

  /** Reading the cache directory: it may not exist, or not be readable. */
  datatype Listing = Missing | Unreadable | Names(names: seq<Name>)
  datatype Search = Found(release: Release, name: Name) | NotFound | ListingFailed

  ghost predicate Lists(listing: Listing, cache: Cache) {
    match listing
    case Names(names) => forall n :: n in names <==> n in cache
    case Missing => cache == map[]
    case Unreadable => true
  }

  ghost predicate Eligible(checks: Checks, cache: Cache, name: Name, current: Version, platform: string, arch: string)
    requires Numeric(current)
  {
    Candidate(cache, name, current, platform, arch) && Verified(checks, name, cache[name])
  }

  /** A verified release newer than the current one that no other such release exceeds, or none if there is none. */
  ghost predicate IsNewest(checks: Checks, cache: Cache, current: Version, platform: string, arch: string, r: Search)
    requires Numeric(current)
  {
    match r
    case Found(release, name) =>
      && Eligible(checks, cache, name, current, platform, arch)
      && Some(release) == Recorded(checks, name, cache[name])
      && forall n | Eligible(checks, cache, n, current, platform, arch) :: CompareVersions(n.version, name.version) <= 0
    case NotFound => forall n :: !Eligible(checks, cache, n, current, platform, arch)
    case ListingFailed => false
  }

  /** The source's filter. */
  method Candidates(cache: Cache, names: seq<Name>, current: Version, platform: string, arch: string)
    returns (candidates: seq<Name>)
    requires Numeric(current)
    ensures forall n :: n in candidates <==> n in names && Candidate(cache, n, current, platform, arch)
  {
    candidates := [];
    for i := 0 to |names|
      invariant forall n :: n in candidates <==> n in names[..i] && Candidate(cache, n, current, platform, arch)
    {
      TakeLast(names, i);
      if Candidate(cache, names[i], current, platform, arch) { candidates := candidates + [names[i]]; }
    }
    Whole(names);
  }

  /**
   The newest verified release for the platform, newer than the current one; none exactly when
   no candidate verifies.
   */
  method FindCachedDesktopRelease(checks: Checks, cache: Cache, listing: Listing,
                                  current: Version, platform: string, arch: string)
    returns (r: Search)
    requires Numeric(current) && Lists(listing, cache)
    ensures r.ListingFailed? <==> listing.Unreadable?
    ensures !r.ListingFailed? ==> IsNewest(checks, cache, current, platform, arch, r)
  {
    hide Recorded, CompareVersions, Numeric, Verified, Candidate;
    match listing {
      case Missing =>
        NoneListed(cache, current, platform, arch);
        return NotFound;
      case Unreadable => return ListingFailed;
      case Names(names) =>
        var filtered := Candidates(cache, names, current, platform, arch);
        CandidatesAreListed(cache, current, platform, arch);
        var candidates := SortedNewestFirst(filtered);
        SortIsSorted(filtered);
        SameMembers(candidates, filtered);
        r := FirstVerified(checks, cache, candidates);
    }
  }

  /** Takes the first candidate that verifies; in a list sorted newest first none that verifies is above it. */
  method FirstVerified(checks: Checks, cache: Cache, candidates: seq<Name>) returns (r: Search)
    requires Newest(candidates) && forall n | n in candidates :: n in cache
    ensures r.Found? ==>
      && r.name in candidates && Verified(checks, r.name, cache[r.name])
      && Some(r.release) == Recorded(checks, r.name, cache[r.name])
      && forall n | n in candidates && Verified(checks, n, cache[n]) :: CompareVersions(n.version, r.name.version) <= 0
    ensures r.NotFound? ==> forall n | n in candidates :: !Verified(checks, n, cache[n])
    ensures !r.ListingFailed?
  {
    hide Recorded, CompareVersions, Verified, Newest;
    for i := 0 to |candidates|
      invariant forall k | 0 <= k < i :: !Verified(checks, candidates[k], cache[candidates[k]])
    {
      var name := candidates[i];
      var release := Recorded(checks, name, cache[name]);
      VerifiedMeans(checks, name, cache[name]);
      if release.Some? && checks.verifies(name, UpdateArtifact(release.value.manifest)) {
        NewestVerified(checks, cache, candidates, i);
        return Found(release.value, name);
      }
    }
    return NotFound;
  }

  lemma NoneListed(cache: Cache, current: Version, platform: string, arch: string)
    requires Numeric(current)
    ensures cache == map[] ==> forall n :: !Candidate(cache, n, current, platform, arch)
  {
  }

  lemma CandidatesAreListed(cache: Cache, current: Version, platform: string, arch: string)
    requires Numeric(current)
    ensures forall n | Candidate(cache, n, current, platform, arch) :: n in cache && Numeric(n.version)
  {
  }

  lemma VerifiedMeans(checks: Checks, name: Name, entry: Entry)
    ensures var release := Recorded(checks, name, entry);
            Verified(checks, name, entry) <==>
              release.Some? && checks.verifies(name, UpdateArtifact(release.value.manifest))
  {
  }

  lemma SameMembers(a: seq<Name>, b: seq<Name>)
    requires multiset(a) == multiset(b)
    ensures forall n :: n in a <==> n in b
  {
    assert forall n :: n in a <==> n in multiset(a);
    assert forall n :: n in b <==> n in multiset(b);
  }

  /** The first verified name in the sorted list has no verified name above it. */
  lemma NewestVerified(checks: Checks, cache: Cache, candidates: seq<Name>, i: nat)
    requires Newest(candidates) && i < |candidates|
    requires forall n | n in candidates :: n in cache
    requires forall k | 0 <= k < i :: !Verified(checks, candidates[k], cache[candidates[k]])
    ensures forall n | n in candidates && Verified(checks, n, cache[n]) ::
      CompareVersions(n.version, candidates[i].version) <= 0
  {
    hide Verified, CompareVersions;
    forall n | n in candidates && Verified(checks, n, cache[n])
      ensures CompareVersions(n.version, candidates[i].version) <= 0
    {
      var k :| 0 <= k < |candidates| && candidates[k] == n;
      CompareIsTotal(candidates[i].version, n.version);
      CompareIsTotal(n.version, n.version);
    }
  }

  /** What the manifest check guarantees about versions (the pattern without leading zeros). */
  ghost predicate ChecksVersions(checks: Checks) {
    forall m | checks.validManifest(m) :: Canonical(m.version)
  }

  lemma {:induction false} CanonicalDigits(s: string)
    requires Digits(s) && (s[0] == '0' ==> |s| == 1)
    ensures Decimal(ValueOf(s)) == s
    ensures |s| > 1 ==> ValueOf(s) >= 10
  {
    var init, last := s[..|s| - 1], s[|s| - 1];
    assert s == init + [last];
    assert IsDigit(last);
    if init != "" {
      assert forall c | c in init :: c in s;
      assert init[0] == s[0];
      CanonicalDigits(init);
      NotZero(init);
      var v := ValueOf(init);
      assert ValueOf(s) == 10 * v + (last - '0') as int;
      assert ValueOf(s) / 10 == v && ValueOf(s) % 10 == (last - '0') as int;
    } else {
      assert ValueOf(init) == 0;
    }
  }

  lemma NotZero(s: string)
    requires Digits(s) && s[0] != '0' && Decimal(ValueOf(s)) == s
    ensures ValueOf(s) > 0
  {
  }

  /** Equal releases are in the same directory, so the newest verified one is unique. */
  lemma NewestIsUnique(checks: Checks, cache: Cache, m: Name, n: Name, current: Version, platform: string, arch: string)
    requires Numeric(current) && ChecksVersions(checks)
    requires Eligible(checks, cache, m, current, platform, arch) && Eligible(checks, cache, n, current, platform, arch)
    requires CompareVersions(m.version, n.version) == 0
    ensures m == n
  {
    var r, t := Recorded(checks, m, cache[m]).value, Recorded(checks, n, cache[n]).value;
    assert Canonical(r.manifest.version) && Canonical(t.manifest.version);
    hide ValueOf, Decimal, Recorded;
    SameNumber(m.version.major, n.version.major);
    SameNumber(m.version.minor, n.version.minor);
    SameNumber(m.version.patch, n.version.patch);
  }

  lemma SameNumber(a: string, b: string)
    requires Digits(a) && (a[0] == '0' ==> |a| == 1) && Digits(b) && (b[0] == '0' ==> |b| == 1)
    requires ValueOf(a) == ValueOf(b)
    ensures a == b
  {
    CanonicalDigits(a);
    CanonicalDigits(b);
  }

  /** A cached release of exactly this version that can serve as a base: it has a blockmap. */
  method FindCachedDesktopBase(checks: Checks, cache: Cache, version: Version, platform: string, arch: string)
    returns (r: Option<(Release, Name)>)
    ensures r == Base(checks, cache, version, platform, arch)
  {
    hide Validated;
    if !Canonical(version) || platform !in PLATFORMS || arch !in ARCHS { return None; }
    var name := Name(version, platform, arch);
    if name !in cache || !cache[name].isDirectory { return None; }
    var record := cache[name].record;
    if record.None? || !record.value.isFile || record.value.size > RECORD_LIMIT || record.value.content.None? {
      return None;
    }
    var release := Validated(checks, record.value.content.value);
    if release.None? { return None; }
    if release.value.manifest.blockMap.None? || DirectoryOf(release.value.manifest) != name { return None; }
    if checks.verifies(name, UpdateArtifact(release.value.manifest)) { return Some((release.value, name)); }
    return None;
  }

  function Base(checks: Checks, cache: Cache, version: Version, platform: string, arch: string): Option<(Release, Name)> {
    var name := Name(version, platform, arch);
    if && Canonical(version) && platform in PLATFORMS && arch in ARCHS
       && name in cache && cache[name].isDirectory && Verified(checks, name, cache[name])
       && Recorded(checks, name, cache[name]).value.manifest.blockMap.Some?
    then Some((Recorded(checks, name, cache[name]).value, name))
    else None
  }

  // ---------------------------------------------------------------------------
  // Caching and finding again

  function AsParsed(r: Release): Parsed {
    Parsed(r.manifest, r.url, Some(r.notes))
  }

  /** The cache with the record of `r` in its directory. */
  function Stored(checks: Checks, cache: Cache, r: Release): Cache {
    cache[DirectoryOf(r.manifest) := Entry(true, Some(Record(true, checks.recordSize(r), Some(AsParsed(r)))))]
  }

  /** How records are written, read and named on disk. */
  datatype Format = Format(
    write: Release -> seq<Byte>, read: seq<Byte> -> Option<Parsed>, pathOf: Name -> LocalFiles.Path)

  /** Reading gives back what was written, and every directory has its own record. */
  ghost predicate RoundTrips(checks: Checks, format: Format) {
    && (forall r: Release :: format.read(format.write(r)) == Some(AsParsed(r)))
    && (forall r: Release :: |format.write(r)| == checks.recordSize(r))
    && (forall m: Name, n: Name | format.pathOf(m) == format.pathOf(n) :: m == n)
  }

  function RecordOf(files: LocalFiles.Files, format: Format, name: Name): Option<Record> {
    var path := format.pathOf(name);
    if path in files then Some(Record(true, |files[path]|, format.read(files[path]))) else None
  }

  /** The cache that the files make up. */
  function OnDisk(files: LocalFiles.Files, directories: set<Name>, format: Format): Cache {
    map name | name in directories :: Entry(true, RecordOf(files, format, name))
  }

  /** The cache as it was, but perhaps with the release's directory. */
  ghost predicate Kept(before: Cache, after: Cache, name: Name) {
    after == before || (name !in before && after == before[name := Entry(true, None)])
  }

  lemma RecordKept(before: LocalFiles.Files, after: LocalFiles.Files, directories: set<Name>, format: Format,
                   name: Name, temporary: LocalFiles.Path)
    requires LocalFiles.Untouched(before, after, {temporary}) && forall n: Name :: format.pathOf(n) != temporary
    requires name in directories || format.pathOf(name) !in before
    ensures OnDisk(after, directories, format) == OnDisk(before, directories, format)
    ensures Kept(OnDisk(before, directories, format), OnDisk(after, directories + {name}, format), name)
  {
    var then', now := OnDisk(before, directories, format), OnDisk(after, directories + {name}, format);
    assert forall n: Name :: RecordOf(after, format, n) == RecordOf(before, format, n);
    assert OnDisk(after, directories, format) == then';
    if name in directories {
      assert directories + {name} == directories;
    } else {
      assert now == then'[name := Entry(true, None)];
    }
  }

  lemma RecordReplaced(before: LocalFiles.Files, after: LocalFiles.Files, directories: set<Name>, format: Format,
                       checks: Checks, r: Release, temporary: LocalFiles.Path)
    requires RoundTrips(checks, format) && forall n: Name :: format.pathOf(n) != temporary
    requires var path := format.pathOf(DirectoryOf(r.manifest));
             && LocalFiles.Untouched(before, after, {path, temporary})
             && path in after && after[path] == format.write(r)
    ensures OnDisk(after, directories + {DirectoryOf(r.manifest)}, format)
         == Stored(checks, OnDisk(before, directories, format), r)
  {
    var name := DirectoryOf(r.manifest);
    forall n: Name | n != name
      ensures RecordOf(after, format, n) == RecordOf(before, format, n)
    {
      assert format.pathOf(n) != format.pathOf(name);
    }
    assert RecordOf(after, format, name) == Some(Record(true, checks.recordSize(r), Some(AsParsed(r))));
  }

  /** Why a record was not put into place. */
  datatype StoreFailure = Invalid | NoDirectory | NotCreated | NotWritten | NotRenamed

  /** The failures that leave the temporary file behind for the final removal. */
  predicate LeavesRecord(failure: Option<StoreFailure>) {
    failure == Some(NotWritten) || failure == Some(NotRenamed)
  }

  /**
   cacheDesktopRelease: the record goes into place by rename, from a new temporary file that is
   removed in any case; the call returns normally if `failure` is absent and that removal succeeded.
   Whatever fails, the cache holds the old record or the new one.
   */
  method CacheDesktopRelease(fs: LocalFiles.FileSystem, directories: set<Name>, checks: Checks, format: Format,
                             release: Parsed, temporary: LocalFiles.Path)
    returns (failure: Option<StoreFailure>, removed: bool, made: set<Name>)
    requires RoundTrips(checks, format)
    requires temporary !in fs.files && forall n: Name :: format.pathOf(n) != temporary
    requires forall n: Name | format.pathOf(n) in fs.files :: n in directories
    modifies fs
    ensures Validated(checks, release).None? <==> failure == Some(Invalid)
    ensures failure == Some(Invalid) ==> removed && fs.files == old(fs.files) && made == directories
    ensures Validated(checks, release).Some? ==>
      var r := Validated(checks, release).value;
      var before, after := OnDisk(old(fs.files), directories, format), OnDisk(fs.files, made, format);
      && LocalFiles.Untouched(old(fs.files), fs.files, {format.pathOf(DirectoryOf(r.manifest)), temporary})
      && (failure.None? ==> after == Stored(checks, before, r))
      && (failure.Some? ==> Kept(before, after, DirectoryOf(r.manifest)))
    ensures temporary in fs.files <==> !removed && LeavesRecord(failure)
    ensures fs.reliable ==> removed && (failure.None? <==> Validated(checks, release).Some?)
  {
    hide Validated, OnDisk, Stored, RoundTrips;
    failure, removed, made := Some(Invalid), true, directories;
    var value := Validated(checks, release);
    if value.None? { return; }
    var name := DirectoryOf(value.value.manifest);
    failure := Some(NoDirectory);
    var unmade := Fault(fs.reliable);
    if unmade { return; }
    made := directories + {name};
    failure := WriteRecord(fs, temporary, format.pathOf(name), format.write(value.value));
    removed := fs.Remove(temporary);
    if failure.None? {
      RecordReplaced(old(fs.files), fs.files, directories, format, checks, value.value, temporary);
    } else {
      RecordKept(old(fs.files), fs.files, directories, format, name, temporary);
    }
  }

  /** The body of its `try`. */
  method WriteRecord(fs: LocalFiles.FileSystem, temporary: LocalFiles.Path, destination: LocalFiles.Path, bytes: seq<Byte>)
    returns (failure: Option<StoreFailure>)
    requires temporary !in fs.files && temporary != destination
    modifies fs
    ensures failure.None? ==>
      && LocalFiles.Untouched(old(fs.files), fs.files, {destination, temporary})
      && destination in fs.files && fs.files[destination] == bytes
    ensures failure.Some? ==>
      && LocalFiles.Untouched(old(fs.files), fs.files, {temporary})
      && failure.value in {NotCreated, NotWritten, NotRenamed}
    ensures temporary in fs.files <==> LeavesRecord(failure)
    ensures fs.reliable ==> failure.None?
  {
    var created := fs.CreateExclusive(temporary);
    if !created.Created? { return Some(NotCreated); }
    var written := fs.Append(temporary, bytes);
    if !written { return Some(NotWritten); }
    var renamed := fs.Rename(temporary, destination);
    failure := if renamed then None else Some(NotRenamed);
  }

  /** Validating what was validated changes nothing; the notes are cut once. */
  lemma ValidatedAgain(checks: Checks, data: Parsed)
    requires Validated(checks, data).Some?
    ensures var r := Validated(checks, data).value;
            && Validated(checks, AsParsed(r)) == Some(r)
            && r.manifest == data.manifest && r.url == data.url
            && (data.notes.Some? && |data.notes.value| <= 20_000 ==> r.notes == data.notes.value)
  {
  }

  ghost predicate ChecksNames(checks: Checks) {
    ChecksVersions(checks) && forall m | checks.validManifest(m) :: m.platform in PLATFORMS && m.arch in ARCHS
  }

  /**
   A release that was cached is found as a base, unchanged but for the cut of its notes, exactly
   when it has a blockmap, its record is within the limit and its package verifies.
   */
  lemma CachedBaseIsFoundAgain(checks: Checks, cache: Cache, data: Parsed)
    requires Validated(checks, data).Some? && ChecksNames(checks)
    ensures var r := Validated(checks, data).value;
            var name := DirectoryOf(r.manifest);
            Base(checks, Stored(checks, cache, r), r.manifest.version, r.manifest.platform, r.manifest.arch)
            == if && r.manifest.blockMap.Some?
                  && checks.recordSize(r) <= 100_000
                  && checks.verifies(name, UpdateArtifact(r.manifest))
               then Some((r, name)) else None
  {
    ValidatedAgain(checks, data);
    hide Validated, Canonical;
  }

  /**
   It is also what a search for the newest release would take, blockmap or not, when it is newer
   than the current version and its record is within the limit.
   */
  lemma CachedReleaseIsEligible(checks: Checks, cache: Cache, data: Parsed, current: Version)
    requires Validated(checks, data).Some? && ChecksNames(checks) && Numeric(current)
    ensures var r := Validated(checks, data).value;
            var name := DirectoryOf(r.manifest);
            Numeric(r.manifest.version) &&
            (Eligible(checks, Stored(checks, cache, r), name, current, r.manifest.platform, r.manifest.arch) <==>
               && CompareVersions(r.manifest.version, current) > 0
               && checks.recordSize(r) <= 100_000
               && checks.verifies(name, UpdateArtifact(r.manifest)))
  {
    ValidatedAgain(checks, data);
    assert Canonical(data.manifest.version);
    hide Validated, CompareVersions;
  }

  lemma OthersKept(checks: Checks, cache: Cache, r: Release, n: Name, current: Version, platform: string, arch: string)
    requires Numeric(current) && n != DirectoryOf(r.manifest)
    ensures Eligible(checks, Stored(checks, cache, r), n, current, platform, arch)
       <==> Eligible(checks, cache, n, current, platform, arch)
  {
    hide Validated, CompareVersions, Verified;
  }

  /**
   After a release was cached, the search for the newest one returns exactly it when it is newer
   than the current version, its record is within the limit, its package verifies, and no other
   release that verifies is newer still.
   */
  lemma CachedReleaseIsReturned(checks: Checks, cache: Cache, data: Parsed, current: Version, found: Search)
    requires Validated(checks, data).Some? && ChecksNames(checks) && Numeric(current)
    requires var r := Validated(checks, data).value;
             IsNewest(checks, Stored(checks, cache, r), current, r.manifest.platform, r.manifest.arch, found)
    ensures var r := Validated(checks, data).value;
            var name := DirectoryOf(r.manifest);
            Numeric(r.manifest.version) &&
            (found == Found(r, name) <==>
               && CompareVersions(r.manifest.version, current) > 0
               && checks.recordSize(r) <= 100_000
               && checks.verifies(name, UpdateArtifact(r.manifest))
               && forall n | n != name && Eligible(checks, cache, n, current, r.manifest.platform, r.manifest.arch) ::
                    CompareVersions(n.version, r.manifest.version) <= 0)
  {
    var r := Validated(checks, data).value;
    var name := DirectoryOf(r.manifest);
    var stored := Stored(checks, cache, r);
    CachedReleaseIsEligible(checks, cache, data, current);
    ValidatedAgain(checks, data);
    StoredRecord(checks, cache, data);
    hide Validated, CompareVersions, Verified, Recorded, Stored, ChecksNames, Candidate;
    forall n | n != name
      ensures Eligible(checks, stored, n, current, r.manifest.platform, r.manifest.arch)
         <==> Eligible(checks, cache, n, current, r.manifest.platform, r.manifest.arch)
    {
      OthersKept(checks, cache, r, n, current, r.manifest.platform, r.manifest.arch);
    }
    if found.Found? && found.name != name && Eligible(checks, stored, name, current, r.manifest.platform, r.manifest.arch) {
      NotTwoNewest(checks, stored, found.name, name, current, r.manifest.platform, r.manifest.arch);
    }
  }

  lemma StoredRecord(checks: Checks, cache: Cache, data: Parsed)
    requires Validated(checks, data).Some?
    ensures var r := Validated(checks, data).value;
            var name := DirectoryOf(r.manifest);
            && name in Stored(checks, cache, r)
            && Recorded(checks, name, Stored(checks, cache, r)[name])
               == if checks.recordSize(r) <= 100_000 then Some(r) else None
  {
    ValidatedAgain(checks, data);
    hide Validated;
  }

  /** Of two different directories with verified releases one is newer. */
  lemma NotTwoNewest(checks: Checks, cache: Cache, m: Name, n: Name, current: Version, platform: string, arch: string)
    requires Numeric(current) && ChecksNames(checks) && m != n
    requires Eligible(checks, cache, m, current, platform, arch) && Eligible(checks, cache, n, current, platform, arch)
    ensures Numeric(m.version) && Numeric(n.version)
    ensures CompareVersions(m.version, n.version) == -CompareVersions(n.version, m.version) != 0
  {
    hide Verified;
    CompareIsTotal(m.version, n.version);
    hide CompareVersions;
    if CompareVersions(m.version, n.version) == 0 {
      NewestIsUnique(checks, cache, m, n, current, platform, arch);
    }
  }

  /** Notes of 20,000 control characters. */
  function ControlNotes(count: nat): string {
    if count == 0 then "" else ['\U{1}'] + ControlNotes(count - 1)
  }

  lemma {:induction false} ControlNotesEscape(count: nat)
    ensures |ControlNotes(count)| == count && |ManifestSigning.EscapedAll(ControlNotes(count))| == 6 * count
  {
    if count > 0 {
      ControlNotesEscape(count - 1);
      assert ControlNotes(count)[1..] == ControlNotes(count - 1);
      assert ControlNotes(count)[0] == '\U{1}';
      assert |ManifestSigning.Escaped('\U{1}')| == 6;
    }
  }

  /** The limits do not fit together: a release within the notes limit can be cached and never be found again. */
  lemma LongNotesAreLost(checks: Checks, cache: Cache, data: Parsed)
    requires Validated(checks, data).Some? && ChecksNames(checks) && data.notes == Some(ControlNotes(20_000))
    requires forall r: Release :: checks.recordSize(r) >= |ManifestSigning.EscapedAll(r.notes)|
    ensures var r := Validated(checks, data).value;
            && Some(r.notes) == data.notes
            && Base(checks, Stored(checks, cache, r), r.manifest.version, r.manifest.platform, r.manifest.arch).None?
  {
    ControlNotesEscape(20_000);
    ValidatedAgain(checks, data);
    hide *;
    CachedBaseIsFoundAgain(checks, cache, data);
  }
}
