/**
 What the cache accepts, in full (electron/lib/desktop-update-cache.ts:27-157 and
 electron/lib/ui-update-format.ts:118-125).
 */
module CacheRules {
  import opened Results
  import opened Decimals
  import opened UpdateCache

  function PowerOfTen(n: nat): nat {
    if n == 0 then 1 else 10 * PowerOfTen(n - 1)
  }

  lemma LastDigit(init: string, c: char)
    requires IsDigit(c) && forall d | d in init :: IsDigit(d)
    ensures ValueOf(init + [c]) == 10 * ValueOf(init) + (c as int - 48)
  {
    assert (init + [c])[..|init|] == init;
  }

  /** The first digit counts as often as its place says. */
  lemma {:induction false} DigitsByPlace(first: char, s: string)
    requires IsDigit(first) && forall c | c in s :: IsDigit(c)
    ensures ValueOf([first] + s) == (first as int - 48) * PowerOfTen(|s|) + ValueOf(s)
  {
    if s == "" {
      LastDigit("", first);
      assert "" + [first] == [first] + s;
    } else {
      var init, last := s[..|s| - 1], s[|s| - 1];
      assert s == init + [last] && last in s && forall c | c in init :: c in s;
      DigitsByPlace(first, init);
      LastDigit(init, last);
      LastDigit([first] + init, last);
      assert [first] + s == ([first] + init) + [last];
      assert PowerOfTen(|s|) == 10 * PowerOfTen(|init|);
      hide ValueOf, PowerOfTen;
      Distributes(first as int - 48, PowerOfTen(|init|), ValueOf(init));
    }
  }

  lemma Distributes(d: int, p: nat, v: nat)
    ensures 10 * (d * p + v) == d * (10 * p) + 10 * v
  {
  }

  /** The versions as numbers: the major one decides, then the minor one, then the patch. */
  predicate Newer(a: Version, b: Version)
    requires Numeric(a) && Numeric(b)
  {
    || ValueOf(a.major) > ValueOf(b.major)
    || (ValueOf(a.major) == ValueOf(b.major) && ValueOf(a.minor) > ValueOf(b.minor))
    || (ValueOf(a.major) == ValueOf(b.major) && ValueOf(a.minor) == ValueOf(b.minor)
        && ValueOf(a.patch) > ValueOf(b.patch))
  }

  lemma CompareMeans(a: Version, b: Version)
    requires Numeric(a) && Numeric(b)
    ensures CompareVersions(a, b) > 0 <==> Newer(a, b)
    ensures CompareVersions(a, b) < 0 <==> Newer(b, a)
    ensures CompareVersions(a, b) == 0 <==> !Newer(a, b) && !Newer(b, a)
  {
    hide ValueOf;
  }

  /** The package of a release is its archive if it has one. */
  predicate PackageVerifies(checks: Checks, name: Name, m: Manifest) {
    match m.updateArchive
    case Some(archive) => checks.verifies(name, archive)
    case None => checks.verifies(name, m.artifact)
  }

  /** A release the checks accept: manifest, signature, channel and URL. */
  predicate Acceptable(checks: Checks, data: Parsed) {
    && checks.validManifest(data.manifest) && checks.signatureHolds(data.manifest)
    && checks.legacyEnabled
    && data.url == checks.urlOf(data.manifest)
  }

  /** The same release, with at most the first 20,000 characters of its notes. */
  predicate Trimmed(data: Parsed, r: Release) {
    && r.manifest == data.manifest && r.url == data.url
    && match data.notes
       case None => r.notes == ""
       case Some(notes) => r.notes <= notes && |r.notes| == if |notes| < 20_000 then |notes| else 20_000
  }

  lemma ValidatedMeans(checks: Checks, data: Parsed)
    ensures Validated(checks, data).Some? <==> Acceptable(checks, data)
    ensures Validated(checks, data).Some? ==> Trimmed(data, Validated(checks, data).value)
  {
  }

  /** A directory with a readable record, of at most 100,000 bytes, of the release it is named after. */
  ghost predicate Holds(checks: Checks, name: Name, entry: Entry, data: Parsed) {
    && entry.isDirectory
    && entry.record.Some? && entry.record.value.isFile && entry.record.value.size <= 100_000
    && entry.record.value.content == Some(data)
    && Acceptable(checks, data)
    && data.manifest.version == name.version
    && data.manifest.platform == name.platform
    && data.manifest.arch == name.arch
    && PackageVerifies(checks, name, data.manifest)
  }

  lemma VerifiedIsHeld(checks: Checks, name: Name, entry: Entry)
    requires entry.isDirectory
    ensures Verified(checks, name, entry) <==> exists data :: Holds(checks, name, entry, data)
    ensures Verified(checks, name, entry) ==>
              && entry.record.Some? && entry.record.value.content.Some?
              && Trimmed(entry.record.value.content.value, Recorded(checks, name, entry).value)
  {
    if entry.record.Some? && entry.record.value.content.Some? {
      var data := entry.record.value.content.value;
      ValidatedMeans(checks, data);
      hide Trimmed, Validated;
      assert Verified(checks, name, entry) <==> Holds(checks, name, entry, data);
    }
  }

  /** What the search returns one of: a held release for this platform with a newer version. */
  lemma EligibleMeans(checks: Checks, cache: Cache, name: Name, current: Version, platform: string, arch: string)
    requires Numeric(current)
    ensures Eligible(checks, cache, name, current, platform, arch)
       <==> && name in cache && (exists data :: Holds(checks, name, cache[name], data))
            && name.platform == platform && (platform == "darwin" || platform == "win32")
            && name.arch == arch && (arch == "arm64" || arch == "x64")
            && Numeric(name.version) && Newer(name.version, current)
  {
    if name in cache && cache[name].isDirectory { VerifiedIsHeld(checks, name, cache[name]); }
    if Numeric(name.version) { CompareMeans(name.version, current); }
    hide Verified, CompareVersions, Newer, Numeric, Acceptable, PackageVerifies;
  }

  /** A number without leading zeros. */
  predicate Plain(s: string) {
    s != "" && (forall i | 0 <= i < |s| :: 48 <= s[i] as int <= 57) && (|s| > 1 ==> s[0] != '0')
  }

  /** What the search for a base returns: the held release of exactly that directory, with a blockmap. */
  lemma BaseMeans(checks: Checks, cache: Cache, version: Version, platform: string, arch: string)
    ensures Base(checks, cache, version, platform, arch).Some?
       <==> && Plain(version.major) && Plain(version.minor) && Plain(version.patch)
            && (platform == "darwin" || platform == "win32") && (arch == "arm64" || arch == "x64")
            && Name(version, platform, arch) in cache
            && exists data :: Holds(checks, Name(version, platform, arch), cache[Name(version, platform, arch)], data)
                              && data.manifest.blockMap.Some?
    ensures Base(checks, cache, version, platform, arch).Some? ==>
              var (release, name) := Base(checks, cache, version, platform, arch).value;
              && name == Name(version, platform, arch) && name in cache
              && cache[name].record.Some? && cache[name].record.value.content.Some?
              && Trimmed(cache[name].record.value.content.value, release)
  {
    var name := Name(version, platform, arch);
    CanonicalMeans(version);
    if name in cache && cache[name].isDirectory { VerifiedIsHeld(checks, name, cache[name]); }
    hide Acceptable, PackageVerifies, Canonical, Plain, Verified, Validated;
  }

  lemma CanonicalMeans(v: Version)
    ensures Canonical(v) <==> Plain(v.major) && Plain(v.minor) && Plain(v.patch)
  {
    DigitsMean(v.major);
    DigitsMean(v.minor);
    DigitsMean(v.patch);
    hide Digits;
  }

  lemma DigitsMean(s: string)
    ensures Digits(s) <==> s != "" && forall i | 0 <= i < |s| :: 48 <= s[i] as int <= 57
  {
    if Digits(s) {
      forall i | 0 <= i < |s|
        ensures 48 <= s[i] as int <= 57
      {
        assert s[i] in s;
      }
    }
  }
}
