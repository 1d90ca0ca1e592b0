/**
 What a desktop update manifest must look like (electron/lib/desktop-update-format.ts:27-106), and
 what follows for the files of a release.
 */
module ManifestFormat {
  import opened Results
  import opened UpdateCache

  /** An artifact of this name, with a SHA-256 digest and at most `max` bytes. */
  predicate ValidArtifact(a: Artifact, name: string, max: nat) {
    && a.name == name
    && |a.sha256| == 64 && (forall c | c in a.sha256 :: '0' <= c <= '9' || 'a' <= c <= 'f')
    && 0 < a.size <= max
  }

  function ArtifactName(m: Manifest): string {
    if m.platform == "darwin" then "Synax-" + VersionText(m.version) + ("-darwin-" + m.arch + ".dmg")
    else "Synax-" + VersionText(m.version) + "-full.nupkg"
  }

  function ArchiveName(m: Manifest): string {
    "Synax-" + VersionText(m.version) + ("-darwin-" + m.arch + ".zip")
  }

  const MAX_ARTIFACT_SIZE := 2 * 1024 * 1024 * 1024
  const MAX_BLOCK_MAP_SIZE := 8 * 1024 * 1024

  /** `/^[A-Za-z0-9+/]{86}==$/` */
  predicate IsSignatureValue(s: string) {
    |s| == 88 && s[86] == s[87] == '='
    && forall i | 0 <= i < 86 ::
         'A' <= s[i] <= 'Z' || 'a' <= s[i] <= 'z' || '0' <= s[i] <= '9' || s[i] == '+' || s[i] == '/'
  }

  /** validateDesktopManifest; false where it throws. */
  predicate ValidManifest(m: Manifest) {
    && m.format == 1 && Canonical(m.version) && m.platform in PLATFORMS && m.arch in ARCHS
    && ValidArtifact(m.artifact, ArtifactName(m), MAX_ARTIFACT_SIZE)
    && (m.updateArchive.Some? ==>
          m.platform == "darwin" && ValidArtifact(m.updateArchive.value, ArchiveName(m), MAX_ARTIFACT_SIZE))
    && (m.blockMap.Some? ==>
          ValidArtifact(m.blockMap.value, UpdateArtifact(m).name + ".blockmap", MAX_BLOCK_MAP_SIZE))
    && (m.signature.Some? ==>
          m.signature.value.algorithm == "ed25519" && IsSignatureValue(m.signature.value.value))
  }

  /** This is all the cache needs to know of the check. */
  lemma ChecksNamesHolds(checks: Checks)
    requires forall m :: checks.validManifest(m) <==> ValidManifest(m)
    ensures ChecksNames(checks)
  {
  }

  /** 64 lower-case hexadecimal digits. */
  predicate HexDigest(s: string) {
    |s| == 64 && forall i | 0 <= i < 64 :: 48 <= s[i] as int <= 57 || 97 <= s[i] as int <= 102
  }

  lemma ArtifactMeans(a: Artifact, name: string, max: nat)
    ensures ValidArtifact(a, name, max) <==> a.name == name && HexDigest(a.sha256) && 1 <= a.size <= max
  {
    if |a.sha256| == 64 && forall c | c in a.sha256 :: '0' <= c <= '9' || 'a' <= c <= 'f' {
      assert forall i | 0 <= i < 64 :: a.sha256[i] in a.sha256;
    }
  }

  /** 64 bytes in base64. */
  predicate Base64Signature(s: string) {
    && |s| == 88 && s[86..] == "=="
    && forall i | 0 <= i < 86 ::
         var n := s[i] as int;
         n == 43 || 47 <= n <= 57 || 65 <= n <= 90 || 97 <= n <= 122
  }

  lemma SignatureValueMeans(s: string)
    ensures IsSignatureValue(s) <==> Base64Signature(s)
  {
    if |s| == 88 { assert s[86..] == [s[86], s[87]]; }
  }

  /** A package has at most 2 GiB, a blockmap 8 MiB; only macOS has an archive. */
  lemma ManifestMeans(m: Manifest)
    ensures ValidManifest(m) <==>
              && m.format == 1 && Canonical(m.version)
              && (m.platform == "darwin" || m.platform == "win32") && (m.arch == "arm64" || m.arch == "x64")
              && ValidArtifact(m.artifact, ArtifactName(m), 2_147_483_648)
              && (m.updateArchive.Some? ==>
                    m.platform == "darwin" && ValidArtifact(m.updateArchive.value, ArchiveName(m), 2_147_483_648))
              && (m.blockMap.Some? ==>
                    && m.blockMap.value.name == UpdateArtifact(m).name + ".blockmap"
                    && HexDigest(m.blockMap.value.sha256) && 1 <= m.blockMap.value.size <= 8_388_608)
              && (m.signature.Some? ==>
                    m.signature.value.algorithm == "ed25519" && Base64Signature(m.signature.value.value))
  {
    if m.blockMap.Some? { ArtifactMeans(m.blockMap.value, UpdateArtifact(m).name + ".blockmap", 8_388_608); }
    if m.signature.Some? { SignatureValueMeans(m.signature.value.value); }
    hide Canonical, ValidArtifact, HexDigest, IsSignatureValue, Base64Signature, ArtifactName, ArchiveName;
  }

  const ONE_TWO_THREE := Version("1", "2", "3")

  lemma ExampleHead()
    ensures "Synax-" + VersionText(ONE_TWO_THREE) == "Synax-1.2.3"
  {
    assert "1" + "." + "2" + "." + "3" == "1.2.3";
  }

  lemma ExampleTails()
    ensures "-darwin-" + "arm64" + ".dmg" == "-darwin-arm64.dmg"
    ensures "-darwin-" + "arm64" + ".zip" == "-darwin-arm64.zip"
  {
  }

  /** The names of the files of version 1.2.3. */
  lemma NamesOfExample(m: Manifest)
    requires ValidManifest(m) && m.version == ONE_TWO_THREE && m.arch == "arm64"
    ensures m.platform == "darwin" ==> m.artifact.name == "Synax-1.2.3" + "-darwin-arm64.dmg"
    ensures m.platform == "win32" ==> m.artifact.name == "Synax-1.2.3" + "-full.nupkg"
    ensures m.updateArchive.Some? ==> m.updateArchive.value.name == "Synax-1.2.3" + "-darwin-arm64.zip"
    ensures m.blockMap.Some? ==>
              m.blockMap.value.name
              == (if m.updateArchive.Some? then m.updateArchive.value.name else m.artifact.name) + ".blockmap"
  {
    assert m.platform == "win32" ==> m.platform != "darwin" by { assert "darwin"[0] != "win32"[0]; }
    ExampleHead();
    ExampleTails();
    hide VersionText, Canonical, IsSignatureValue;
  }

  // ---------------------------------------------------------------------------
  // The files of a release

  predicate EndsWith(s: string, end: string) {
    |end| <= |s| && s[|s| - |end|..] == end
  }

  lemma JoinedEnds(a: string, b: string)
    ensures EndsWith(a + b, b)
  {
  }

  lemma LaterEnd(s: string, end: string, more: string)
    requires EndsWith(s, end)
    ensures EndsWith(s + more, end + more)
  {
    assert (s + more)[|s| - |end|..] == s[|s| - |end|..] + more;
  }

  lemma LastOf(s: string, end: string)
    requires EndsWith(s, end) && end != ""
    ensures s != "" && s[|s| - 1] == end[|end| - 1]
  {
    assert s[|s| - |end|..][|end| - 1] == s[|s| - 1];
  }

  lemma NameEnds(m: Manifest)
    ensures EndsWith(ArchiveName(m), ".zip")
    ensures EndsWith(ArtifactName(m), if m.platform == "darwin" then ".dmg" else ".nupkg")
    ensures |ArtifactName(m)| > 12 && |ArchiveName(m)| > 12
  {
    var head, tail := "Synax-" + VersionText(m.version), "-darwin-" + m.arch;
    JoinedEnds(head + tail, ".zip");
    JoinedEnds(head + tail, ".dmg");
    JoinedEnds(head + "-full", ".nupkg");
    assert head + (tail + ".zip") == (head + tail) + ".zip";
    assert head + (tail + ".dmg") == (head + tail) + ".dmg";
    assert head + "-full.nupkg" == (head + "-full") + ".nupkg";
  }

  /**
   The package, the archive and the blockmap of a release, and its record, are different files of
   its directory.
   */
  lemma FilesAreDistinct(m: Manifest)
    requires ValidManifest(m)
    ensures m.artifact.name != "release.json"
    ensures m.updateArchive.Some? ==> m.updateArchive.value.name !in {m.artifact.name, "release.json"}
    ensures m.blockMap.Some? ==> m.blockMap.value.name !in {m.artifact.name, "release.json"}
    ensures m.blockMap.Some? && m.updateArchive.Some? ==> m.blockMap.value.name != m.updateArchive.value.name
  {
    NameEnds(m);
    LastOf(ArtifactName(m), if m.platform == "darwin" then ".dmg" else ".nupkg");
    LastOf(ArchiveName(m), ".zip");
    if m.blockMap.Some? {
      JoinedEnds(UpdateArtifact(m).name, ".blockmap");
      BlockMapDiffers(UpdateArtifact(m).name, ArtifactName(m), ArchiveName(m));
    }
    assert "release.json"[11] == 'n';
    hide ArtifactName, ArchiveName, Canonical;
  }

  lemma BlockMapDiffers(name: string, artifact: string, archive: string)
    requires name == artifact || name == archive
    requires |artifact| > 0 && |archive| > 0 && artifact[|artifact| - 1] in "gp" && archive[|archive| - 1] == 'p'
    requires |name| > 12
    ensures name + ".blockmap" != "release.json" && name + ".blockmap" != name
  {
  }

  // ---------------------------------------------------------------------------
  // What a name tells of the release

  /** Texts without `c` are determined by what they begin, up to that character. */
  lemma {:induction false} CutAt(a: string, b: string, c: char, x: string, y: string)
    requires c !in a && c !in b && a + ([c] + x) == b + ([c] + y)
    ensures a == b && x == y
  {
    assert (a + ([c] + x))[0] == if a == "" then c else a[0];
    assert (b + ([c] + y))[0] == if b == "" then c else b[0];
    assert (a + ([c] + x))[1..] == if a == "" then x else a[1..] + ([c] + x);
    assert (b + ([c] + y))[1..] == if b == "" then y else b[1..] + ([c] + y);
    if a != "" && b != "" { CutAt(a[1..], b[1..], c, x, y); }
  }

  lemma VersionCharacters(v: Version)
    requires Canonical(v)
    ensures '.' !in v.major && '.' !in v.minor && '-' !in VersionText(v)
  {
  }

  lemma VersionTextIsInjective(v: Version, w: Version)
    requires Canonical(v) && Canonical(w) && VersionText(v) == VersionText(w)
    ensures v == w
  {
    VersionCharacters(v);
    VersionCharacters(w);
    hide Canonical;
    assert VersionText(v) == v.major + (['.'] + (v.minor + "." + v.patch));
    assert VersionText(w) == w.major + (['.'] + (w.minor + "." + w.patch));
    CutAt(v.major, w.major, '.', v.minor + "." + v.patch, w.minor + "." + w.patch);
    assert v.minor + "." + v.patch == v.minor + (['.'] + v.patch);
    assert w.minor + "." + w.patch == w.minor + (['.'] + w.patch);
    CutAt(v.minor, w.minor, '.', v.patch, w.patch);
  }

  /** What follows the version in a package's name. */
  function Ending(m: Manifest): string {
    if m.platform == "darwin" then "darwin-" + m.arch + ".dmg" else "full.nupkg"
  }

  lemma NameParts(m: Manifest)
    ensures ArtifactName(m) == "Synax-" + (VersionText(m.version) + (['-'] + Ending(m)))
  {
    if m.platform == "darwin" {
      assert "-darwin-" + m.arch + ".dmg" == ['-'] + ("darwin-" + m.arch + ".dmg");
    } else {
      assert "-full.nupkg" == ['-'] + "full.nupkg";
    }
  }

  lemma EndingMeans(m: Manifest, n: Manifest)
    requires m.platform in PLATFORMS && n.platform in PLATFORMS && m.arch in ARCHS && n.arch in ARCHS
    ensures Ending(m) == Ending(n) <==> m.platform == n.platform && (m.platform == "darwin" ==> m.arch == n.arch)
  {
    if m.platform == "darwin" && n.platform == "darwin" && Ending(m) == Ending(n) {
      assert Ending(m)[7] == m.arch[0] && Ending(n)[7] == n.arch[0];
    }
    if m.platform != n.platform {
      assert Ending(m)[0] != Ending(n)[0];
    }
  }

  /**
   The name of a package determines its version and platform, and on macOS the architecture. On
   Windows the packages of both architectures have the same name.
   */
  lemma PackageNameMeans(m: Manifest, n: Manifest)
    requires ValidManifest(m) && ValidManifest(n)
    ensures m.artifact.name == n.artifact.name
       <==> m.version == n.version && m.platform == n.platform && (m.platform == "darwin" ==> m.arch == n.arch)
  {
    NameParts(m);
    NameParts(n);
    EndingMeans(m, n);
    VersionCharacters(m.version);
    VersionCharacters(n.version);
    hide ArtifactName, ArchiveName, Ending, Canonical, IsSignatureValue;
    if m.artifact.name == n.artifact.name {
      var a, b := VersionText(m.version), VersionText(n.version);
      assert ArtifactName(m)[6..] == a + (['-'] + Ending(m));
      assert ArtifactName(n)[6..] == b + (['-'] + Ending(n));
      CutAt(a, b, '-', Ending(m), Ending(n));
      VersionTextIsInjective(m.version, n.version);
    }
  }
}
