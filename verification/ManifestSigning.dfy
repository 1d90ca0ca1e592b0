/**
 Signing desktop update manifests (electron/lib/desktop-update-signing.ts:33-102): the text
 that is signed, and what a signature on it says about the manifest.

 The text is JSON (sections 4 and 7 of RFC 8259) as `JSON.stringify` writes it. Characters are
 Unicode scalar values, so lone surrogates do not occur.
 */
module ManifestSigning {
  import opened Results
  import opened Sequences
  import opened Decimals
  import opened Utf8
  import LocalFiles

  type Artifact = LocalFiles.Artifact
  datatype Signature = Signature(algorithm: string, value: string)

  datatype Manifest = Manifest(
    format: nat, version: string, platform: string, arch: string, artifact: Artifact,
    updateArchive: Option<Artifact>, blockMap: Option<Artifact>, signature: Option<Signature>)

  // ---------------------------------------------------------------------------
  // JSON text

  function HexDigit(d: nat): char
    requires d < 16
  {
    if d < 10 then '0' + d as char else 'a' + (d - 10) as char
  }

  /** One character of a JSON string. */
  function Escaped(c: char): string {
    if c == '"' then ['\\', '"']
    else if c == '\\' then ['\\', '\\']
    else if c as int == 8 then ['\\', 'b']
    else if c as int == 9 then ['\\', 't']
    else if c as int == 10 then ['\\', 'n']
    else if c as int == 12 then ['\\', 'f']
    else if c as int == 13 then ['\\', 'r']
    else if c as int < 32 then ['\\', 'u', '0', '0', HexDigit(c as int / 16), HexDigit(c as int % 16)]
    else [c]
  }

  function EscapedAll(s: string): string {
    if s == "" then "" else Escaped(s[0]) + EscapedAll(s[1..])
  }

  /** A JSON string, from after its opening quote to its closing one. */
  function Tail(s: string): string {
    EscapedAll(s) + ['"']
  }

  function ArtifactText(a: Artifact): string {
    "{\"name\":\"" + (Tail(a.name) + (",\"size\":" + (Decimal(a.size) + (",\"sha256\":\"" + (Tail(a.sha256) + "}")))))
  }

  function OptionalText(key: string, a: Option<Artifact>): string {
    if a.None? then "" else "," + (key + (":" + ArtifactText(a.value)))
  }

  /** The signed text: every field but the signature, absent artifacts left out. */
  function SigningText(m: Manifest): string {
    "{\"format\":" + (Decimal(m.format)
    + (",\"version\":\"" + (Tail(m.version)
    + (",\"platform\":\"" + (Tail(m.platform)
    + (",\"arch\":\"" + (Tail(m.arch)
    + (",\"artifact\":" + (ArtifactText(m.artifact)
    + (OptionalText("\"updateArchive\"", m.updateArchive)
    + (OptionalText("\"blockMap\"", m.blockMap) + "}")))))))))))
  }

  // ---------------------------------------------------------------------------
  // Reading the text back, piece by piece

  lemma HexDigitsDiffer(d: nat, e: nat)
    requires d < 16 && e < 16 && HexDigit(d) == HexDigit(e)
    ensures d == e
  {
  }

  lemma EscapedLength(c: char)
    ensures Escaped(c) != [] && Escaped(c)[0] != '"'
    ensures |Escaped(c)| == 1 ==> Escaped(c)[0] == c && c != '\\'
    ensures |Escaped(c)| != 1 ==> |Escaped(c)| >= 2 && Escaped(c)[0] == '\\'
    ensures |Escaped(c)| == 2 || |Escaped(c)| == 1 || |Escaped(c)| == 6
    ensures |Escaped(c)| == 2 ==> Escaped(c)[1] != 'u'
    ensures |Escaped(c)| == 6 ==> Escaped(c)[1] == 'u'
  {
  }

  lemma SameEscape(c: char, d: char)
    requires Escaped(c) == Escaped(d)
    ensures c == d
  {
    EscapedLength(c);
    EscapedLength(d);
    if |Escaped(c)| == 6 {
      assert Escaped(c)[4] == Escaped(d)[4] && Escaped(c)[5] == Escaped(d)[5];
      HexDigitsDiffer(c as int / 16, d as int / 16);
      HexDigitsDiffer(c as int % 16, d as int % 16);
      assert c as int == d as int;
    } else if |Escaped(c)| == 2 {
      assert Escaped(c)[1] == Escaped(d)[1];
    }
  }

  /** No escape is the beginning of another. */
  lemma EscapeIsPrefixFree(c: char, d: char, x: string, y: string)
    requires Escaped(c) + x == Escaped(d) + y
    ensures c == d && x == y
  {
    EscapedLength(c);
    EscapedLength(d);
    hide Escaped;
    var t := Escaped(c) + x;
    assert t[0] == Escaped(c)[0] == Escaped(d)[0];
    if |Escaped(c)| > 1 {
      assert t[1] == Escaped(c)[1];
    }
    if |Escaped(d)| > 1 {
      assert t[1] == Escaped(d)[1];
    }
    Cancel(Escaped(c), Escaped(d), x, y);
    SameEscape(c, d);
  }

  /** A string ends at its closing quote, so what comes before it and after it is determined. */
  lemma {:induction false} StringIsPrefixFree(a: string, b: string, x: string, y: string)
    requires Tail(a) + x == Tail(b) + y
    ensures a == b && x == y
    decreases |a|
  {
    if a == "" || b == "" {
      EmptyString(a, b, x, y);
    } else {
      TailUnfolds(a, x);
      TailUnfolds(b, y);
      EscapeIsPrefixFree(a[0], b[0], Tail(a[1..]) + x, Tail(b[1..]) + y);
      StringIsPrefixFree(a[1..], b[1..], x, y);
      assert a == [a[0]] + a[1..] && b == [b[0]] + b[1..];
    }
  }

  lemma TailUnfolds(a: string, x: string)
    requires a != ""
    ensures Tail(a) + x == Escaped(a[0]) + (Tail(a[1..]) + x)
  {
    hide Escaped;
    Assoc(Escaped(a[0]), EscapedAll(a[1..]), ['"']);
    Assoc(Escaped(a[0]), Tail(a[1..]), x);
  }

  lemma EmptyString(a: string, b: string, x: string, y: string)
    requires (a == "" || b == "") && Tail(a) + x == Tail(b) + y
    ensures a == b && x == y
  {
    FirstOfTail(a, x);
    FirstOfTail(b, y);
    hide Tail;
    if a == "" && b == "" { Cancel(Tail(a), Tail(b), x, y); }
  }

  lemma FirstOfTail(a: string, x: string)
    ensures (Tail(a) + x)[0] == '"' <==> a == ""
  {
    if a != "" {
      TailUnfolds(a, x);
      EscapedLength(a[0]);
      hide Escaped;
      assert (Escaped(a[0]) + (Tail(a[1..]) + x))[0] == Escaped(a[0])[0];
    }
  }

  predicate EndsNumber(rest: string) {
    rest != "" && !IsDigit(rest[0])
  }

  function LeadingDigits(s: string): nat {
    if s == "" || !IsDigit(s[0]) then 0 else 1 + LeadingDigits(s[1..])
  }

  lemma {:induction false} DigitsEnd(p: string, rest: string)
    requires (forall c | c in p :: IsDigit(c)) && EndsNumber(rest)
    ensures LeadingDigits(p + rest) == |p|
  {
    if p == "" {
      assert p + rest == rest;
    } else {
      assert IsDigit(p[0]);
      DigitsEnd(p[1..], rest);
      assert (p + rest)[1..] == p[1..] + rest;
    }
  }

  /** A number ends where its digits do. */
  lemma NumberIsPrefixFree(m: nat, n: nat, x: string, y: string)
    requires Decimal(m) + x == Decimal(n) + y && EndsNumber(x) && EndsNumber(y)
    ensures m == n && x == y
  {
    DigitsEnd(Decimal(m), x);
    DigitsEnd(Decimal(n), y);
    Cancel(Decimal(m), Decimal(n), x, y);
    DecimalIsInjective(m, n);
  }

  // What follows each part of an artifact.
  function AfterName(a: Artifact, x: string): string {
    ",\"size\":" + (Decimal(a.size) + AfterSize(a, x))
  }

  function AfterSize(a: Artifact, x: string): string {
    ",\"sha256\":\"" + (Tail(a.sha256) + ("}" + x))
  }

  lemma ArtifactSpread(a: Artifact, x: string)
    ensures ArtifactText(a) + x == "{\"name\":\"" + (Tail(a.name) + AfterName(a, x))
  {
    hide Tail, Decimal;
    var t5 := Tail(a.sha256) + "}";
    var t4 := ",\"sha256\":\"" + t5;
    var t3 := Decimal(a.size) + t4;
    var t2 := ",\"size\":" + t3;
    var t1 := Tail(a.name) + t2;
    Assoc("{\"name\":\"", t1, x);
    Assoc(Tail(a.name), t2, x);
    Assoc(",\"size\":", t3, x);
    Assoc(Decimal(a.size), t4, x);
    Assoc(",\"sha256\":\"", t5, x);
    Assoc(Tail(a.sha256), "}", x);
  }

  lemma AfterSizeEndsNumber(a: Artifact, x: string)
    ensures EndsNumber(AfterSize(a, x))
  {
    assert AfterSize(a, x)[0] == ',';
  }

  lemma ArtifactIsPrefixFree(a: Artifact, b: Artifact, x: string, y: string)
    requires ArtifactText(a) + x == ArtifactText(b) + y
    ensures a == b && x == y
  {
    hide Tail, Decimal, ArtifactText, LeadingDigits, EndsNumber;
    ArtifactSpread(a, x);
    ArtifactSpread(b, y);
    Cancel("{\"name\":\"", "{\"name\":\"", Tail(a.name) + AfterName(a, x), Tail(b.name) + AfterName(b, y));
    StringIsPrefixFree(a.name, b.name, AfterName(a, x), AfterName(b, y));
    Cancel(",\"size\":", ",\"size\":", Decimal(a.size) + AfterSize(a, x), Decimal(b.size) + AfterSize(b, y));
    AfterSizeEndsNumber(a, x);
    AfterSizeEndsNumber(b, y);
    NumberIsPrefixFree(a.size, b.size, AfterSize(a, x), AfterSize(b, y));
    Cancel(",\"sha256\":\"", ",\"sha256\":\"", Tail(a.sha256) + ("}" + x), Tail(b.sha256) + ("}" + y));
    StringIsPrefixFree(a.sha256, b.sha256, "}" + x, "}" + y);
    Cancel("}", "}", x, y);
  }

  /** What follows an optional artifact does not look like one with its key. */
  predicate Follows(rest: string, key: string) {
    rest != "" && key != "" && (rest[0] == ',' ==> |rest| > 2 && |key| > 1 && rest[2] != key[1])
  }

  lemma OptionalIsPrefixFree(key: string, a: Option<Artifact>, b: Option<Artifact>, x: string, y: string)
    requires OptionalText(key, a) + x == OptionalText(key, b) + y && Follows(x, key) && Follows(y, key)
    ensures a == b && x == y
  {
    hide ArtifactText;
    if a.Some? { OptionalSpread(key, a.value, x); } else { assert OptionalText(key, a) + x == x; }
    if b.Some? { OptionalSpread(key, b.value, y); } else { assert OptionalText(key, b) + y == y; }
    if a.Some? && b.Some? {
      Cancel(",", ",", key + (":" + (ArtifactText(a.value) + x)), key + (":" + (ArtifactText(b.value) + y)));
      Cancel(key, key, ":" + (ArtifactText(a.value) + x), ":" + (ArtifactText(b.value) + y));
      Cancel(":", ":", ArtifactText(a.value) + x, ArtifactText(b.value) + y);
      ArtifactIsPrefixFree(a.value, b.value, x, y);
    }
  }

  lemma OptionalSpread(key: string, a: Artifact, x: string)
    ensures OptionalText(key, Some(a)) + x == "," + (key + (":" + (ArtifactText(a) + x)))
    ensures (OptionalText(key, Some(a)) + x)[0] == ','
    ensures |key| > 1 ==> |OptionalText(key, Some(a)) + x| > 2 && (OptionalText(key, Some(a)) + x)[2] == key[1]
  {
    hide ArtifactText;
    Assoc(",", key + (":" + ArtifactText(a)), x);
    Assoc(key, ":" + ArtifactText(a), x);
    Assoc(":", ArtifactText(a), x);
  }

  // What follows each part of the manifest.
  function AfterFormat(m: Manifest): string { ",\"version\":\"" + (Tail(m.version) + AfterVersion(m)) }

  function AfterVersion(m: Manifest): string { ",\"platform\":\"" + (Tail(m.platform) + AfterPlatform(m)) }

  function AfterPlatform(m: Manifest): string { ",\"arch\":\"" + (Tail(m.arch) + AfterArch(m)) }

  function AfterArch(m: Manifest): string { ",\"artifact\":" + (ArtifactText(m.artifact) + AfterArtifact(m)) }

  function AfterArtifact(m: Manifest): string { OptionalText("\"updateArchive\"", m.updateArchive) + AfterArchive(m) }

  function AfterArchive(m: Manifest): string { OptionalText("\"blockMap\"", m.blockMap) + "}" }

  lemma TextByParts(m: Manifest)
    ensures SigningText(m) == "{\"format\":" + (Decimal(m.format) + AfterFormat(m))
    ensures EndsNumber(AfterFormat(m))
    ensures Follows(AfterArchive(m), "\"updateArchive\"") && Follows("}", "\"blockMap\"")
  {
    hide Tail, Decimal, ArtifactText;
    assert AfterFormat(m)[0] == ',';
    if m.blockMap.Some? {
      OptionalSpread("\"blockMap\"", m.blockMap.value, "}");
      assert "\"updateArchive\""[1] == 'u' && "\"blockMap\""[1] == 'b';
    } else {
      assert AfterArchive(m) == "}";
    }
  }

  /** The same manifest, signatures aside. */
  predicate SameContent(m: Manifest, n: Manifest) {
    m.(signature := None) == n.(signature := None)
  }

  lemma SameTails(m: Manifest, n: Manifest)
    requires AfterArtifact(m) == AfterArtifact(n)
    ensures m.updateArchive == n.updateArchive && m.blockMap == n.blockMap
  {
    hide OptionalText, Follows;
    TextByParts(m);
    TextByParts(n);
    OptionalIsPrefixFree("\"updateArchive\"", m.updateArchive, n.updateArchive, AfterArchive(m), AfterArchive(n));
    OptionalIsPrefixFree("\"blockMap\"", m.blockMap, n.blockMap, "}", "}");
  }

  /** The signed text determines every field but the signature, and does not depend on that one. */
  lemma SigningTextIsInjective(m: Manifest, n: Manifest)
    ensures SigningText(m) == SigningText(n) <==> SameContent(m, n)
  {
    if SigningText(m) == SigningText(n) {
      hide Tail, Decimal, ArtifactText, OptionalText, SigningText, EndsNumber, Follows, AfterArtifact;
      TextByParts(m);
      TextByParts(n);
      Cancel("{\"format\":", "{\"format\":", Decimal(m.format) + AfterFormat(m), Decimal(n.format) + AfterFormat(n));
      NumberIsPrefixFree(m.format, n.format, AfterFormat(m), AfterFormat(n));
      Cancel(",\"version\":\"", ",\"version\":\"", Tail(m.version) + AfterVersion(m), Tail(n.version) + AfterVersion(n));
      StringIsPrefixFree(m.version, n.version, AfterVersion(m), AfterVersion(n));
      Cancel(",\"platform\":\"", ",\"platform\":\"", Tail(m.platform) + AfterPlatform(m), Tail(n.platform) + AfterPlatform(n));
      StringIsPrefixFree(m.platform, n.platform, AfterPlatform(m), AfterPlatform(n));
      Cancel(",\"arch\":\"", ",\"arch\":\"", Tail(m.arch) + AfterArch(m), Tail(n.arch) + AfterArch(n));
      StringIsPrefixFree(m.arch, n.arch, AfterArch(m), AfterArch(n));
      Cancel(",\"artifact\":", ",\"artifact\":", ArtifactText(m.artifact) + AfterArtifact(m), ArtifactText(n.artifact) + AfterArtifact(n));
      ArtifactIsPrefixFree(m.artifact, n.artifact, AfterArtifact(m), AfterArtifact(n));
      SameTails(m, n);
    }
  }

  /** What is signed: the text in UTF-8. */
  function SigningBytes(m: Manifest): seq<Byte> {
    EncodedAll(SigningText(m))
  }

  /** So do the signed bytes. */
  lemma SigningBytesAreInjective(m: Manifest, n: Manifest)
    ensures SigningBytes(m) == SigningBytes(n) <==> SameContent(m, n)
  {
    SigningTextIsInjective(m, n);
    hide SigningText, EncodedAll, SameContent;
    if SigningBytes(m) == SigningBytes(n) { EncodingIsInjective(SigningText(m), SigningText(n)); }
  }

  // ---------------------------------------------------------------------------
  // Signatures

  /**
   Ed25519 (section 5.1 of RFC 8032), taken as it stands: keys as text, `publicOf` and `parse` absent for keys that
   are not Ed25519 keys, signatures in their base64 form.
   */
  datatype Scheme = Scheme(
    publicOf: string -> Option<string>,           // the public half of a private key
    parse: string -> Option<string>,              // a public key as configured
    sign: (string, seq<Byte>) -> string,          // private key, bytes
    verify: (string, seq<Byte>, string) -> bool)  // parsed public key, bytes, signature

  datatype SigningError = KeyMismatch | NotAnEd25519Key | SignatureMissingOrInvalid

  /** What a private key signs, its public key accepts. */
  ghost predicate Correct(scheme: Scheme) {
    forall key: string, bytes: seq<Byte> | scheme.publicOf(key).Some? ::
      scheme.verify(scheme.publicOf(key).value, bytes, scheme.sign(key, bytes))
  }

  /** No other public key accepts it. */
  ghost predicate Exclusive(scheme: Scheme) {
    forall key: string, bytes: seq<Byte>, public: string | scheme.verify(public, bytes, scheme.sign(key, bytes)) ::
      scheme.publicOf(key) == Some(public)
  }

  function Attached(scheme: Scheme, m: Manifest, privateKey: string): Manifest {
    m.(signature := Some(Signature("ed25519", scheme.sign(privateKey, SigningBytes(m)))))
  }

  function SignDesktopManifest(scheme: Scheme, m: Manifest, privateKey: string, publicKey: string): Result<Manifest, SigningError> {
    if scheme.parse(publicKey).None? then Err(NotAnEd25519Key)
    else if scheme.publicOf(privateKey) != scheme.parse(publicKey) then Err(KeyMismatch)
    else Ok(Attached(scheme, m, privateKey))
  }

  /** No pinned key means `false`; with one, anything but a good signature is an error. */
  function VerifyDesktopManifestSignature(scheme: Scheme, m: Manifest, publicKey: string): Result<bool, SigningError> {
    if publicKey == "" then Ok(false)
    else if m.signature.None? || m.signature.value.algorithm != "ed25519" then Err(SignatureMissingOrInvalid)
    else if scheme.parse(publicKey).None? then Err(NotAnEd25519Key)
    else if !scheme.verify(scheme.parse(publicKey).value, SigningBytes(m), m.signature.value.value)
    then Err(SignatureMissingOrInvalid)
    else Ok(true)
  }

  lemma AttachedKeepsContent(scheme: Scheme, m: Manifest, privateKey: string)
    ensures SameContent(Attached(scheme, m, privateKey), m)
    ensures SigningBytes(Attached(scheme, m, privateKey)) == SigningBytes(m)
  {
    SigningBytesAreInjective(Attached(scheme, m, privateKey), m);
    hide SigningBytes;
  }

  /** Signing then verifying with the matching key succeeds, and changes nothing but the signature. */
  lemma SignedManifestVerifies(scheme: Scheme, m: Manifest, privateKey: string, publicKey: string)
    requires Correct(scheme) && publicKey != ""
    requires SignDesktopManifest(scheme, m, privateKey, publicKey).Ok?
    ensures var signed := SignDesktopManifest(scheme, m, privateKey, publicKey).value;
            && SameContent(signed, m)
            && VerifyDesktopManifestSignature(scheme, signed, publicKey) == Ok(true)
  {
    AttachedKeepsContent(scheme, m, privateKey);
    hide SigningBytes;
  }

  /**
   Signing refuses exactly what would not verify: a manifest is handed out if and only if the
   signature its private key makes is accepted under the configured public key.
   */
  lemma SigningRefusesWhatWouldFail(scheme: Scheme, m: Manifest, privateKey: string, publicKey: string)
    requires Correct(scheme) && Exclusive(scheme) && scheme.parse("").None?
    ensures SignDesktopManifest(scheme, m, privateKey, publicKey).Ok?
       <==> VerifyDesktopManifestSignature(scheme, Attached(scheme, m, privateKey), publicKey) == Ok(true)
  {
    AttachedKeepsContent(scheme, m, privateKey);
    hide SigningBytes;
  }

  /** A signature accepted for one content only is accepted on exactly the manifests with the signed content. */
  lemma SignatureBindsContent(scheme: Scheme, m: Manifest, n: Manifest, publicKey: string)
    requires VerifyDesktopManifestSignature(scheme, m, publicKey) == Ok(true)
    requires n.signature == m.signature
    requires forall bytes: seq<Byte> |
               scheme.verify(scheme.parse(publicKey).value, bytes, m.signature.value.value) :: bytes == SigningBytes(m)
    ensures VerifyDesktopManifestSignature(scheme, n, publicKey) ==
      if SameContent(m, n) then Ok(true) else Err(SignatureMissingOrInvalid)
  {
    SigningBytesAreInjective(m, n);
    hide SigningBytes;
  }

  /** From signing to checking: what was signed verifies on the manifest it was made for and on no other. */
  lemma SignedManifestBindsContent(scheme: Scheme, m: Manifest, n: Manifest, privateKey: string, publicKey: string)
    requires Correct(scheme) && publicKey != ""
    requires SignDesktopManifest(scheme, m, privateKey, publicKey).Ok?
    requires forall bytes: seq<Byte> |
               scheme.verify(scheme.parse(publicKey).value, bytes, scheme.sign(privateKey, SigningBytes(m))) ::
               bytes == SigningBytes(m)
    ensures var signed := SignDesktopManifest(scheme, m, privateKey, publicKey).value;
            VerifyDesktopManifestSignature(scheme, n.(signature := signed.signature), publicKey) ==
              if SameContent(m, n) then Ok(true) else Err(SignatureMissingOrInvalid)
  {
    var signed := SignDesktopManifest(scheme, m, privateKey, publicKey).value;
    SignedManifestVerifies(scheme, m, privateKey, publicKey);
    AttachedKeepsContent(scheme, m, privateKey);
    hide SigningBytes, VerifyDesktopManifestSignature;
    SignatureBindsContent(scheme, signed, n.(signature := signed.signature), publicKey);
  }
}
