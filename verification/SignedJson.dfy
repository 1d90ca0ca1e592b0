/**
 The text that is signed is the JSON of the manifest (electron/lib/desktop-update-signing.ts:33-52):
 a reader that knows nothing of how it was written finds the members, in order, with their values.
 */
module SignedJson {
  import opened Results
  import opened Sequences
  import opened Decimals
  import opened ManifestSigning
  import J = JsonReader
  import U = Utf8

  // ---------------------------------------------------------------------------
  // Strings and numbers

  lemma EscapeIsRead(c: char, x: string)
    ensures Escaped(c)[0] != '"' && J.ReadCharacter(Escaped(c) + x) == Some((c, |Escaped(c)|))
  {
    EscapedLength(c);
    var n := c as int;
    if n < 32 && |Escaped(c)| == 6 {
      var h := HexDigit(n / 16);
      var l := HexDigit(n % 16);
      assert (Escaped(c) + x)[2..6] == ['0', '0', h, l];
      assert J.HexValue(h) == Some(n / 16) && J.HexValue(l) == Some(n % 16);
    }
  }

  lemma {:induction false} StringIsRead(a: string, x: string)
    ensures J.ReadString(Tail(a) + x) == Some((a, x))
    decreases |a|
  {
    if a == "" {
      assert (Tail(a) + x)[1..] == x;
    } else {
      TailUnfolds(a, x);
      EscapeIsRead(a[0], Tail(a[1..]) + x);
      EscapedLength(a[0]);
      StringIsRead(a[1..], x);
      hide Escaped, Tail, J.ReadCharacter;
      var e, more := Escaped(a[0]), Tail(a[1..]) + x;
      assert (e + more)[0] == e[0] && (e + more)[|e|..] == more;
      assert [a[0]] + a[1..] == a;
    }
  }

  lemma {:induction false} DigitsAreRead(p: string, x: string, n: nat)
    requires (forall c | c in p :: IsDigit(c)) && EndsNumber(x)
    ensures J.ReadDigits(p + x, n) == (Continued(p, n), x)
    decreases |p|
  {
    if p == "" {
      assert p + x == x;
    } else {
      assert IsDigit(p[0]);
      assert (p + x)[1..] == p[1..] + x;
      DigitsAreRead(p[1..], x, 10 * n + (p[0] - '0') as int);
    }
  }

  /** The number whose digits are those of `n` and then `p`. */
  function Continued(p: string, n: nat): nat
    requires forall c | c in p :: IsDigit(c)
    decreases |p|
  {
    if p == "" then n
    else
      assert IsDigit(p[0]);
      Continued(p[1..], 10 * n + (p[0] - '0') as int)
  }

  lemma {:induction false} ContinuedSnoc(p: string, c: char, n: nat)
    requires (forall d | d in p :: IsDigit(d)) && IsDigit(c)
    ensures forall d | d in p + [c] :: IsDigit(d)
    ensures Continued(p + [c], n) == 10 * Continued(p, n) + (c - '0') as int
    decreases |p|
  {
    if p == "" {
      assert p + [c] == [c] && [c][1..] == "";
    } else {
      assert IsDigit(p[0]);
      assert (p + [c])[1..] == p[1..] + [c];
      ContinuedSnoc(p[1..], c, 10 * n + (p[0] - '0') as int);
    }
  }

  lemma {:induction false} DecimalContinues(n: nat)
    requires n > 0
    ensures Decimal(n)[0] != '0' && IsDigit(Decimal(n)[0])
    ensures Continued(Decimal(n)[1..], (Decimal(n)[0] - '0') as int) == n
  {
    if n < 10 {
      assert Decimal(n)[1..] == "";
    } else {
      DecimalContinues(n / 10);
      var init, last := Decimal(n / 10), Digit(n % 10);
      assert IsDigit(init[0]) && IsDigit(last);
      assert Decimal(n) == init + [last] && Decimal(n)[0] == init[0];
      assert Decimal(n)[1..] == init[1..] + [last];
      ContinuedSnoc(init[1..], last, (init[0] - '0') as int);
    }
  }

  lemma NumberIsRead(n: nat, x: string)
    requires EndsNumber(x)
    ensures J.ReadValue(Decimal(n) + x) == Some((J.Number(n), x))
  {
    var s := Decimal(n);
    if n == 0 {
      assert s == "0" && (s + x)[1..] == x;
    } else {
      DecimalContinues(n);
      DigitsAreRead(s[1..], x, (s[0] - '0') as int);
      assert IsDigit(s[0]) && (s + x)[0] == s[0] && (s + x)[1..] == s[1..] + x;
      hide Decimal;
    }
  }

  lemma TextIsRead(a: string, x: string)
    ensures J.ReadValue("\"" + (Tail(a) + x)) == Some((J.Text(a), x))
  {
    StringIsRead(a, x);
    assert ("\"" + (Tail(a) + x))[1..] == Tail(a) + x;
    hide Tail, J.ReadString;
  }

  // ---------------------------------------------------------------------------
  // Members

  /** A key without anything to escape. */
  predicate Plain(key: string) {
    forall c | c in key :: c != '"' && c != '\\' && c as int >= 32
  }

  lemma {:induction false} PlainIsItself(key: string)
    requires Plain(key)
    ensures EscapedAll(key) == key
    decreases |key|
  {
    if key != "" {
      assert key[0] in key && forall c | c in key[1..] :: c in key;
      PlainIsItself(key[1..]);
      assert Escaped(key[0]) == [key[0]];
      hide Escaped, Plain;
      assert [key[0]] + key[1..] == key;
    }
  }

  /** A member with this key whose value is written as `value`, followed by `rest`. */
  function Member(key: string, value: string, rest: string): string {
    "\"" + (key + ("\":" + (value + rest)))
  }

  lemma MemberStarts(key: string, value: string, rest: string)
    requires Plain(key)
    ensures var s := Member(key, value, rest);
            && s[0] == '"' && J.ReadString(s[1..]) == Some((key, ":" + (value + rest)))
            && (":" + (value + rest))[1..] == value + rest
  {
    PlainIsItself(key);
    var after := ":" + (value + rest);
    StringIsRead(key, after);
    assert after[1..] == value + rest;
    assert Member(key, value, rest) == "\"" + (Tail(key) + after) by { MemberQuoted(key, value + rest); }
    hide Member, Tail, J.ReadString, Plain;
    assert ("\"" + (Tail(key) + after))[1..] == Tail(key) + after;
  }

  lemma MemberQuoted(key: string, more: string)
    requires EscapedAll(key) == key
    ensures "\"" + (key + ("\":" + more)) == "\"" + (Tail(key) + (":" + more))
  {
    hide EscapedAll;
    assert Tail(key) == key + "\"";
    Assoc("\"", ":", more);
    assert "\"" + ":" == "\":";
    hide Tail;
    Assoc(key, "\"", ":" + more);
  }

  lemma LastMember(key: string, value: string, json: J.Json, rest: string)
    requires Plain(key) && J.ReadValue(value + ("}" + rest)) == Some((json, "}" + rest))
    ensures J.ReadMembers(Member(key, value, "}" + rest)) == Some(([(key, json)], rest))
  {
    MemberStarts(key, value, "}" + rest);
    assert ("}" + rest)[1..] == rest;
    hide Member, J.ReadString, J.ReadValue, Plain;
  }

  lemma NextMember(key: string, value: string, json: J.Json, more: string, members: seq<(string, J.Json)>, rest: string)
    requires Plain(key) && J.ReadValue(value + ("," + more)) == Some((json, "," + more))
    requires J.ReadMembers(more) == Some((members, rest))
    ensures J.ReadMembers(Member(key, value, "," + more)) == Some(([(key, json)] + members, rest))
  {
    MemberStarts(key, value, "," + more);
    assert ("," + more)[1..] == more;
    hide Member, J.ReadString, J.ReadValue, Plain;
  }

  lemma ObjectIsRead(text: string, members: seq<(string, J.Json)>, rest: string)
    requires text != "" && text[0] == '"' && J.ReadMembers(text) == Some((members, rest))
    ensures J.ReadValue("{" + text) == Some((J.Object(members), rest))
  {
    assert ("{" + text)[1..] == text && ("{" + text)[1] == '"';
    hide J.ReadMembers;
  }

  // ---------------------------------------------------------------------------
  // Artifacts and manifests

  function ArtifactJson(a: Artifact): J.Json {
    J.Object([("name", J.Text(a.name)), ("size", J.Number(a.size)), ("sha256", J.Text(a.sha256))])
  }

  /** The text of an artifact as members. */
  lemma ArtifactAsMembers(a: Artifact, x: string)
    ensures ArtifactText(a) + x ==
      "{" + Member("name", "\"" + Tail(a.name),
              "," + Member("size", Decimal(a.size),
                      "," + Member("sha256", "\"" + Tail(a.sha256), "}" + x)))
  {
    hide Tail, Decimal;
    ArtifactSpread(a, x);
    var m3 := Member("sha256", "\"" + Tail(a.sha256), "}" + x);
    var m2 := Member("size", Decimal(a.size), "," + m3);
    QuotedMember("sha256", Tail(a.sha256), "}" + x);
    QuotedMember("name", Tail(a.name), "," + m2);
    assert ",\"" + "sha256" + "\":\"" == ",\"sha256\":\"" && ",\"" + "name" + "\":\"" == ",\"name\":\"";
    SizeMember(Decimal(a.size) + ("," + m3));
    NameOpens(Tail(a.name) + ("," + m2));
  }

  lemma SizeMember(more: string)
    ensures ",\"size\":" + more == "," + ("\"" + ("size" + ("\":" + more)))
  {
  }

  lemma NameOpens(more: string)
    ensures "{\"name\":\"" + more == "{" + (",\"name\":\"" + more)[1..]
  {
  }

  /** A string member after a comma. */
  lemma QuotedMember(key: string, value: string, rest: string)
    ensures ",\"" + key + "\":\"" + (value + rest) == "," + Member(key, "\"" + value, rest)
    ensures ("," + Member(key, "\"" + value, rest))[1..] == Member(key, "\"" + value, rest)
  {
    Assoc("\"", value, rest);
    Assoc(",\"" + key, "\":\"", value + rest);
    var more := value + rest;
    assert "\":\"" + more == "\":" + ("\"" + more);
    assert ",\"" + key + ("\":" + ("\"" + more)) == "," + ("\"" + (key + ("\":" + ("\"" + more))));
  }

  lemma TextMember(a: string, x: string)
    ensures J.ReadValue(("\"" + Tail(a)) + x) == Some((J.Text(a), x))
  {
    TextIsRead(a, x);
    Assoc("\"", Tail(a), x);
  }

  lemma ArtifactIsRead(a: Artifact, x: string)
    ensures J.ReadValue(ArtifactText(a) + x) == Some((ArtifactJson(a), x))
  {
    hide Tail, Decimal, J.ReadValue, J.ReadMembers, ArtifactText;
    var m3 := Member("sha256", "\"" + Tail(a.sha256), "}" + x);
    var m2 := Member("size", Decimal(a.size), "," + m3);
    var m1 := Member("name", "\"" + Tail(a.name), "," + m2);
    assert m1 != "" && m1[0] == '"';
    TextMember(a.sha256, "}" + x);
    NumberIsRead(a.size, "," + m3);
    TextMember(a.name, "," + m2);
    ArtifactAsMembers(a, x);
    hide Member;
    LastMember("sha256", "\"" + Tail(a.sha256), J.Text(a.sha256), x);
    NextMember("size", Decimal(a.size), J.Number(a.size), m3, [("sha256", J.Text(a.sha256))], x);
    assert [("size", J.Number(a.size))] + [("sha256", J.Text(a.sha256))]
        == [("size", J.Number(a.size)), ("sha256", J.Text(a.sha256))];
    NextMember("name", "\"" + Tail(a.name), J.Text(a.name), m2,
      [("size", J.Number(a.size)), ("sha256", J.Text(a.sha256))], x);
    assert [("name", J.Text(a.name))] + [("size", J.Number(a.size)), ("sha256", J.Text(a.sha256))]
        == [("name", J.Text(a.name)), ("size", J.Number(a.size)), ("sha256", J.Text(a.sha256))];
    ObjectIsRead(m1, [("name", J.Text(a.name)), ("size", J.Number(a.size)), ("sha256", J.Text(a.sha256))], x);
  }

  function OptionalMember(key: string, a: Option<Artifact>): seq<(string, J.Json)> {
    if a.Some? then [(key, ArtifactJson(a.value))] else []
  }

  /** The members a signed manifest has, in this order. */
  function ManifestMembers(m: Manifest): seq<(string, J.Json)> {
    [("format", J.Number(m.format)), ("version", J.Text(m.version)), ("platform", J.Text(m.platform)),
     ("arch", J.Text(m.arch)), ("artifact", ArtifactJson(m.artifact))]
    + OptionalMember("updateArchive", m.updateArchive) + OptionalMember("blockMap", m.blockMap)
  }

  /** What follows a member: the end of the object, or a comma and these further members. */
  ghost predicate TailReads(tail: string, members: seq<(string, J.Json)>) {
    (tail == "}" && members == [])
    || (tail != "" && tail[0] == ',' && J.ReadMembers(tail[1..]) == Some((members, "")))
  }

  /** One member more. */
  lemma MemberWith(key: string, value: string, json: J.Json, next: string, members: seq<(string, J.Json)>)
    requires Plain(key) && J.ReadValue(value + next) == Some((json, next)) && TailReads(next, members)
    ensures J.ReadMembers(Member(key, value, next)) == Some(([(key, json)] + members, ""))
  {
    hide Member, J.ReadMembers, J.ReadValue, Plain;
    if next == "}" {
      assert next == "}" + "";
      LastMember(key, value, json, "");
      assert [(key, json)] + members == [(key, json)];
    } else {
      assert next == "," + next[1..];
      NextMember(key, value, json, next[1..], members, "");
    }
  }

  lemma TailWith(tail: string, key: string, value: string, json: J.Json, next: string, members: seq<(string, J.Json)>)
    requires tail == "," + Member(key, value, next)
    requires Plain(key) && J.ReadValue(value + next) == Some((json, next)) && TailReads(next, members)
    ensures TailReads(tail, [(key, json)] + members)
  {
    MemberWith(key, value, json, next, members);
    assert tail[1..] == Member(key, value, next);
    hide Member, J.ReadMembers, J.ReadValue, Plain;
  }

  lemma OptionalAsMember(name: string, a: Artifact, x: string)
    ensures OptionalText("\"" + name + "\"", Some(a)) + x == "," + Member(name, ArtifactText(a), x)
  {
    hide ArtifactText;
    var key := "\"" + name + "\"";
    OptionalSpread(key, a, x);
    assert key + (":" + (ArtifactText(a) + x)) == Member(name, ArtifactText(a), x);
  }

  lemma OptionalTail(name: string, a: Option<Artifact>, next: string, members: seq<(string, J.Json)>)
    requires Plain(name) && TailReads(next, members)
    ensures TailReads(OptionalText("\"" + name + "\"", a) + next, OptionalMember(name, a) + members)
  {
    hide TailReads, ArtifactText, ArtifactJson, Plain;
    var tail := OptionalText("\"" + name + "\"", a) + next;
    if a.Some? {
      OptionalAsMember(name, a.value, next);
      ArtifactIsRead(a.value, next);
      hide OptionalText;
      TailWith(tail, name, ArtifactText(a.value), ArtifactJson(a.value), next, members);
    } else {
      assert tail == next && OptionalMember(name, a) + members == members;
    }
  }

  lemma Optionals(m: Manifest)
    ensures TailReads(AfterArtifact(m), OptionalMember("updateArchive", m.updateArchive) + OptionalMember("blockMap", m.blockMap))
  {
    hide OptionalText, OptionalMember, ArtifactText;
    assert TailReads("}", []);
    assert "\"" + "blockMap" + "\"" == "\"blockMap\"" && "\"" + "updateArchive" + "\"" == "\"updateArchive\"";
    PlainKeys();
    hide TailReads, Plain;
    OptionalTail("blockMap", m.blockMap, "}", []);
    assert OptionalMember("blockMap", m.blockMap) + [] == OptionalMember("blockMap", m.blockMap);
    OptionalTail("updateArchive", m.updateArchive, AfterArchive(m), OptionalMember("blockMap", m.blockMap));
  }

  lemma PlainKeys()
    ensures Plain("format") && Plain("version") && Plain("platform") && Plain("arch") && Plain("artifact")
    ensures Plain("updateArchive") && Plain("blockMap")
  {
  }

  /** The members from the artifact on, from the architecture on, and so on. */
  lemma ArtifactTail(m: Manifest)
    ensures TailReads(AfterArch(m), [("artifact", ArtifactJson(m.artifact))]
              + (OptionalMember("updateArchive", m.updateArchive) + OptionalMember("blockMap", m.blockMap)))
  {
    Optionals(m);
    PlainKeys();
    hide TailReads, ArtifactText, ArtifactJson, OptionalText, OptionalMember, Plain, AfterArtifact;
    ArtifactIsRead(m.artifact, AfterArtifact(m));
    assert AfterArch(m) == "," + Member("artifact", ArtifactText(m.artifact), AfterArtifact(m));
    TailWith(AfterArch(m), "artifact", ArtifactText(m.artifact), ArtifactJson(m.artifact), AfterArtifact(m),
      OptionalMember("updateArchive", m.updateArchive) + OptionalMember("blockMap", m.blockMap));
  }

  /** A string member written the way the manifest's are. */
  lemma TextTail(key: string, a: string, next: string, members: seq<(string, J.Json)>)
    requires Plain(key) && TailReads(next, members)
    ensures TailReads(",\"" + key + "\":\"" + (Tail(a) + next), [(key, J.Text(a))] + members)
  {
    hide TailReads, Tail, Plain;
    TextMember(a, next);
    var tail := ",\"" + key + "\":\"" + (Tail(a) + next);
    QuotedMember(key, Tail(a), next);
    hide Member;
    TailWith(tail, key, "\"" + Tail(a), J.Text(a), next, members);
  }

  lemma VersionTail(m: Manifest)
    ensures TailReads(AfterFormat(m), ManifestMembers(m)[1..])
  {
    hide TailReads, Tail, Plain, AfterArch, ArtifactJson, OptionalMember;
    PlainKeys();
    ArtifactTail(m);
    var m1 := [("artifact", ArtifactJson(m.artifact))]
              + (OptionalMember("updateArchive", m.updateArchive) + OptionalMember("blockMap", m.blockMap));
    assert ",\"" + "arch" + "\":\"" == ",\"arch\":\"";
    TextTail("arch", m.arch, AfterArch(m), m1);
    var m2 := [("arch", J.Text(m.arch))] + m1;
    assert ",\"" + "platform" + "\":\"" == ",\"platform\":\"";
    TextTail("platform", m.platform, AfterPlatform(m), m2);
    var m3 := [("platform", J.Text(m.platform))] + m2;
    assert ",\"" + "version" + "\":\"" == ",\"version\":\"";
    TextTail("version", m.version, AfterVersion(m), m3);
    assert [("version", J.Text(m.version))] + m3 == ManifestMembers(m)[1..];
  }

  lemma FirstMember(m: Manifest)
    ensures SigningText(m) == "{" + Member("format", Decimal(m.format), AfterFormat(m))
    ensures Member("format", Decimal(m.format), AfterFormat(m))[0] == '"'
    ensures EndsNumber(AfterFormat(m))
  {
    TextByParts(m);
    hide SigningText, AfterFormat, Decimal, EndsNumber;
    var rest := Decimal(m.format) + AfterFormat(m);
    assert "{\"format\":" + rest == "{" + ("\"" + ("format" + ("\":" + rest)));
  }

  lemma MembersByParts(m: Manifest)
    ensures [("format", J.Number(m.format))] + ManifestMembers(m)[1..] == ManifestMembers(m)
  {
    hide ArtifactJson, OptionalMember;
  }

  /** Reading the signed text gives the manifest's members, each with its own value, and nothing is left over. */
  lemma SigningTextIsRead(m: Manifest)
    ensures J.ReadValue(SigningText(m)) == Some((J.Object(ManifestMembers(m)), ""))
  {
    VersionTail(m);
    PlainKeys();
    hide *;
    FirstMember(m);
    MembersByParts(m);
    NumberIsRead(m.format, AfterFormat(m));
    MemberWith("format", Decimal(m.format), J.Number(m.format), AfterFormat(m), ManifestMembers(m)[1..]);
    ObjectIsRead(Member("format", Decimal(m.format), AfterFormat(m)), ManifestMembers(m), "");
  }

  /**
   Of the ways to write a character the one `JSON.stringify` uses: itself, unless it is a quote, a
   backslash or a control character; two characters where there is a short escape; and lower-case
   hexadecimal digits.
   */
  lemma EscapesAreShortest(c: char)
    ensures |Escaped(c)| == 1 <==> c as int >= 32 && c as int != 34 && c as int != 92
    ensures |Escaped(c)| == 2 <==> c as int in {8, 9, 10, 12, 13, 34, 92}
    ensures |Escaped(c)| == 6 ==> forall k | 2 <= k < 6 :: Escaped(c)[k] in "0123456789abcdef"
    ensures J.ReadCharacter(Escaped(c)) == Some((c, |Escaped(c)|))
  {
    EscapeIsRead(c, "");
    assert Escaped(c) + "" == Escaped(c);
    var digits := "0123456789abcdef";
    forall d: nat | d < 16
      ensures HexDigit(d) in digits
    {
      assert digits[d] == HexDigit(d);
    }
  }

  /** The signed bytes are UTF-8, and what they hold is the JSON of the manifest. */
  lemma SigningBytesAreRead(m: Manifest)
    ensures var text := U.Decoded(SigningBytes(m));
            text.Some? && J.ReadValue(text.value) == Some((J.Object(ManifestMembers(m)), ""))
  {
    SigningTextIsRead(m);
    U.EncodedIsDecoded(SigningText(m));
  }

  /** The bytes are the JSON of the manifest in UTF-8. */
  predicate IsJsonOf(bytes: seq<Byte>, m: Manifest) {
    var text := U.Decoded(bytes);
    text.Some? && J.ReadValue(text.value) == Some((J.Object(ManifestMembers(m)), ""))
  }

  /**
   A manifest is accepted as genuine only for a pinned key, and only if that accepts the signature
   on its JSON; only without a pinned key is it let through unverified.
   */
  lemma AcceptedIsSigned(scheme: Scheme, m: Manifest, publicKey: string)
    ensures var r := VerifyDesktopManifestSignature(scheme, m, publicKey);
            && (r == Ok(false) <==> publicKey == "")
            && (r == Ok(true) ==>
                  && publicKey != "" && scheme.parse(publicKey).Some?
                  && m.signature.Some? && m.signature.value.algorithm == "ed25519"
                  && exists bytes :: IsJsonOf(bytes, m)
                                  && scheme.verify(scheme.parse(publicKey).value, bytes, m.signature.value.value))
  {
    SigningBytesAreRead(m);
    hide SigningBytes, ManifestMembers, U.Decoded;
    assert IsJsonOf(SigningBytes(m), m);
  }

  /** A manifest is signed on its JSON, and with a key whose public half is the pinned one. */
  lemma SignedIsJson(scheme: Scheme, m: Manifest, privateKey: string, publicKey: string)
    requires SignDesktopManifest(scheme, m, privateKey, publicKey).Ok?
    ensures var signed := SignDesktopManifest(scheme, m, privateKey, publicKey).value;
            && scheme.parse(publicKey).Some? && scheme.publicOf(privateKey) == scheme.parse(publicKey)
            && signed.signature.Some? && signed.signature.value.algorithm == "ed25519"
            && exists bytes :: IsJsonOf(bytes, signed) && signed.signature.value.value == scheme.sign(privateKey, bytes)
  {
    AttachedKeepsContent(scheme, m, privateKey);
    SigningBytesAreRead(Attached(scheme, m, privateKey));
    hide SigningBytes, ManifestMembers, U.Decoded;
    assert IsJsonOf(SigningBytes(m), Attached(scheme, m, privateKey));
  }
}
