/**
 What the queries derived from a listing consist of, character by character
 (scripts/workspace-search-bench.ts:167-190).
 */
module SearchQueries {
  import opened Sequences
  import opened PathIndexing
  import opened SearchIntents

  function SlashPlaces(s: string): set<nat> {
    set i: nat | i < |s| && s[i] == '/'
  }

  lemma {:induction false} SegmentsMeans(s: string)
    ensures Segments(s) == 1 + |SlashPlaces(s)|
  {
    if s == "" {
      assert SlashPlaces(s) == {};
    } else {
      var init, n := s[..|s| - 1], |s| - 1;
      SegmentsMeans(init);
      assert forall i | 0 <= i < n :: init[i] == s[i];
      assert SlashPlaces(s) == SlashPlaces(init) + if s[n] == '/' then {n} else {};
    }
  }

  /** The first of the entries with the most slashes. */
  ghost predicate FirstDeepest(entries: seq<string>, i: nat) {
    && i < |entries|
    && (forall j | 0 <= j < |entries| :: |SlashPlaces(entries[j])| <= |SlashPlaces(entries[i])|)
    && (forall j | 0 <= j < i :: |SlashPlaces(entries[j])| < |SlashPlaces(entries[i])|)
  }

  lemma DeepestUnfolds(entries: seq<string>)
    requires |entries| > 1
    ensures var init, last := entries[..|entries| - 1], entries[|entries| - 1];
            Deepest(entries) == if Segments(last) > Segments(Deepest(init)) then last else Deepest(init)
  {
    hide Segments;
  }

  lemma FirstDeepestGrows(entries: seq<string>, i: nat)
    requires entries != [] && FirstDeepest(entries[..|entries| - 1], i)
    ensures var n := |entries| - 1;
            FirstDeepest(entries, if |SlashPlaces(entries[n])| > |SlashPlaces(entries[i])| then n else i)
  {
    hide SlashPlaces;
    assert forall j | 0 <= j < |entries| - 1 :: entries[..|entries| - 1][j] == entries[j];
  }

  lemma {:induction false} DeepestMeans(entries: seq<string>) returns (i: nat)
    requires entries != []
    ensures FirstDeepest(entries, i) && entries[i] == Deepest(entries)
  {
    hide SlashPlaces, Segments;
    if |entries| == 1 {
      i := 0;
    } else {
      hide Deepest;
      var init, n := entries[..|entries| - 1], |entries| - 1;
      i := DeepestMeans(init);
      SegmentsMeans(entries[n]);
      SegmentsMeans(init[i]);
      DeepestUnfolds(entries);
      FirstDeepestGrows(entries, i);
      hide FirstDeepest;
      if |SlashPlaces(entries[n])| > |SlashPlaces(init[i])| { i := n; }
    }
  }

  /** The stem of the name is its first `n` characters: up to the last dot, unless that begins it. */
  predicate StemEnds(name: string, n: nat) {
    && n <= |name|
    && if n < |name| then n > 0 && name[n] == '.' && forall i | n < i < |name| :: name[i] != '.'
       else forall i | 0 < i < |name| :: name[i] != '.'
  }

  lemma StemMeans(name: string)
    ensures |Stem(name)| <= |name| && StemEnds(name, |Stem(name)|) && Stem(name) == name[..|Stem(name)|]
  {
    Whole(name);
  }

  /** The same letter, and not a capital one. */
  predicate SmallOf(c: char, d: char) {
    SameLetter(c, d) && !(65 <= c as int <= 90)
  }

  lemma LowerIsSmall(c: char)
    ensures SmallOf(Lower(c), c)
  {
  }

  lemma LowerCaseIsSmall(s: string, i: nat)
    requires i < |s|
    ensures SmallOf(LowerCase(s)[i], s[i])
  {
    LowerIsSmall(s[i]);
  }

  /** The text is what the name has at these positions, in small letters. */
  predicate SmallAt(text: string, name: string, at: seq<nat>) {
    && |text| <= |at|
    && forall j | 0 <= j < |text| :: at[j] < |name| && SmallOf(text[j], name[at[j]])
  }

  function UpTo(n: nat): seq<nat> {
    seq(n, i requires 0 <= i < n => i)
  }

  lemma StemOfPath(entry: string) returns (k: nat, n: nat)
    ensures SegmentAt(entry, k) && StemEnds(entry[k..], n)
    ensures k + n <= |entry| && entry[k..n + k] == Stem(Basename(entry)) && n == |Stem(Basename(entry))|
  {
    var name := Basename(entry);
    BasenameIsSegment(entry);
    k := |entry| - |name|;
    hide Basename, SegmentAt;
    StemMeans(name);
    n := |Stem(name)|;
    hide Stem, StemEnds;
    assert entry[k..n + k] == name[..n];
  }

  predicate Marked(c: char) {
    c in "-_."
  }

  lemma MarkedMeans(c: char)
    ensures IsMark(c) <==> Marked(c)
  {
  }

  /** One of the first two characters after a mark or the start. */
  predicate BeginsPart(stem: string, i: nat)
    requires i < |stem|
  {
    && !Marked(stem[i])
    && (i < 2 || Marked(stem[i - 1]) || Marked(stem[i - 2]))
  }

  /** Exactly those positions, from left to right. */
  ghost predicate PartBeginnings(stem: string, at: seq<nat>) {
    && (forall j | 0 <= j < |at| :: at[j] < |stem| && BeginsPart(stem, at[j]))
    && (forall i | 0 <= i < |stem| && BeginsPart(stem, i) :: i in at)
    && (forall i, j | 0 <= i < j < |at| :: at[i] < at[j])
  }

  /** The last `n` characters have no mark, and before them there is one or nothing. */
  predicate Unmarked(stem: string, n: nat) {
    && n <= |stem|
    && (forall i | |stem| - n <= i < |stem| :: !Marked(stem[i]))
    && (n < |stem| ==> Marked(stem[|stem| - n - 1]))
  }

  lemma {:induction false} LastPart(stem: string)
    ensures var parts := Parts(stem); Unmarked(stem, |parts[|parts| - 1]|)
  {
    hide Marked, IsMark;
    if stem != "" {
      var init := stem[..|stem| - 1];
      LastPart(init);
      MarkedMeans(stem[|stem| - 1]);
      assert forall i | 0 <= i < |init| :: init[i] == stem[i];
    }
  }

  lemma InitialsOf(init: seq<string>, part: string)
    ensures Initials(init + [part]) == Initials(init) + part[..if |part| < 2 then |part| else 2]
  {
    assert (init + [part])[..|init|] == init;
  }

  lemma CutGrows(part: string, c: char)
    ensures var longer := part + [c];
            longer[..if |longer| < 2 then |longer| else 2]
            == part[..if |part| < 2 then |part| else 2] + if |part| < 2 then [c] else []
  {
  }

  lemma InitialsGrow(init: seq<string>, part: string, c: char)
    ensures Initials(init + [part + [c]]) == Initials(init + [part]) + if |part| < 2 then [c] else []
  {
    InitialsOf(init, part);
    InitialsOf(init, part + [c]);
    CutGrows(part, c);
    hide Initials;
    Assoc(Initials(init), part[..if |part| < 2 then |part| else 2], if |part| < 2 then [c] else []);
  }

  lemma BeginsByPart(stem: string, n: nat)
    requires stem != "" && Unmarked(stem[..|stem| - 1], n)
    ensures BeginsPart(stem, |stem| - 1) <==> !Marked(stem[|stem| - 1]) && n < 2
  {
    hide Marked;
    var init := stem[..|stem| - 1];
    assert forall i | 0 <= i < |init| :: init[i] == stem[i];
  }

  lemma PartsGrow(stem: string)
    requires stem != ""
    ensures var parts := Parts(stem[..|stem| - 1]);
            var c := stem[|stem| - 1];
            Parts(stem) == if Marked(c) then parts + [""] else parts[..|parts| - 1] + [parts[|parts| - 1] + [c]]
  {
    MarkedMeans(stem[|stem| - 1]);
    hide Marked, IsMark;
  }

  lemma NewInitial(stem: string)
    requires stem != ""
    ensures var n := |stem| - 1;
            Initials(Parts(stem)) == Initials(Parts(stem[..n])) + if BeginsPart(stem, n) then [stem[n]] else []
  {
    hide *;
    var n := |stem| - 1;
    var parts, c := Parts(stem[..n]), stem[n];
    var init, part := parts[..|parts| - 1], parts[|parts| - 1];
    LastPart(stem[..n]);
    PartsGrow(stem);
    BeginsByPart(stem, |part|);
    InitialsGrow(init, part, c);
    InitialsOf(parts, "");
    assert parts == init + [part];
  }

  lemma NoInitials()
    ensures Initials(Parts("")) == ""
  {
    assert [""][..0] == [];
  }

  lemma {:induction false} InitialsMeans(stem: string) returns (at: seq<nat>)
    ensures PartBeginnings(stem, at) && |at| == |Initials(Parts(stem))|
    ensures forall j | 0 <= j < |at| :: at[j] < |stem| && Initials(Parts(stem))[j] == stem[at[j]]
  {
    hide Marked, Initials, Parts, BeginsPart;
    if stem == "" {
      at := [];
      NoInitials();
    } else {
      var init, n := stem[..|stem| - 1], |stem| - 1;
      at := InitialsMeans(init);
      NewInitial(stem);
      hide PartBeginnings;
      assert forall j | 0 <= j < |at| :: stem[at[j]] == init[at[j]];
      at := WithLast(stem, at);
    }
  }

  lemma WithLast(stem: string, at: seq<nat>) returns (more: seq<nat>)
    requires stem != "" && PartBeginnings(stem[..|stem| - 1], at)
    ensures more == (if BeginsPart(stem, |stem| - 1) then at + [|stem| - 1] else at) && PartBeginnings(stem, more)
  {
    var init, n := stem[..|stem| - 1], |stem| - 1;
    assert forall i | 0 <= i < n :: BeginsPart(init, i) == BeginsPart(stem, i) by {
      assert forall i | 0 <= i < n :: init[i] == stem[i];
    }
    hide BeginsPart, Marked;
    more := at;
    if BeginsPart(stem, n) {
      more := at + [n];
      assert more[|at|] == n;
      assert forall i | 0 <= i < n && BeginsPart(stem, i) :: i in at && i in more;
    }
  }

  lemma SmallCut(text: string, kept: nat, name: string, at: seq<nat>)
    requires kept <= |text| == |at|
    requires forall j | 0 <= j < |at| :: at[j] < |name| && text[j] == name[at[j]]
    ensures SmallAt(LowerCase(text[..kept]), name, at)
  {
    hide SmallOf;
    forall j | 0 <= j < kept
      ensures SmallOf(LowerCase(text[..kept])[j], name[at[j]])
    {
      LowerCaseIsSmall(text[..kept], j);
    }
  }

  /**
   The token is the first six characters, in small letters, of the stem of the first file with the
   most segments, or all of a shorter stem.
   */
  lemma TokenMeans(entries: seq<string>) returns (i: nat, k: nat, n: nat)
    requires entries != []
    ensures FirstDeepest(entries, i) && SegmentAt(entries[i], k) && StemEnds(entries[i][k..], n)
    ensures |Token(entries)| == (if n < 6 then n else 6) && SmallAt(Token(entries), entries[i][k..n + k], UpTo(n))
  {
    i := DeepestMeans(entries);
    k, n := StemOfPath(entries[i]);
    hide Deepest, Basename, Stem, FirstDeepest, SegmentAt, StemEnds, SmallAt;
    var stem := Stem(Basename(entries[i]));
    SmallCut(stem, if n < 6 then n else 6, stem, UpTo(n));
  }

  /**
   The abbreviation is the first six, in small letters, of the characters that begin the parts of
   that stem, two a part.
   */
  lemma AbbreviationMeans(entries: seq<string>) returns (i: nat, k: nat, n: nat, at: seq<nat>)
    requires entries != []
    ensures FirstDeepest(entries, i) && SegmentAt(entries[i], k) && StemEnds(entries[i][k..], n)
    ensures PartBeginnings(entries[i][k..n + k], at)
    ensures |Abbreviation(entries)| == if |at| < 6 then |at| else 6
    ensures SmallAt(Abbreviation(entries), entries[i][k..n + k], at)
  {
    i := DeepestMeans(entries);
    k, n := StemOfPath(entries[i]);
    hide Deepest, Basename, Stem, FirstDeepest, SegmentAt, StemEnds, SmallAt;
    var stem := Stem(Basename(entries[i]));
    at := InitialsMeans(stem);
    hide PartBeginnings, Parts, Initials;
    SmallCut(Initials(Parts(stem)), if |at| < 6 then |at| else 6, stem, at);
  }

  lemma StemOfDefault()
    ensures Stem(Basename("index.ts")) == "index"
  {
    var k, n := StemOfPath("index.ts");
    assert SegmentAt("index.ts", 0);
    OneSegment("index.ts", 0, k);
    hide Stem, Basename, SegmentAt;
    assert "index.ts"[0..] == "index.ts" && "index.ts"[5] == '.';
    assert n == 5;
  }

  lemma {:induction false} RisingAbove(at: seq<nat>, j: nat)
    requires j < |at| && forall i, k | 0 <= i < k < |at| :: at[i] < at[k]
    ensures at[j] >= j
  {
    if j > 0 { RisingAbove(at, j - 1); }
  }

  lemma OnlyTwo(at: seq<nat>)
    requires 0 in at && 1 in at
    requires forall j | 0 <= j < |at| :: at[j] < 2
    requires forall i, j | 0 <= i < j < |at| :: at[i] < at[j]
    ensures at == [0, 1]
  {
    RisingAbove(at, if |at| > 2 then 2 else 0);
  }

  lemma IndexBeginnings(at: seq<nat>)
    requires PartBeginnings("index", at)
    ensures at == [0, 1]
  {
    assert BeginsPart("index", 0) && BeginsPart("index", 1);
    assert forall i | 2 <= i < 5 :: !BeginsPart("index", i);
    hide BeginsPart;
    OnlyTwo(at);
  }

  lemma TokenOfNothing()
    ensures Token([]) == "index"
  {
    StemOfDefault();
    hide Stem, Basename;
    assert LowerCase("index"[..5]) == "index";
  }

  lemma AbbreviationOfNothing()
    ensures Abbreviation([]) == "in"
  {
    StemOfDefault();
    hide Stem, Basename;
    var at := InitialsMeans("index");
    hide Parts, Initials;
    assert at == [0, 1] by { IndexBeginnings(at); }
    hide PartBeginnings;
    assert Initials(Parts("index")) == "in";
    assert LowerCase("in"[..2]) == "in";
  }

  /** Without any file both queries are taken from `index.ts`. */
  lemma QueriesOfNothing()
    ensures Token([]) == "index" && Abbreviation([]) == "in"
  {
    hide *;
    TokenOfNothing();
    AbbreviationOfNothing();
  }
}
