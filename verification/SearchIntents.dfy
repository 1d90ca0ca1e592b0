/**
 The queries the search benchmark derives from a listing (scripts/workspace-search-bench.ts:167-190),
 and whether its two sides agree on them, also where the listing separates directories otherwise
 than by '/'.
 */
module SearchIntents {
  import opened Sequences
  import opened PathIndexing

  // ---------------------------------------------------------------------------
  // The token the benchmark asks for

  /** `s.split("/").length` */
  function Segments(s: string): nat {
    if s == "" then 1 else Segments(s[..|s| - 1]) + if s[|s| - 1] == '/' then 1 else 0
  }

  /** The first of the entries in a stable sort by falling number of segments. */
  function Deepest(entries: seq<string>): (r: string)
    requires entries != []
    ensures r in entries
    ensures forall entry | entry in entries :: Segments(entry) <= Segments(r)
  {
    var init, last := entries[..|entries| - 1], entries[|entries| - 1];
    assert entries == init + [last];
    if init == [] then last
    else if Segments(last) > Segments(Deepest(init)) then last else Deepest(init)
  }

  /** `s.lastIndexOf(".")` */
  function LastDot(s: string): (k: int)
    ensures -1 <= k < |s|
    ensures k >= 0 ==> s[k] == '.'
    ensures forall i | k < i < |s| :: s[i] != '.'
  {
    if s == "" then -1 else if s[|s| - 1] == '.' then |s| - 1 else LastDot(s[..|s| - 1])
  }

  /** The name without its extension; a leading dot begins no extension. */
  function Stem(name: string): string {
    if LastDot(name) > 0 then name[..LastDot(name)] else name
  }

  const TOKEN_LENGTH := 6

  /** deriveIntents, as far as the substring query uses it. */
  function Token(entries: seq<string>): string {
    var deepest := if entries == [] then "index.ts" else Deepest(entries);
    var stem := Stem(Basename(deepest));
    LowerCase(stem[..if |stem| < TOKEN_LENGTH then |stem| else TOKEN_LENGTH])
  }

  predicate IsMark(c: char) {
    c == '-' || c == '_' || c == '.'
  }

  /** `stem.split(/[-_.]/)` */
  function Parts(stem: string): (parts: seq<string>)
    ensures parts != []
  {
    if stem == "" then [""]
    else
      var parts, c := Parts(stem[..|stem| - 1]), stem[|stem| - 1];
      if IsMark(c) then parts + [""] else parts[..|parts| - 1] + [parts[|parts| - 1] + [c]]
  }

  const PART_LENGTH := 2

  /** The first two characters of each part, joined. */
  function Initials(parts: seq<string>): string {
    if parts == [] then ""
    else
      var last := parts[|parts| - 1];
      Initials(parts[..|parts| - 1]) + last[..if |last| < PART_LENGTH then |last| else PART_LENGTH]
  }

  /** deriveIntents, as far as the fuzzy query uses it. */
  function Abbreviation(entries: seq<string>): string {
    var deepest := if entries == [] then "index.ts" else Deepest(entries);
    var initials := Initials(Parts(Stem(Basename(deepest))));
    LowerCase(initials[..if |initials| < TOKEN_LENGTH then |initials| else TOKEN_LENGTH])
  }

  /** Entries are files: none ends with a slash. */
  predicate Files(lines: seq<string>) {
    forall line | line in lines && line != "" :: line[|line| - 1] != '/'
  }

  lemma {:induction false} NonEmptyMembers(lines: seq<string>, line: string)
    ensures line in NonEmpty(lines) <==> line in lines && line != ""
  {
    if lines != [] {
      NonEmptyMembers(lines[..|lines| - 1], line);
      assert lines == lines[..|lines| - 1] + [lines[|lines| - 1]];
    }
  }

  lemma {:induction false} BasenameEnds(s: string)
    ensures |Basename(s)| <= |s| && s[|s| - |Basename(s)|..] == Basename(s)
    ensures s != "" && s[|s| - 1] != '/' ==> Basename(s) != ""
  {
    if s == "" || s[|s| - 1] == '/' {
      assert s[|s|..] == "";
    } else {
      var init, n := s[..|s| - 1], |Basename(s[..|s| - 1])|;
      BasenameEnds(init);
      assert Basename(s) == Basename(init) + [s[|s| - 1]];
      hide Basename;
      assert s[|s| - 1 - n..] == init[|init| - n..] + [s[|s| - 1]];
    }
  }

  lemma DefaultName()
    ensures Basename("index.ts") != ""
  {
    BasenameEnds("index.ts");
  }

  /** The token of a listing of files is never empty, and the deepest file contains it. */
  lemma TokenOfFiles(lines: seq<string>)
    requires Files(lines)
    ensures Token(NonEmpty(lines)) != ""
    ensures NonEmpty(lines) != [] ==> Includes(LowerCase(Deepest(NonEmpty(lines))), Token(NonEmpty(lines)))
  {
    var entries := NonEmpty(lines);
    if entries == [] {
      DefaultName();
    } else {
      var deepest := Deepest(entries);
      hide Deepest, Segments;
      NonEmptyMembers(lines, deepest);
      TokenInside(deepest);
    }
  }

  lemma TokenInside(s: string)
    requires s != "" && s[|s| - 1] != '/'
    ensures var stem := Stem(Basename(s));
            var token := LowerCase(stem[..if |stem| < TOKEN_LENGTH then |stem| else TOKEN_LENGTH]);
            token != "" && Includes(LowerCase(s), token)
  {
    BasenameEnds(s);
    hide Basename;
    var stem := Stem(Basename(s));
    var from := |s| - |Basename(s)|;
    var token := LowerCase(stem[..if |stem| < TOKEN_LENGTH then |stem| else TOKEN_LENGTH]);
    assert forall k | 0 <= k < |token| :: s[from + k] == Basename(s)[k];
    assert LowerCase(s)[from..from + |token|] == token;
    assert StartsAt(LowerCase(s), from, token);
  }

  // ---------------------------------------------------------------------------
  // Listings with another separator

  /** `line.split(path.sep).join("/")`, which only the index side does. */
  function Normal(separator: char, s: string): string {
    seq(|s|, i requires 0 <= i < |s| => if s[i] == separator then '/' else s[i])
  }

  function NormalAll(separator: char, lines: seq<string>): seq<string> {
    seq(|lines|, i requires 0 <= i < |lines| => Normal(separator, lines[i]))
  }

  /** A character of a token is a character of a name, lower-cased. */
  lemma {:induction false} NameHasNoSlash(s: string)
    ensures '/' !in Basename(s)
    ensures forall c | c in Basename(s) :: c in s
  {
    if s != "" && s[|s| - 1] != '/' { NameHasNoSlash(s[..|s| - 1]); }
  }

  lemma TokenHasNoSeparator(separator: char, lines: seq<string>)
    requires separator == '/' || separator == '\\'
    ensures var token := Token(NonEmpty(NormalAll(separator, lines))); '/' !in token && separator !in token
  {
    var entries := NonEmpty(NormalAll(separator, lines));
    if entries != [] {
      var deepest := Deepest(entries);
      hide Deepest, Segments, LastDot;
      NonEmptyMembers(NormalAll(separator, lines), deepest);
      var i :| 0 <= i < |lines| && NormalAll(separator, lines)[i] == deepest;
      assert separator != '/' ==> separator !in Normal(separator, lines[i]);
      NameHasNoSlash(deepest);
      CutKeeps(Basename(deepest), separator);
    } else {
      NameHasNoSlash("index.ts");
      CutKeeps(Basename("index.ts"), separator);
    }
  }

  lemma CutKeeps(name: string, separator: char)
    requires separator == '/' || separator == '\\'
    requires '/' !in name && separator !in name
    ensures var stem := Stem(name);
            var token := LowerCase(stem[..if |stem| < TOKEN_LENGTH then |stem| else TOKEN_LENGTH]);
            '/' !in token && separator !in token
  {
    var stem := Stem(name);
    var token := LowerCase(stem[..if |stem| < TOKEN_LENGTH then |stem| else TOKEN_LENGTH]);
    forall k | 0 <= k < |token|
      ensures token[k] != '/' && token[k] != separator
    {
      assert token[k] == Lower(name[k]) && name[k] in name;
    }
  }

  /** The text stands at position `i`, character by character. */
  ghost predicate StandsAt(s: string, i: nat, needle: string) {
    i + |needle| <= |s| && forall k | 0 <= k < |needle| :: s[i + k] == needle[k]
  }

  lemma StartsByCharacter(s: string, i: nat, needle: string)
    ensures StartsAt(s, i, needle) <==> StandsAt(s, i, needle)
  {
    if i + |needle| <= |s| {
      var piece := s[i..i + |needle|];
      assert forall k | 0 <= k < |needle| :: piece[k] == s[i + k];
    }
  }

  lemma SameStart(separator: char, token: string, line: string, i: nat)
    requires separator == '/' || separator == '\\'
    requires '/' !in token && separator !in token
    ensures StartsAt(LowerCase(line), i, token) <==> StartsAt(LowerCase(Normal(separator, line)), i, token)
  {
    var a, b := LowerCase(line), LowerCase(Normal(separator, line));
    StartsByCharacter(a, i, token);
    StartsByCharacter(b, i, token);
    hide StartsAt, StandsAt;
    assert StandsAt(a, i, token) <==> StandsAt(b, i, token) by { SameStand(separator, token, line, i); }
  }

  lemma SameStand(separator: char, token: string, line: string, i: nat)
    requires separator == '/' || separator == '\\'
    requires '/' !in token && separator !in token
    ensures StandsAt(LowerCase(line), i, token) <==> StandsAt(LowerCase(Normal(separator, line)), i, token)
  {
    var a, b := LowerCase(line), LowerCase(Normal(separator, line));
    forall k | 0 <= k < |token| && i + |token| <= |a|
      ensures a[i + k] == token[k] <==> b[i + k] == token[k]
    {
      assert token[k] in token;
    }
  }

  /** A text without separators is found at the same places whichever they are. */
  lemma SameInclusion(separator: char, token: string, line: string)
    requires separator == '/' || separator == '\\'
    requires '/' !in token && separator !in token
    ensures Containing(token)(line) <==> Containing(token)(Normal(separator, line))
  {
    forall i: nat
      ensures StartsAt(LowerCase(line), i, token) <==> StartsAt(LowerCase(Normal(separator, line)), i, token)
    {
      SameStart(separator, token, line, i);
    }
    assert |LowerCase(line)| == |LowerCase(Normal(separator, line))|;
    hide StartsAt, LowerCase, Normal;
  }

  lemma {:induction false} SameCounts(separator: char, token: string, lines: seq<string>)
    requires separator == '/' || separator == '\\'
    requires '/' !in token && separator !in token
    ensures |Filter(Containing(token), lines)| == |Filter(Containing(token), NormalAll(separator, lines))|
  {
    if lines == [] {
      assert NormalAll(separator, lines) == [];
    } else {
      hide Filter, Normal, NormalAll, Containing;
      var init, line := lines[..|lines| - 1], lines[|lines| - 1];
      SameCounts(separator, token, init);
      SameInclusion(separator, token, line);
      FilterUnfolds(Containing(token), lines);
      NormalUnfolds(separator, lines);
      FilterAppend(Containing(token), NormalAll(separator, init), Normal(separator, line));
    }
  }

  /**
   For the token the benchmark derives from the listing, both sides of the substring query count
   the same, whatever the separator, and they find something whenever a file is listed.
   */
  lemma BenchmarkCountsAgree(separator: char, lines: seq<string>)
    requires (separator == '/' || separator == '\\') && Files(NormalAll(separator, lines))
    ensures var entries := NonEmpty(NormalAll(separator, lines));
            var token := Token(entries);
            && |Filter(Containing(token), lines)| == |Filter(Containing(token), entries)|
            && (entries != [] ==> |Filter(Containing(token), entries)| > 0)
  {
    var all := NormalAll(separator, lines);
    TokenHasNoSeparator(separator, lines);
    hide Token, Filter, NonEmpty, NormalAll, Deepest;
    TokenOfFiles(all);
    SameCounts(separator, Token(NonEmpty(all)), lines);
    SubstringCountsAgree(all, Token(NonEmpty(all)));
    if NonEmpty(all) != [] {
      FilterMembers(Containing(Token(NonEmpty(all))), NonEmpty(all), Deepest(NonEmpty(all)));
    }
  }

  lemma SameTerms(separator: char, terms: seq<string>, line: string)
    requires separator == '/' || separator == '\\'
    requires forall term | term in terms :: '/' !in term && separator !in term
    ensures Holding(terms)(line) <==> Holding(terms)(Normal(separator, line))
  {
    forall term | term in terms
      ensures Includes(LowerCase(line), term) <==> Includes(LowerCase(Normal(separator, line)), term)
    {
      SameInclusion(separator, term, line);
    }
    hide Includes, LowerCase, Normal;
  }

  lemma LinesWithTerms(terms: seq<string>, line: string)
    ensures HoldingLine(terms)(line) <==> line != "" && Holding(terms)(line)
  {
  }

  /** For terms that are path segments both sides of the token query count the same, whatever the separator. */
  lemma {:induction false} TermCountsAgree(separator: char, terms: seq<string>, lines: seq<string>)
    requires separator == '/' || separator == '\\'
    requires forall term | term in terms :: '/' !in term && separator !in term
    ensures |Filter(HoldingLine(terms), lines)| == |Filter(Holding(terms), NonEmpty(NormalAll(separator, lines)))|
  {
    if lines == [] {
      assert NormalAll(separator, lines) == [];
    } else {
      hide Filter, Normal, NormalAll, NonEmpty, Holding, HoldingLine;
      var init, line := lines[..|lines| - 1], lines[|lines| - 1];
      TermCountsAgree(separator, terms, init);
      SameTerms(separator, terms, line);
      LinesWithTerms(terms, line);
      FilterUnfolds(HoldingLine(terms), lines);
      NormalUnfolds(separator, lines);
      NonEmptyAppend(NormalAll(separator, init), Normal(separator, line));
      FilterAppend(Holding(terms), NonEmpty(NormalAll(separator, init)), Normal(separator, line));
    }
  }

  /** The name the index sees is the end of the one the ripgrep side sees, after its last separator. */
  lemma {:induction false} NormalName(separator: char, s: string) returns (before: string)
    ensures Basename(s) == before + Basename(Normal(separator, s))
    ensures separator !in Basename(s) ==> before == ""
    ensures separator == '/' ==> before == ""
    ensures separator !in Basename(Normal(separator, s))
  {
    var t := Normal(separator, s);
    if s == "" || s[|s| - 1] == '/' {
      before := "";
    } else {
      assert t[..|s| - 1] == Normal(separator, s[..|s| - 1]);
      if s[|s| - 1] == separator {
        before := Basename(s);
        assert separator == Basename(s)[|Basename(s)| - 1];
      } else {
        before := NormalName(separator, s[..|s| - 1]);
      }
    }
  }

  lemma LaterSubsequence(needle: string, before: string, name: string)
    requires Subsequence(needle, name)
    ensures Subsequence(needle, before + name)
  {
    var positions :| Spells(positions, needle, name);
    var moved := seq(|positions|, i requires 0 <= i < |positions| => positions[i] + |before|);
    assert Spells(moved, needle, before + name);
  }

  /** The line counts on the ripgrep side only. */
  ghost predicate OnlyRaw(separator: char, query: string, line: string) {
    Fuzzy(query, line) && !Fuzzy(query, Normal(separator, line))
  }

  lemma LowerJoined(a: string, b: string)
    ensures LowerCase(a + b) == LowerCase(a) + LowerCase(b)
  {
  }

  lemma LineCounts(separator: char, query: string, line: string)
    ensures Fuzzy(query, Normal(separator, line)) ==> Fuzzy(query, line)
    ensures separator == '/' || separator !in Basename(line) ==> !OnlyRaw(separator, query, line)
  {
    var before := NormalName(separator, line);
    var other := Basename(Normal(separator, line));
    LowerJoined(before, other);
    assert "" + other == other;
    hide Subsequence, LowerCase, Basename, Normal;
    if Fuzzy(query, Normal(separator, line)) {
      LaterSubsequence(LowerCase(query), LowerCase(before), LowerCase(other));
    }
  }

  /** How many lines count on the ripgrep side only. */
  ghost function RawOnly(separator: char, query: string, lines: seq<string>): nat {
    if lines == [] then 0
    else RawOnly(separator, query, lines[..|lines| - 1])
         + if lines[|lines| - 1] != "" && OnlyRaw(separator, query, lines[|lines| - 1]) then 1 else 0
  }

  lemma {:induction false} RawOnlyNone(separator: char, query: string, lines: seq<string>)
    ensures RawOnly(separator, query, lines) == 0
       <==> forall line | line in lines && line != "" :: !OnlyRaw(separator, query, line)
  {
    hide OnlyRaw;
    if lines != [] {
      RawOnlyNone(separator, query, lines[..|lines| - 1]);
      assert lines == lines[..|lines| - 1] + [lines[|lines| - 1]];
    }
  }

  lemma RawOnlyUnfolds(separator: char, query: string, lines: seq<string>)
    requires lines != []
    ensures RawOnly(separator, query, lines)
         == RawOnly(separator, query, lines[..|lines| - 1])
            + if lines[|lines| - 1] != "" && OnlyRaw(separator, query, lines[|lines| - 1]) then 1 else 0
    ensures var line := lines[|lines| - 1];
            OnlyRaw(separator, query, line) <==> Fuzzy(query, line) && !Fuzzy(query, Normal(separator, line))
  {
  }

  lemma NormalUnfolds(separator: char, lines: seq<string>)
    requires lines != []
    ensures NormalAll(separator, lines)
         == NormalAll(separator, lines[..|lines| - 1]) + [Normal(separator, lines[|lines| - 1])]
    ensures lines[|lines| - 1] == "" <==> Normal(separator, lines[|lines| - 1]) == ""
  {
    assert |Normal(separator, lines[|lines| - 1])| == |lines[|lines| - 1]|;
  }

  lemma {:induction false} FuzzyCounts(separator: char, query: string, lines: seq<string>)
    ensures |RgFuzzyFilter(LowerCase(query), lines)|
         == |FuzzyFilter(query, NonEmpty(NormalAll(separator, lines)))| + RawOnly(separator, query, lines)
  {
    if lines == [] {
      assert NormalAll(separator, lines) == [];
    } else {
      hide *;
      var init, line := lines[..|lines| - 1], lines[|lines| - 1];
      FuzzyCounts(separator, query, init);
      LineCounts(separator, query, line);
      RgUnfolds(query, lines);
      NormalUnfolds(separator, lines);
      RawOnlyUnfolds(separator, query, lines);
      NonEmptyAppend(NormalAll(separator, init), Normal(separator, line));
      FuzzyFilterOne(query, NonEmpty(NormalAll(separator, init)), Normal(separator, line));
    }
  }

  lemma RgUnfolds(query: string, lines: seq<string>)
    requires lines != []
    ensures var line := lines[|lines| - 1];
            RgFuzzyFilter(LowerCase(query), lines)
            == RgFuzzyFilter(LowerCase(query), lines[..|lines| - 1])
               + if line != "" && Fuzzy(query, line) then [line] else []
  {
  }

  lemma NonEmptyAppend(lines: seq<string>, line: string)
    ensures NonEmpty(lines + [line]) == if line == "" then NonEmpty(lines) else NonEmpty(lines) + [line]
  {
    assert (lines + [line])[..|lines|] == lines;
  }

  /** What the ripgrep side sees before the name: the directories, when they are not separated by '/'. */
  function Directories(separator: char, line: string): string {
    var name, whole := Basename(Normal(separator, line)), Basename(line);
    if |name| <= |whole| then whole[..|whole| - |name|] else ""
  }

  /** The query is not in the name, but begins in the directories and ends in the name. */
  ghost predicate Spills(separator: char, query: string, line: string) {
    var directories, name := LowerCase(Directories(separator, line)), LowerCase(Basename(Normal(separator, line)));
    && !Subsequence(query, name)
    && exists k | 0 < k <= |query| :: Subsequence(query[..k], directories) && Subsequence(query[k..], name)
  }

  /** Subsequences of two joined texts are subsequences of each, joined. */
  lemma JoinedSubsequence(needle: string, a: string, b: string, k: nat)
    requires k <= |needle| && Subsequence(needle[..k], a) && Subsequence(needle[k..], b)
    ensures Subsequence(needle, a + b)
  {
    var first: seq<nat> :| Spells(first, needle[..k], a);
    var second: seq<nat> :| Spells(second, needle[k..], b);
    var moved: seq<nat> := seq(|second|, i requires 0 <= i < |second| => second[i] + |a|);
    assert Spells(first + moved, needle, a + b);
  }

  lemma SplitSubsequence(needle: string, a: string, b: string) returns (k: nat)
    requires Subsequence(needle, a + b)
    ensures k <= |needle| && Subsequence(needle[..k], a) && Subsequence(needle[k..], b)
  {
    var positions :| Spells(positions, needle, a + b);
    k := Before(positions, |a|);
    var first := positions[..k];
    var second := seq(|positions| - k, i requires 0 <= i < |positions| - k => positions[k + i] - |a|);
    assert Spells(first, needle[..k], a);
    assert Spells(second, needle[k..], b);
  }

  /** How many of the rising positions are below `n`. */
  lemma {:induction false} Before(positions: seq<nat>, n: nat) returns (k: nat)
    requires forall i, j | 0 <= i < j < |positions| :: positions[i] < positions[j]
    ensures k <= |positions|
    ensures forall i | 0 <= i < k :: positions[i] < n
    ensures forall i | k <= i < |positions| :: positions[i] >= n
  {
    if positions == [] || positions[|positions| - 1] < n {
      k := |positions|;
    } else {
      k := Before(positions[..|positions| - 1], n);
    }
  }

  /** A line counts on the ripgrep side only exactly when the query spills over from its directories. */
  lemma SpillsMeans(separator: char, query: string, line: string)
    requires LowerCase(query) == query
    ensures OnlyRaw(separator, query, line) <==> Spills(separator, query, line)
  {
    var name, whole := Basename(Normal(separator, line)), Basename(line);
    var before := NormalName(separator, line);
    assert before == Directories(separator, line);
    LowerJoined(before, name);
    hide Subsequence, LowerCase, Basename, Normal, Directories;
    var a, b := LowerCase(before), LowerCase(name);
    if Subsequence(query, a + b) && !Subsequence(query, b) {
      var k := SplitSubsequence(query, a, b);
      assert query[0..] == query;
    }
    if k: nat :| 0 < k <= |query| && Subsequence(query[..k], a) && Subsequence(query[k..], b) {
      JoinedSubsequence(query, a, b, k);
    }
  }

  /**
   With the listing as ripgrep prints it, the two sides count the same for a query exactly when it
   spills over from the directories into the name of no listed file.
   */
  lemma FuzzyCountsAgree(separator: char, query: string, lines: seq<string>)
    requires LowerCase(query) == query
    ensures |RgFuzzyFilter(query, lines)| == |FuzzyFilter(query, NonEmpty(NormalAll(separator, lines)))|
       <==> forall line | line in lines && line != "" :: !Spills(separator, query, line)
  {
    hide RgFuzzyFilter, FuzzyFilter, NonEmpty, NormalAll, OnlyRaw, RawOnly, Spills;
    FuzzyCounts(separator, query, lines);
    RawOnlyNone(separator, query, lines);
    forall line
      ensures OnlyRaw(separator, query, line) <==> Spills(separator, query, line)
    {
      SpillsMeans(separator, query, line);
    }
  }

  /**
   So it is for the query the benchmark derives from that listing; with '/' as separator nothing
   spills, and the counts always agree.
   */
  lemma BenchmarkFuzzyCounts(separator: char, lines: seq<string>)
    ensures var entries := NonEmpty(NormalAll(separator, lines));
            var query := Abbreviation(entries);
            && (|RgFuzzyFilter(query, lines)| == |FuzzyFilter(query, entries)|
                <==> forall line | line in lines && line != "" :: !Spills(separator, query, line))
            && (separator == '/' ==> |RgFuzzyFilter(query, lines)| == |FuzzyFilter(query, entries)|)
  {
    var entries := NonEmpty(NormalAll(separator, lines));
    var query := Abbreviation(entries);
    assert LowerCase(query) == query;
    FuzzyCountsAgree(separator, query, lines);
    hide RgFuzzyFilter, FuzzyFilter, NonEmpty, NormalAll, Spills, Abbreviation, OnlyRaw;
    if separator == '/' {
      forall line
        ensures !Spills(separator, query, line)
      {
        LineCounts(separator, query, line);
        SpillsMeans(separator, query, line);
      }
    }
  }

  // Two files in directories separated by '\', and the end of the listing.
  const NESTED := ["a\\b\\cc", "c\\c", ""]

  lemma NestedEntries()
    ensures NonEmpty(NormalAll('\\', NESTED)) == ["a/b/cc", "c/c"]
  {
    assert Normal('\\', "a\\b\\cc") == "a/b/cc" && Normal('\\', "c\\c") == "c/c" && Normal('\\', "") == "";
    assert NormalAll('\\', NESTED) == ["a/b/cc", "c/c", ""];
    NonEmptyAppend(["a/b/cc", "c/c"], "");
    NonEmptyAppend(["a/b/cc"], "c/c");
    NonEmptyAppend([], "a/b/cc");
    assert ["a/b/cc", "c/c"] + [""] == ["a/b/cc", "c/c", ""];
    assert ["a/b/cc"] + ["c/c"] == ["a/b/cc", "c/c"] && [] + ["a/b/cc"] == ["a/b/cc"];
  }

  lemma NestedQuery()
    ensures Abbreviation(["a/b/cc", "c/c"]) == "cc"
  {
    DeepestNested();
    NameOfDeep();
    InitialsOfName();
    hide Deepest, Basename, Stem, Parts, Initials;
  }

  lemma DeepestNested()
    ensures Deepest(["a/b/cc", "c/c"]) == "a/b/cc"
  {
    DeepSegments();
    FlatSegments();
    hide Segments;
    assert ["a/b/cc", "c/c"][..1] == ["a/b/cc"];
    assert ["a/b/cc"][..0] == [];
  }

  lemma PartGrows(stem: string, part: string, c: char)
    requires Parts(stem) == [part] && !IsMark(c)
    ensures Parts(stem + [c]) == [part + [c]]
  {
    assert (stem + [c])[..|stem|] == stem;
    assert [part][..0] == [];
  }

  lemma InitialsOfName()
    ensures Initials(Parts(Stem("cc"))) == "cc"
  {
    assert "cc"[..1] == "c" && "c"[..0] == "" && "" + "c" == "c" && "c" + "c" == "cc";
    assert LastDot("c") == -1 && LastDot("cc") == -1;
    assert Parts("") == [""];
    PartGrows("", "", 'c');
    PartGrows("c", "c", 'c');
    assert ["cc"][..0] == [];
    assert Initials([]) + "cc" == "cc";
  }

  lemma DeepSegments()
    ensures Segments("a/b/cc") == 3
  {
    assert "a/b/cc"[..5] == "a/b/c" && "a/b/c"[..4] == "a/b/" && "a/b/"[..3] == "a/b";
    assert "a/b"[..2] == "a/" && "a/"[..1] == "a" && "a"[..0] == "";
    assert Segments("a/b") == 2;
    assert Segments("a/b/") == 3;
  }

  lemma FlatSegments()
    ensures Segments("c/c") == 2
  {
    assert "c/c"[..2] == "c/" && "c/"[..1] == "c" && "c"[..0] == "";
  }

  lemma NameOfDeep()
    ensures Basename("a/b/cc") == "cc"
  {
    assert "a/b/cc"[..5] == "a/b/c" && "a/b/c"[..4] == "a/b/";
    assert Basename("a/b/c") == "c";
  }

  lemma FlatNames()
    ensures Basename("c/c") == "c" && Basename("c\\c") == "c\\c"
  {
    assert "c/c"[..2] == "c/" && "c\\c"[..2] == "c\\" && "c\\"[..1] == "c" && "c"[..0] == "";
    assert Basename("c\\") == "c\\";
  }

  lemma FlatDirectories()
    ensures Basename(Normal('\\', "c\\c")) == "c" && Directories('\\', "c\\c") == "c\\"
  {
    assert Normal('\\', "c\\c") == "c/c";
    hide Normal;
    FlatNames();
    hide Basename;
    assert "c\\c"[..2] == "c\\";
  }

  lemma FlatSpills()
    ensures Spills('\\', "cc", "c\\c")
  {
    FlatDirectories();
    hide Directories, Basename, Normal;
    assert LowerCase("c\\") == "c\\" && LowerCase("c") == "c";
    hide LowerCase;
    assert "cc"[..1] == "c" && "cc"[1..] == "c";
    OneSpelled("c\\");
    OneSpelled("c");
    NotSpelled();
    hide Subsequence;
  }

  lemma OneSpelled(name: string)
    requires name != "" && name[0] == 'c'
    ensures Subsequence("c", name)
  {
    assert Spells([0], "c", name);
  }

  lemma NotSpelled()
    ensures !Subsequence("cc", "c")
  {
    forall positions: seq<nat>
      ensures !Spells(positions, "cc", "c")
    {
      if |positions| == 2 && positions[0] < positions[1] { assert positions[1] >= 1; }
    }
  }

  /** A listing for whose own query the counts differ: the query `cc` of the first file spills in the second. */
  lemma FuzzyCountsDiffer()
    ensures var entries := NonEmpty(NormalAll('\\', NESTED));
            var query := Abbreviation(entries);
            && query == "cc"
            && |RgFuzzyFilter(query, NESTED)| != |FuzzyFilter(query, entries)|
  {
    NestedEntries();
    NestedQuery();
    FlatSpills();
    assert NESTED[1] == "c\\c";
    hide *;
    BenchmarkFuzzyCounts('\\', NESTED);
  }
}
