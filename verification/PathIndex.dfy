/**
 The resident path index against filtering ripgrep's listing
 (scripts/workspace-search-bench.ts:85-140 and 216-258).

 Lower-casing is per character and never makes or removes a '/'; paths use '/' throughout.
 */
module PathIndexing {
  import opened Sequences

  function Lower(c: char): char {
    if 'A' <= c <= 'Z' then c - 'A' + 'a' else c
  }

  function LowerCase(s: string): (r: string)
    ensures |r| == |s|
    ensures forall i | 0 <= i < |s| :: r[i] == Lower(s[i])
  {
    seq(|s|, i requires 0 <= i < |s| => Lower(s[i]))
  }

  /** `s.slice(s.lastIndexOf("/") + 1)` */
  function Basename(s: string): string {
    if s == "" || s[|s| - 1] == '/' then "" else Basename(s[..|s| - 1]) + [s[|s| - 1]]
  }

  predicate StartsAt(s: string, i: nat, needle: string) {
    i + |needle| <= |s| && s[i..i + |needle|] == needle
  }

  /** `s.includes(needle)` */
  predicate Includes(s: string, needle: string) {
    exists i | 0 <= i <= |s| :: StartsAt(s, i, needle)
  }

  function Filter<T>(keep: T -> bool, s: seq<T>): seq<T> {
    if s == [] then []
    else Filter(keep, s[..|s| - 1]) + if keep(s[|s| - 1]) then [s[|s| - 1]] else []
  }

  lemma FilterOne<T>(keep: T -> bool, s: seq<T>, i: nat)
    requires i < |s|
    ensures Filter(keep, s[..i + 1]) == Filter(keep, s[..i]) + if keep(s[i]) then [s[i]] else []
  {
    assert s[..i + 1][..i] == s[..i];
  }

  /** The entries with the given lower-cased last segment, in order. */
  function WithName(key: string, entries: seq<string>): seq<string> {
    if entries == [] then []
    else
      var last := entries[|entries| - 1];
      WithName(key, entries[..|entries| - 1]) + if LowerCase(Basename(last)) == key then [last] else []
  }

  lemma WithNameOne(key: string, entries: seq<string>, i: nat)
    requires i < |entries|
    ensures WithName(key, entries[..i + 1])
         == WithName(key, entries[..i]) + if LowerCase(Basename(entries[i])) == key then [entries[i]] else []
  {
    hide LowerCase, Basename;
    assert entries[..i + 1][..i] == entries[..i];
  }

  lemma {:induction false} BasenameOfLower(s: string)
    ensures Basename(LowerCase(s)) == LowerCase(Basename(s))
  {
    if s != "" {
      BasenameOfLower(s[..|s| - 1]);
      assert LowerCase(s)[..|s| - 1] == LowerCase(s[..|s| - 1]);
    }
  }

  // ---------------------------------------------------------------------------
  // Subsequences

  /** The positions spell `needle` in `name`, from left to right. */
  ghost predicate Spells(positions: seq<nat>, needle: string, name: string) {
    && |positions| == |needle|
    && (forall i | 0 <= i < |positions| :: positions[i] < |name| && name[positions[i]] == needle[i])
    && (forall i, j | 0 <= i < j < |positions| :: positions[i] < positions[j])
  }

  ghost predicate Subsequence(needle: string, name: string) {
    exists positions :: Spells(positions, needle, name)
  }

  /** How much of `needle` the greedy scan has matched after `n` characters. */
  function Cursor(needle: string, name: string, n: nat): (cursor: nat)
    requires n <= |name|
    ensures cursor <= |needle|
  {
    if n == 0 then 0
    else
      var cursor := Cursor(needle, name, n - 1);
      if cursor < |needle| && name[n - 1] == needle[cursor] then cursor + 1 else cursor
  }

  lemma {:induction false} GreedySpells(needle: string, name: string, n: nat) returns (positions: seq<nat>)
    requires n <= |name|
    ensures Spells(positions, needle[..Cursor(needle, name, n)], name[..n])
  {
    if n == 0 {
      positions := [];
    } else {
      positions := GreedySpells(needle, name, n - 1);
      var cursor := Cursor(needle, name, n - 1);
      assert forall i | 0 <= i < n - 1 :: name[..n][i] == name[..n - 1][i];
      if cursor < |needle| && name[n - 1] == needle[cursor] {
        positions := positions + [n - 1];
      }
    }
  }

  /** Nothing spells more of the needle than the greedy scan. */
  lemma {:induction false} GreedyIsFurthest(positions: seq<nat>, needle: string, name: string, n: nat, k: nat)
    requires n <= |name| && k <= |needle| && Spells(positions, needle[..k], name[..n])
    ensures k <= Cursor(needle, name, n)
  {
    if k > 0 {
      assert positions[k - 1] < n;
      assert needle[..k][k - 1] == needle[k - 1];
      if positions[k - 1] == n - 1 {
        var rest := positions[..k - 1];
        assert forall i | 0 <= i < k - 1 :: rest[i] < positions[k - 1] && name[..n - 1][rest[i]] == needle[..k - 1][i]
          by {
            assert forall i | 0 <= i < k - 1 :: name[..n][positions[i]] == needle[..k][i];
          }
        GreedyIsFurthest(rest, needle, name, n - 1, k - 1);
      } else {
        assert forall i | 0 <= i < k :: positions[i] < n - 1 && name[..n - 1][positions[i]] == needle[..k][i] by {
          assert forall i | 0 <= i < k :: name[..n][positions[i]] == needle[..k][i];
        }
        GreedyIsFurthest(positions, needle, name, n - 1, k);
      }
    }
  }

  /** The greedy scan finds the needle exactly when it is a subsequence. */
  lemma GreedyIsComplete(needle: string, name: string)
    ensures Cursor(needle, name, |name|) == |needle| <==> Subsequence(needle, name)
  {
    var positions := GreedySpells(needle, name, |name|);
    Whole(name);
    Whole(needle);
    if Subsequence(needle, name) {
      var spelled :| Spells(spelled, needle, name);
      GreedyIsFurthest(spelled, needle, name, |name|, |needle|);
    }
  }

  /** The source's loop, which stops as soon as the needle is used up. */
  method Matches(needle: string, name: string) returns (hit: bool)
    ensures hit <==> Subsequence(needle, name)
  {
    GreedyIsComplete(needle, name);
    var cursor := 0;
    for i := 0 to |name|
      invariant cursor == Cursor(needle, name, i)
    {
      if cursor < |needle| && name[i] == needle[cursor] { cursor := cursor + 1; }
      if cursor == |needle| {
        CursorStays(needle, name, i + 1, |name|);
        break;
      }
    }
    hit := cursor == |needle|;
  }

  lemma {:induction false} CursorStays(needle: string, name: string, i: nat, j: nat)
    requires i <= j <= |name| && Cursor(needle, name, i) == |needle|
    ensures Cursor(needle, name, j) == |needle|
  {
    if i < j { CursorStays(needle, name, i, j - 1); }
  }

  // ---------------------------------------------------------------------------
  // What the queries mean, character by character

  /** The same character, or a capital letter and its small one. */
  predicate SameLetter(c: char, d: char) {
    || c == d
    || (65 <= c as int <= 90 && d as int == c as int + 32)
    || (65 <= d as int <= 90 && c as int == d as int + 32)
  }

  predicate SameText(a: string, b: string) {
    |a| == |b| && forall i | 0 <= i < |a| :: SameLetter(a[i], b[i])
  }

  /** The last segment of the path begins at `k`. */
  predicate SegmentAt(entry: string, k: nat) {
    k <= |entry| && (k == 0 || entry[k - 1] == '/') && forall i | k <= i < |entry| :: entry[i] != '/'
  }

  predicate HasName(entry: string, name: string) {
    exists k | 0 <= k <= |entry| :: SegmentAt(entry, k) && SameText(entry[k..], name)
  }

  predicate TextAt(entry: string, i: nat, query: string) {
    i + |query| <= |entry| && SameText(entry[i..i + |query|], query)
  }

  predicate HoldsText(entry: string, query: string) {
    exists i | 0 <= i <= |entry| :: TextAt(entry, i, query)
  }

  predicate HoldsTerms(entry: string, terms: seq<string>) {
    forall term | term in terms :: HoldsText(entry, term)
  }

  /** The positions run through the last segment, from left to right, and spell the query. */
  ghost predicate Abbreviates(entry: string, k: nat, query: string, positions: seq<nat>) {
    && SegmentAt(entry, k)
    && |positions| == |query|
    && (forall i | 0 <= i < |positions| :: k <= positions[i] < |entry| && SameLetter(entry[positions[i]], query[i]))
    && (forall i, j | 0 <= i < j < |positions| :: positions[i] < positions[j])
  }

  ghost predicate HasAbbreviation(entry: string, query: string) {
    exists k: nat, positions :: Abbreviates(entry, k, query, positions)
  }

  /** The hits are the paths with the property, each once and in order; `at` says where they stand. */
  ghost predicate PickedAt<T(!new)>(at: seq<nat>, good: T -> bool, paths: seq<T>, hits: seq<T>) {
    && |at| == |hits|
    && (forall j | 0 <= j < |at| :: at[j] < |paths| && hits[j] == paths[at[j]] && good(paths[at[j]]))
    && (forall i, j | 0 <= i < j < |at| :: at[i] < at[j])
    && (forall i | 0 <= i < |paths| && good(paths[i]) :: i in at)
  }

  ghost predicate Picked<T(!new)>(good: T -> bool, paths: seq<T>, hits: seq<T>) {
    exists at :: PickedAt(at, good, paths, hits)
  }

  lemma {:induction false} FilterPicks<T(!new)>(keep: T -> bool, good: T -> bool, s: seq<T>) returns (at: seq<nat>)
    requires forall x :: keep(x) <==> good(x)
    ensures PickedAt(at, good, s, Filter(keep, s))
  {
    if s == [] {
      at := [];
    } else {
      var init, n := s[..|s| - 1], |s| - 1;
      at := FilterPicks(keep, good, init);
      assert forall i | 0 <= i < n :: init[i] == s[i];
      if keep(s[n]) {
        var before := at;
        at := at + [n];
        assert forall i | 0 <= i < n && good(s[i]) :: i in before && i in at;
        assert at[|at| - 1] == n;
      }
    }
  }

  lemma SameLetterMeans(c: char, d: char)
    ensures Lower(c) == Lower(d) <==> SameLetter(c, d)
  {
  }

  lemma SameTextMeans(a: string, b: string)
    ensures LowerCase(a) == LowerCase(b) <==> SameText(a, b)
  {
    hide Lower, SameLetter;
    forall i | 0 <= i < |a| && i < |b|
      ensures LowerCase(a)[i] == LowerCase(b)[i] <==> SameLetter(a[i], b[i])
    {
      SameLetterMeans(a[i], b[i]);
    }
  }

  lemma {:induction false} BasenameIsSegment(s: string)
    ensures |Basename(s)| <= |s| && SegmentAt(s, |s| - |Basename(s)|)
    ensures s[|s| - |Basename(s)|..] == Basename(s)
  {
    if s == "" || s[|s| - 1] == '/' {
      assert s[|s|..] == "";
    } else {
      var init := s[..|s| - 1];
      BasenameIsSegment(init);
      var k := |init| - |Basename(init)|;
      assert s[k..] == init[k..] + [s[|s| - 1]];
      assert forall i | k <= i < |init| :: init[i] == s[i];
    }
  }

  lemma NoLaterSegment(entry: string, j: nat, k: nat)
    requires SegmentAt(entry, j)
    ensures j < k ==> !SegmentAt(entry, k)
  {
  }

  lemma OneSegment(entry: string, j: nat, k: nat)
    requires SegmentAt(entry, j) && SegmentAt(entry, k)
    ensures j == k
  {
    NoLaterSegment(entry, j, k);
    NoLaterSegment(entry, k, j);
  }

  lemma HasNameMeans(entry: string, name: string)
    ensures SameName(name, entry) <==> HasName(entry, name)
  {
    var k := |entry| - |Basename(entry)|;
    BasenameIsSegment(entry);
    SameTextMeans(Basename(entry), name);
    hide LowerCase, Basename, SameText, SegmentAt;
    if HasName(entry, name) {
      var j :| 0 <= j <= |entry| && SegmentAt(entry, j) && SameText(entry[j..], name);
      OneSegment(entry, j, k);
    }
  }

  lemma TextAtMeans(entry: string, i: nat, query: string)
    ensures StartsAt(LowerCase(entry), i, LowerCase(query)) <==> TextAt(entry, i, query)
  {
    if i + |query| <= |entry| {
      var piece := entry[i..i + |query|];
      SameTextMeans(piece, query);
      assert LowerCase(entry)[i..i + |query|] == LowerCase(piece);
    }
  }

  lemma HoldsTextMeans(entry: string, query: string)
    ensures Includes(LowerCase(entry), LowerCase(query)) <==> HoldsText(entry, query)
  {
    forall i: nat
      ensures StartsAt(LowerCase(entry), i, LowerCase(query)) <==> TextAt(entry, i, query)
    {
      TextAtMeans(entry, i, query);
    }
    assert |LowerCase(entry)| == |entry|;
    hide LowerCase, StartsAt, TextAt;
  }

  lemma HoldsTermsMeans(entry: string, terms: seq<string>)
    ensures HasAll(LowerTerms(terms), LowerCase(entry)) <==> HoldsTerms(entry, terms)
  {
    forall i | 0 <= i < |terms|
      ensures Includes(LowerCase(entry), LowerTerms(terms)[i]) <==> HoldsText(entry, terms[i])
    {
      HoldsTextMeans(entry, terms[i]);
    }
    hide Includes, LowerCase, HoldsText;
    if HasAll(LowerTerms(terms), LowerCase(entry)) {
      forall term | term in terms
        ensures HoldsText(entry, term)
      {
        var i :| 0 <= i < |terms| && terms[i] == term;
        assert LowerTerms(terms)[i] in LowerTerms(terms);
      }
    }
    if HoldsTerms(entry, terms) {
      forall needle | needle in LowerTerms(terms)
        ensures Includes(LowerCase(entry), needle)
      {
        var i :| 0 <= i < |terms| && LowerTerms(terms)[i] == needle;
        assert terms[i] in terms;
      }
    }
  }

  /** The same positions, counted from the start of the segment. */
  lemma SpelledInSegment(entry: string, k: nat, query: string, positions: seq<nat>)
    requires SegmentAt(entry, k)
    requires Spells(positions, LowerCase(query), LowerCase(entry[k..]))
    ensures HasAbbreviation(entry, query)
  {
    var moved: seq<nat> := seq(|positions|, i requires 0 <= i < |positions| => positions[i] + k);
    hide Lower, SameLetter;
    forall i | 0 <= i < |moved|
      ensures moved[i] < |entry| && SameLetter(entry[moved[i]], query[i])
    {
      assert entry[k..][positions[i]] == entry[moved[i]];
      SameLetterMeans(entry[moved[i]], query[i]);
    }
    assert Abbreviates(entry, k, query, moved);
  }

  lemma AbbreviationSpells(entry: string, k: nat, query: string, positions: seq<nat>)
    requires Abbreviates(entry, k, query, positions)
    ensures Subsequence(LowerCase(query), LowerCase(entry[k..]))
  {
    var moved: seq<nat> := seq(|positions|, i requires 0 <= i < |positions| => positions[i] - k);
    hide Lower, SameLetter;
    forall i | 0 <= i < |moved|
      ensures moved[i] < |entry[k..]| && LowerCase(entry[k..])[moved[i]] == LowerCase(query)[i]
    {
      assert entry[k..][moved[i]] == entry[positions[i]];
      SameLetterMeans(entry[positions[i]], query[i]);
    }
    assert Spells(moved, LowerCase(query), LowerCase(entry[k..]));
  }

  lemma HasAbbreviationMeans(entry: string, query: string)
    ensures Fuzzy(query, entry) <==> HasAbbreviation(entry, query)
  {
    var k := |entry| - |Basename(entry)|;
    BasenameIsSegment(entry);
    hide LowerCase, Basename, SegmentAt;
    if Fuzzy(query, entry) {
      var positions :| Spells(positions, LowerCase(query), LowerCase(Basename(entry)));
      SpelledInSegment(entry, k, query, positions);
    }
    if HasAbbreviation(entry, query) {
      var j: nat, positions :| Abbreviates(entry, j, query, positions);
      OneSegment(entry, j, k);
      AbbreviationSpells(entry, k, query, positions);
    }
  }

  // What the queries give.
  ghost predicate NamedHits(name: string, paths: seq<string>, hits: seq<string>) {
    Picked(entry => HasName(entry, name), paths, hits)
  }

  ghost predicate TextHits(query: string, paths: seq<string>, hits: seq<string>) {
    Picked(entry => HoldsText(entry, query), paths, hits)
  }

  ghost predicate TermHits(terms: seq<string>, paths: seq<string>, hits: seq<string>) {
    Picked(entry => HoldsTerms(entry, terms), paths, hits)
  }

  ghost predicate AbbreviationHits(query: string, paths: seq<string>, hits: seq<string>) {
    Picked(entry => HasAbbreviation(entry, query), paths, hits)
  }

  lemma NamedHitsAre(name: string, paths: seq<string>)
    ensures NamedHits(name, paths, Filter(Named(name), paths))
  {
    hide SameName, HasName, Filter;
    forall entry: string
      ensures Named(name)(entry) <==> HasName(entry, name)
    {
      HasNameMeans(entry, name);
    }
    var at := FilterPicks(Named(name), entry => HasName(entry, name), paths);
  }

  lemma TextHitsAre(query: string, paths: seq<string>)
    ensures TextHits(query, paths, Filter(Containing(LowerCase(query)), paths))
  {
    hide Includes, HoldsText, LowerCase, Filter;
    forall entry: string
      ensures Containing(LowerCase(query))(entry) <==> HoldsText(entry, query)
    {
      HoldsTextMeans(entry, query);
    }
    var at := FilterPicks(Containing(LowerCase(query)), entry => HoldsText(entry, query), paths);
  }

  lemma TermHitsAre(terms: seq<string>, paths: seq<string>)
    ensures TermHits(terms, paths, Filter(Holding(LowerTerms(terms)), paths))
  {
    hide HasAll, HoldsTerms, LowerCase, LowerTerms, Filter;
    forall entry: string
      ensures Holding(LowerTerms(terms))(entry) <==> HoldsTerms(entry, terms)
    {
      HoldsTermsMeans(entry, terms);
    }
    var at := FilterPicks(Holding(LowerTerms(terms)), entry => HoldsTerms(entry, terms), paths);
  }

  ghost function Abbreviated(query: string): string -> bool { entry => Fuzzy(query, entry) }

  lemma {:induction false} FuzzyFilterIsFilter(query: string, paths: seq<string>)
    ensures FuzzyFilter(query, paths) == Filter(Abbreviated(query), paths)
  {
    hide Fuzzy;
    if paths != [] { FuzzyFilterIsFilter(query, paths[..|paths| - 1]); }
  }

  lemma AbbreviationHitsAre(query: string, paths: seq<string>)
    ensures AbbreviationHits(query, paths, FuzzyFilter(query, paths))
  {
    hide Fuzzy, HasAbbreviation, Filter, FuzzyFilter;
    forall entry: string
      ensures Abbreviated(query)(entry) <==> HasAbbreviation(entry, query)
    {
      HasAbbreviationMeans(entry, query);
    }
    FuzzyFilterIsFilter(query, paths);
    var at := FilterPicks(Abbreviated(query), entry => HasAbbreviation(entry, query), paths);
  }

  // ---------------------------------------------------------------------------
  // The index

  predicate SameName(name: string, entry: string) {
    LowerCase(Basename(entry)) == LowerCase(name)
  }

  predicate HasAll(needles: seq<string>, entry: string) {
    forall needle | needle in needles :: Includes(entry, needle)
  }

  // The filters of the queries.
  function Named(name: string): string -> bool { entry => SameName(name, entry) }

  function Containing(needle: string): string -> bool { entry => Includes(LowerCase(entry), needle) }

  function Holding(needles: seq<string>): string -> bool { entry => HasAll(needles, LowerCase(entry)) }

  function HoldingLine(needles: seq<string>): string -> bool { line => line != "" && HasAll(needles, LowerCase(line)) }

  /** Each bucket holds exactly the entries with its name. */
  ghost predicate Buckets(byName: map<string, seq<string>>, entries: seq<string>) {
    forall key: string :: (if key in byName then byName[key] else []) == WithName(key, entries)
  }

  lemma NextBucket(byName: map<string, seq<string>>, entries: seq<string>, i: nat)
    requires i < |entries| && Buckets(byName, entries[..i])
    ensures var name := LowerCase(Basename(entries[i]));
            var bucket := (if name in byName then byName[name] else []) + [entries[i]];
            Buckets(byName[name := bucket], entries[..i + 1])
  {
    hide LowerCase, Basename, WithName;
    var name := LowerCase(Basename(entries[i]));
    var bucket := (if name in byName then byName[name] else []) + [entries[i]];
    var next := byName[name := bucket];
    forall key: string
      ensures (if key in next then next[key] else []) == WithName(key, entries[..i + 1])
    {
      WithNameOne(key, entries, i);
    }
  }

  lemma {:induction false} WithNameIsFilter(name: string, entries: seq<string>)
    ensures WithName(LowerCase(name), entries) == Filter(Named(name), entries)
  {
    hide LowerCase, Basename;
    if entries != [] { WithNameIsFilter(name, entries[..|entries| - 1]); }
  }

  class PathIndex {
    const paths: seq<string>
    const lower: seq<string>
    var byName: map<string, seq<string>>

    ghost predicate Valid()
      reads this
    {
      && |lower| == |paths|
      && (forall i | 0 <= i < |paths| :: lower[i] == LowerCase(paths[i]))
      && Buckets(byName, paths)
    }

    constructor (paths: seq<string>)
      ensures Valid() && this.paths == paths
    {
      this.paths := paths;
      lower := seq(|paths|, i requires 0 <= i < |paths| => LowerCase(paths[i]));
      byName := map[];
      new;
      for i := 0 to |paths|
        invariant Buckets(byName, paths[..i])
      {
        var entry := paths[i];
        var name := LowerCase(Basename(entry));
        NextBucket(byName, paths, i);
        if name in byName {
          byName := byName[name := byName[name] + [entry]];
        } else {
          byName := byName[name := [entry]];
        }
      }
      Whole(paths);
    }

    /** Exactly the paths whose last segment is `name` in any case, in their order. */
    method ByBasename(name: string) returns (hits: seq<string>)
      requires Valid()
      ensures hits == Filter(Named(name), paths)
      ensures NamedHits(name, paths, hits)
    {
      NamedHitsAre(name, paths);
      var key := LowerCase(name);
      hits := if key in byName then byName[key] else [];
      WithNameIsFilter(name, paths);
    }

    /** Exactly the paths that hold the query in any case, in their order. */
    method BySubstring(query: string) returns (hits: seq<string>)
      requires Valid()
      ensures hits == Filter(Containing(LowerCase(query)), paths)
      ensures TextHits(query, paths, hits)
    {
      TextHitsAre(query, paths);
      var needle := LowerCase(query);
      hits := [];
      for i := 0 to |lower|
        invariant hits == Filter(Containing(LowerCase(query)), paths[..i])
      {
        FilterOne(Containing(LowerCase(query)), paths, i);
        if Includes(lower[i], needle) { hits := hits + [paths[i]]; }
      }
      Whole(paths);
    }

    /** Empty terms are dropped first, which changes nothing. */
    method ByTokens(terms: seq<string>) returns (hits: seq<string>)
      requires Valid()
      ensures hits == Filter(Holding(LowerTerms(terms)), paths)
      ensures TermHits(terms, paths, hits)
    {
      TermHitsAre(terms, paths);
      var needles := Filter(needle => needle != "", LowerTerms(terms));
      hits := [];
      for i := 0 to |lower|
        invariant hits == Filter(Holding(LowerTerms(terms)), paths[..i])
      {
        FilterOne(Holding(LowerTerms(terms)), paths, i);
        EmptyTermsAreFree(LowerTerms(terms), lower[i]);
        if HasAll(needles, lower[i]) { hits := hits + [paths[i]]; }
      }
      Whole(paths);
    }

    /** Exactly the paths whose last segment has the query as a subsequence, in any case. */
    method ByFuzzy(query: string) returns (hits: seq<string>)
      requires Valid()
      ensures FuzzyHits(query, paths, hits)
      ensures AbbreviationHits(query, paths, hits)
    {
      AbbreviationHitsAre(query, paths);
      var needle := LowerCase(query);
      hits := [];
      for i := 0 to |lower|
        invariant FuzzyHits(query, paths[..i], hits)
      {
        BasenameOfLower(paths[i]);
        var hit := Matches(needle, Basename(lower[i]));
        FuzzyOne(query, paths, i, hits);
        if hit { hits := hits + [paths[i]]; }
      }
      Whole(paths);
    }
  }

  function LowerTerms(terms: seq<string>): seq<string> {
    seq(|terms|, i requires 0 <= i < |terms| => LowerCase(terms[i]))
  }

  lemma IncludesEmpty(s: string)
    ensures Includes(s, "")
  {
    assert StartsAt(s, 0, "");
  }

  lemma OnlyEmptyInEmpty(needle: string)
    ensures Includes(LowerCase(""), needle) ==> needle == ""
  {
  }

  lemma {:induction false} FilterMembers<T>(keep: T -> bool, s: seq<T>, x: T)
    ensures x in Filter(keep, s) <==> x in s && keep(x)
  {
    if s != [] {
      FilterMembers(keep, s[..|s| - 1], x);
      assert s == s[..|s| - 1] + [s[|s| - 1]];
    }
  }

  lemma EmptyTermsAreFree(needles: seq<string>, entry: string)
    ensures HasAll(Filter(needle => needle != "", needles), entry) <==> HasAll(needles, entry)
  {
    forall needle: string
      ensures needle in Filter(n => n != "", needles) <==> needle in needles && needle != ""
    {
      FilterMembers(n => n != "", needles, needle);
    }
    IncludesEmpty(entry);
  }

  /** The name of the entry has the query as a subsequence, compared in lower case. */
  ghost predicate Fuzzy(query: string, entry: string) {
    Subsequence(LowerCase(query), LowerCase(Basename(entry)))
  }

  ghost function FuzzyFilter(query: string, entries: seq<string>): seq<string> {
    if entries == [] then []
    else FuzzyFilter(query, entries[..|entries| - 1])
         + if Fuzzy(query, entries[|entries| - 1]) then [entries[|entries| - 1]] else []
  }

  ghost predicate FuzzyHits(query: string, entries: seq<string>, hits: seq<string>) {
    hits == FuzzyFilter(query, entries)
  }

  lemma FuzzyOne(query: string, entries: seq<string>, i: nat, hits: seq<string>)
    requires i < |entries| && FuzzyHits(query, entries[..i], hits)
    ensures FuzzyHits(query, entries[..i + 1], if Fuzzy(query, entries[i]) then hits + [entries[i]] else hits)
  {
    assert entries[..i + 1][..i] == entries[..i];
  }

  // ---------------------------------------------------------------------------
  // The ripgrep side: the raw listing, split into lines and filtered

  /** The lines the index is built from. */
  function NonEmpty(lines: seq<string>): seq<string> {
    if lines == [] then []
    else NonEmpty(lines[..|lines| - 1]) + if lines[|lines| - 1] == "" then [] else [lines[|lines| - 1]]
  }

  /** The scan of the ripgrep side: it returns from inside the loop and treats an empty needle apart. */
  method RgMatches(needle: string, name: string) returns (hit: bool)
    ensures hit <==> Subsequence(needle, name)
  {
    GreedyIsComplete(needle, name);
    var cursor := 0;
    for i := 0 to |name|
      invariant cursor == Cursor(needle, name, i)
      invariant cursor < |needle| || i == 0
    {
      if cursor < |needle| && name[i] == needle[cursor] { cursor := cursor + 1; }
      if cursor == |needle| {
        CursorStays(needle, name, i + 1, |name|);
        return true;
      }
    }
    hit := |needle| == 0;
  }

  ghost function RgFuzzyFilter(needle: string, lines: seq<string>): seq<string> {
    if lines == [] then []
    else
      var line := lines[|lines| - 1];
      RgFuzzyFilter(needle, lines[..|lines| - 1])
      + if line != "" && Subsequence(needle, LowerCase(Basename(line))) then [line] else []
  }

  method RgFuzzy(lines: seq<string>, needle: string) returns (hits: seq<string>)
    ensures hits == RgFuzzyFilter(needle, lines)
  {
    hits := [];
    for i := 0 to |lines|
      invariant hits == RgFuzzyFilter(needle, lines[..i])
    {
      assert lines[..i + 1][..i] == lines[..i];
      if lines[i] != "" {
        var hit := RgMatches(needle, LowerCase(Basename(lines[i])));
        if hit { hits := hits + [lines[i]]; }
      }
    }
    Whole(lines);
  }

  lemma FuzzyFilterOne(query: string, entries: seq<string>, entry: string)
    ensures FuzzyFilter(query, entries + [entry])
         == FuzzyFilter(query, entries) + if Fuzzy(query, entry) then [entry] else []
  {
    assert (entries + [entry])[..|entries|] == entries;
  }

  lemma LowerTwice(s: string)
    ensures LowerCase(LowerCase(s)) == LowerCase(s)
  {
  }

  lemma FilterUnfolds<T>(keep: T -> bool, s: seq<T>)
    requires s != []
    ensures Filter(keep, s) == Filter(keep, s[..|s| - 1]) + if keep(s[|s| - 1]) then [s[|s| - 1]] else []
  {
  }

  lemma NonEmptyUnfolds(lines: seq<string>)
    requires lines != []
    ensures NonEmpty(lines)
         == if lines[|lines| - 1] == "" then NonEmpty(lines[..|lines| - 1])
            else NonEmpty(lines[..|lines| - 1]) + [lines[|lines| - 1]]
  {
  }

  lemma RgFuzzyUnfolds(query: string, lines: seq<string>)
    requires lines != []
    ensures var line := lines[|lines| - 1];
            RgFuzzyFilter(LowerCase(query), lines)
            == RgFuzzyFilter(LowerCase(query), lines[..|lines| - 1])
               + if line != "" && Fuzzy(LowerCase(query), line) then [line] else []
  {
    LowerTwice(query);
  }

  /** Both sides of the fuzzy query give the same paths, in the same order. */
  lemma {:induction false} FuzzySidesAgree(lines: seq<string>, query: string)
    ensures RgFuzzyFilter(LowerCase(query), lines) == FuzzyFilter(LowerCase(query), NonEmpty(lines))
  {
    if lines == [] {
      NoHits(query);
    } else {
      hide *;
      var init, line := lines[..|lines| - 1], lines[|lines| - 1];
      FuzzySidesAgree(init, query);
      RgFuzzyUnfolds(query, lines);
      NonEmptyUnfolds(lines);
      FuzzyFilterOne(LowerCase(query), NonEmpty(init), line);
    }
  }

  lemma NoHits(query: string)
    ensures RgFuzzyFilter(LowerCase(query), []) == FuzzyFilter(LowerCase(query), NonEmpty([])) == []
  {
  }

  /** Both sides of the token query agree as well, though only the index drops empty terms. */
  lemma {:induction false} TokenSidesAgree(lines: seq<string>, terms: seq<string>)
    ensures Filter(HoldingLine(LowerTerms(terms)), lines) == Filter(Holding(LowerTerms(terms)), NonEmpty(lines))
  {
    if lines != [] {
      hide Filter, NonEmpty, HasAll, LowerCase, LowerTerms;
      var init, line := lines[..|lines| - 1], lines[|lines| - 1];
      TokenSidesAgree(init, terms);
      FilterUnfolds(HoldingLine(LowerTerms(terms)), lines);
      NonEmptyUnfolds(lines);
      FilterAppend(Holding(LowerTerms(terms)), NonEmpty(init), line);
    }
  }

  lemma FilterAppend<T>(keep: T -> bool, s: seq<T>, x: T)
    ensures Filter(keep, s + [x]) == Filter(keep, s) + if keep(x) then [x] else []
  {
    assert (s + [x])[..|s|] == s;
  }

  function EmptyLines(lines: seq<string>): nat {
    if lines == [] then 0 else EmptyLines(lines[..|lines| - 1]) + if lines[|lines| - 1] == "" then 1 else 0
  }

  /**
   The substring query counts differ: ripgrep's side keeps empty lines, and the listing always
   ends with one. With a non-empty token they agree; otherwise each empty line is one hit more.
   */
  lemma {:induction false} SubstringSides(lines: seq<string>, token: string)
    ensures |Filter(Containing(token), lines)|
         == |Filter(Containing(token), NonEmpty(lines))|
            + if token == "" then EmptyLines(lines) else 0
  {
    if lines != [] {
      hide Filter, NonEmpty, Includes, LowerCase;
      var init, line := lines[..|lines| - 1], lines[|lines| - 1];
      SubstringSides(init, token);
      IncludesEmpty(LowerCase(line));
      OnlyEmptyInEmpty(token);
      FilterUnfolds(Containing(token), lines);
      NonEmptyUnfolds(lines);
      FilterAppend(Containing(token), NonEmpty(init), line);
    }
  }

  /** So the two counts are equal exactly when the token is not empty or the listing has no empty line. */
  lemma SubstringCountsAgree(lines: seq<string>, token: string)
    ensures |Filter(Containing(token), lines)|
         == |Filter(Containing(token), NonEmpty(lines))|
       <==> token != "" || "" !in lines
  {
    SubstringSides(lines, token);
    EmptyLinesCounted(lines);
  }

  lemma {:induction false} EmptyLinesCounted(lines: seq<string>)
    ensures EmptyLines(lines) == 0 <==> "" !in lines
  {
    if lines != [] {
      EmptyLinesCounted(lines[..|lines| - 1]);
      assert lines == lines[..|lines| - 1] + [lines[|lines| - 1]];
    }
  }
}
