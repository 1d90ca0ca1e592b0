/**
 Two incremental splitters: the driver's stderr lines, bounded in memory
 (cua-helper/mcp-bridge.ts:82-90), and the frames of an event stream
 (scripts/runtime-first-token-benchmark.ts:696-708). Text arrives in arbitrary chunks.
 */
module Framing {
  import opened Results
  import opened Sequences

  const LINE_LIMIT := 16_384

  function Concat(chunks: seq<string>): string {
    if chunks == [] then "" else Concat(chunks[..|chunks| - 1]) + chunks[|chunks| - 1]
  }

  lemma ConcatOne(chunks: seq<string>, chunk: string)
    ensures Concat(chunks + [chunk]) == Concat(chunks) + chunk
  {
    assert (chunks + [chunk])[..|chunks|] == chunks;
  }

  // ---------------------------------------------------------------------------
  // Lines

  /** `s.split("\n")`: always at least one piece. */
  function Split(s: string): (lines: seq<string>)
    ensures lines != []
  {
    if s == "" then [""]
    else
      var rest := Split(s[..|s| - 1]);
      if s[|s| - 1] == '\n' then rest + [""]
      else rest[..|rest| - 1] + [rest[|rest| - 1] + [s[|s| - 1]]]
  }

  function Last(lines: seq<string>): string
    requires lines != []
  {
    lines[|lines| - 1]
  }

  function Front(lines: seq<string>): seq<string>
    requires lines != []
  {
    lines[..|lines| - 1]
  }

  function Joined(lines: seq<string>): string
    requires lines != []
  {
    if |lines| == 1 then lines[0] else Joined(lines[..|lines| - 1]) + "\n" + lines[|lines| - 1]
  }

  lemma JoinedOne(front: seq<string>, last: string, more: string)
    ensures Joined(front + [last + more]) == Joined(front + [last]) + more
  {
    var whole, longer := front + [last], front + [last + more];
    assert whole[..|whole| - 1] == front && longer[..|longer| - 1] == front;
  }

  lemma JoinedNext(lines: seq<string>)
    requires lines != []
    ensures Joined(lines + [""]) == Joined(lines) + "\n"
  {
    assert (lines + [""])[..|lines|] == lines;
  }

  lemma SplitUnfolds(s: string, c: char)
    ensures var lines := Split(s);
            Split(s + [c]) == if c == '\n' then lines + [""] else Front(lines) + [Last(lines) + [c]]
  {
    assert (s + [c])[..|s|] == s;
  }

  lemma {:induction false} NoBreakInside(s: string)
    ensures forall line | line in Split(s) :: '\n' !in line
  {
    if s != "" {
      var init, c := s[..|s| - 1], s[|s| - 1];
      NoBreakInside(init);
      assert s == init + [c];
      SplitUnfolds(init, c);
      hide Split;
    }
  }

  lemma {:induction false} SplitRejoins(s: string)
    ensures Joined(Split(s)) == s
  {
    if s != "" {
      hide Split, Joined;
      var init, c := s[..|s| - 1], s[|s| - 1];
      var lines := Split(init);
      SplitRejoins(init);
      assert s == init + [c];
      SplitUnfolds(init, c);
      JoinedNext(lines);
      JoinedOne(Front(lines), Last(lines), [c]);
      assert lines == Front(lines) + [Last(lines)];
    }
  }

  /** The lines joined with line breaks are the text, and none holds a line break. */
  lemma LinesRejoin(s: string)
    ensures Joined(Split(s)) == s
    ensures forall line | line in Split(s) :: '\n' !in line
  {
    SplitRejoins(s);
    NoBreakInside(s);
  }

  /** Splitting goes on where it was: only the open line and the new text matter. */
  lemma {:induction false} SplitAppend(a: string, b: string)
    ensures Split(a + b) == Front(Split(a)) + [Last(Split(a)) + Split(b)[0]] + Split(b)[1..]
    decreases |b|
  {
    if b == "" {
      assert a + b == a;
      assert Split(b) == [""] && Last(Split(a)) + "" == Last(Split(a));
      assert Front(Split(a)) + [Last(Split(a))] == Split(a);
    } else {
      var b' := b[..|b| - 1];
      assert (a + b)[..|a + b| - 1] == a + b';
      SplitAppend(a, b');
      AppendStep(Front(Split(a)), Last(Split(a)), Split(b'), b[|b| - 1]);
      assert Split(a + b) == Next(Split(a + b'), b[|b| - 1]);
      assert Split(b) == Next(Split(b'), b[|b| - 1]);
    }
  }

  /** The lines after one more character. */
  function Next(lines: seq<string>, c: char): (next: seq<string>)
    requires lines != []
    ensures next != []
  {
    if c == '\n' then lines + [""] else Front(lines) + [Last(lines) + [c]]
  }

  lemma AppendStep(front: seq<string>, open: string, lines: seq<string>, c: char)
    requires lines != []
    ensures Next(front + [open + lines[0]] + lines[1..], c)
         == front + [open + Next(lines, c)[0]] + Next(lines, c)[1..]
  {
    var all := front + [open + lines[0]] + lines[1..];
    if c != '\n' {
      if |lines| == 1 {
        assert lines[1..] == [] && all == front + [open + lines[0]];
        assert open + lines[0] + [c] == open + (lines[0] + [c]);
      } else {
        assert Last(all) == Last(lines);
        assert Front(all) == front + [open + lines[0]] + lines[1..|lines| - 1];
      }
    }
  }

  /** `s.slice(-16384)` */
  function Tail(s: string): string {
    if |s| <= LINE_LIMIT then s else s[|s| - LINE_LIMIT..]
  }

  lemma TailTail(a: string, b: string)
    ensures Tail(Tail(a) + b) == Tail(a + b)
  {
    if |a| > LINE_LIMIT {
      var cut := |a| - LINE_LIMIT;
      assert a == a[..cut] + Tail(a);
      assert a + b == a[..cut] + (Tail(a) + b);
    }
  }

  /** A cut line keeps the end of the true one, all of it up to the limit. */
  ghost predicate EndOf(cut: string, line: string) {
    && |cut| <= |line| && cut == line[|line| - |cut|..]
    && |cut| >= if |line| < 16_384 then |line| else 16_384
  }

  ghost predicate CutFrom(cut: seq<string>, lines: seq<string>) {
    |cut| == |lines| && forall i | 0 <= i < |cut| :: EndOf(cut[i], lines[i])
  }

  lemma TailIsEnd(s: string)
    ensures EndOf(Tail(s), s)
  {
  }

  /** What `trim()` removes: the white space and line ends of JavaScript. */
  predicate IsSpace(c: char) {
    var n := c as int;
    9 <= n <= 13 || c == ' ' || n == 0xA0 || n == 0x1680 || 0x2000 <= n <= 0x200A
    || n == 0x2028 || n == 0x2029 || n == 0x202F || n == 0x205F || n == 0x3000 || n == 0xFEFF
  }

  predicate Blank(line: string) {
    forall c | c in line :: IsSpace(c)
  }

  /** A line is blank if it has these characters only. */
  lemma BlankMeans(line: string)
    ensures Blank(line) <==>
              forall i | 0 <= i < |line| ::
                line[i] as int in {9, 10, 11, 12, 13, 32, 160, 5760, 8192, 8193, 8194, 8195, 8196, 8197, 8198, 8199, 8200,
                                   8201, 8202, 8232, 8233, 8239, 8287, 12288, 65279}
  {
    if Blank(line) {
      forall i | 0 <= i < |line|
        ensures IsSpace(line[i])
      {
        assert line[i] in line;
      }
    }
  }

  /** The lines logged are those that are not blank, and no other. */
  lemma {:induction false} NotBlankMembers(lines: seq<string>, line: string)
    ensures line in NotBlank(lines) <==> line in lines && !Blank(line)
  {
    hide Blank;
    if lines != [] {
      NotBlankMembers(lines[..|lines| - 1], line);
      assert lines == lines[..|lines| - 1] + [lines[|lines| - 1]];
    }
  }

  function NotBlank(lines: seq<string>): seq<string> {
    if lines == [] then []
    else NotBlank(lines[..|lines| - 1]) + if Blank(lines[|lines| - 1]) then [] else [lines[|lines| - 1]]
  }

  /** What a splitter holds after these chunks: the text of the open line and the lines it has cut. */
  function Cutting(chunks: seq<string>): (string, seq<string>) {
    if chunks == [] then ("", [])
    else
      var (buffer, cut) := Cutting(chunks[..|chunks| - 1]);
      var lines := Split(buffer + chunks[|chunks| - 1]);
      (Tail(Last(lines)), cut + Front(lines))
  }

  lemma CuttingOne(chunks: seq<string>, chunk: string)
    ensures var (buffer, cut) := Cutting(chunks);
            var lines := Split(buffer + chunk);
            Cutting(chunks + [chunk]) == (Tail(Last(lines)), cut + Front(lines))
  {
    assert (chunks + [chunk])[..|chunks|] == chunks;
  }

  /** What is held is the end of the open line, and what was cut is cut from the lines of the whole text. */
  ghost predicate InStep(buffer: string, cut: seq<string>, stream: string) {
    && |buffer| <= LINE_LIMIT
    && buffer == Tail(Last(Split(stream)))
    && CutFrom(cut, Front(Split(stream)))
  }

  lemma StaysInStep(buffer: string, cut: seq<string>, stream: string, chunk: string)
    requires InStep(buffer, cut, stream)
    ensures var lines := Split(buffer + chunk);
            InStep(Tail(Last(lines)), cut + Front(lines), stream + chunk)
  {
    hide Split, Tail, CutFrom;
    SplitAppend(stream, chunk);
    NoNewline(stream);
    TailHasNoNewline(Last(Split(stream)));
    SplitAppend(buffer, chunk);
    CutStep(cut, Split(stream), Split(chunk), buffer);
    OpenLine(buffer, Split(chunk));
    TailIsBounded(Last(Split(buffer + chunk)));
  }

  lemma {:induction false} CuttingInStep(chunks: seq<string>)
    ensures InStep(Cutting(chunks).0, Cutting(chunks).1, Concat(chunks))
  {
    if chunks != [] {
      var init, chunk := chunks[..|chunks| - 1], chunks[|chunks| - 1];
      hide InStep;
      CuttingInStep(init);
      StaysInStep(Cutting(init).0, Cutting(init).1, Concat(init), chunk);
    }
  }

  class LineSplitter {
    var buffer: string
    // Lines cut so far, and those of them that were handed to the logger.
    ghost var cut: seq<string>
    var logged: seq<string>

    constructor ()
      ensures After([])
    {
      buffer, cut, logged := "", [], [];
    }

    /** The state after these chunks; how it relates to the text they make up is `InStep`. */
    ghost predicate After(chunks: seq<string>)
      reads this
    {
      && (buffer, cut) == Cutting(chunks) && logged == NotBlank(cut)
      && InStep(buffer, cut, Concat(chunks))
    }

    method OnData(chunk: string, ghost chunks: seq<string>)
      requires After(chunks)
      modifies this
      ensures After(chunks + [chunk])
      ensures old(cut) <= cut && old(logged) <= logged
    {
      hide Split, Tail, NotBlank, Cutting, Concat, InStep;
      CuttingOne(chunks, chunk);
      ConcatOne(chunks, chunk);
      StaysInStep(buffer, cut, Concat(chunks), chunk);
      var lines := Split(buffer + chunk);
      buffer := Tail(Last(lines));
      Log(Front(lines));
    }

    method Log(lines: seq<string>)
      requires logged == NotBlank(cut)
      modifies this`cut, this`logged
      ensures cut == old(cut) + lines && logged == NotBlank(cut) && old(logged) <= logged
    {
      for i := 0 to |lines|
        invariant cut == old(cut) + lines[..i] && logged == NotBlank(cut) && old(logged) <= logged
      {
        assert (cut + [lines[i]])[..|cut|] == cut;
        TakeLast(lines, i);
        Assoc(old(cut), lines[..i], [lines[i]]);
        if !Blank(lines[i]) { logged := logged + [lines[i]]; }
        cut := cut + [lines[i]];
      }
      Whole(lines);
    }
  }

  lemma OpenLine(open: string, more: seq<string>)
    requires more != []
    ensures Front([open]) + [Last([open]) + more[0]] + more[1..] == [open + more[0]] + more[1..]
  {
  }

  lemma TailIsBounded(s: string)
    ensures |Tail(s)| <= LINE_LIMIT
  {
  }

  lemma {:induction false} NoNewline(s: string)
    ensures '\n' !in Last(Split(s))
    decreases |s|
  {
    if s != "" { NoNewline(s[..|s| - 1]); }
  }

  lemma {:induction false} SplitOpen(s: string)
    requires '\n' !in s
    ensures Split(s) == [s]
    decreases |s|
  {
    if s != "" {
      SplitOpen(s[..|s| - 1]);
      assert s == s[..|s| - 1] + [s[|s| - 1]];
    }
  }

  lemma TailHasNoNewline(s: string)
    requires '\n' !in s
    ensures Split(Tail(s)) == [Tail(s)]
  {
    SplitOpen(Tail(s));
  }

  /** One chunk: the line it closes is cut from the buffer, the others are exact, the open one stays bounded. */
  lemma CutStep(cut: seq<string>, lines: seq<string>, more: seq<string>, buffer: string)
    requires lines != [] && more != [] && CutFrom(cut, Front(lines)) && buffer == Tail(Last(lines))
    ensures var joined := Front(lines) + [Last(lines) + more[0]] + more[1..];
            var local := [buffer + more[0]] + more[1..];
            && CutFrom(cut + Front(local), Front(joined))
            && Tail(Last(local)) == Tail(Last(joined))
  {
    hide EndOf, Tail;
    TailTail(Last(lines), more[0]);
    EndKept(Last(lines), more[0]);
    CutLines(cut, Front(lines), buffer + more[0], Last(lines) + more[0], more[1..]);
  }

  lemma CutLines(cut: seq<string>, front: seq<string>, closed: string, line: string, more: seq<string>)
    requires CutFrom(cut, front) && EndOf(closed, line)
    ensures CutFrom(cut + Front([closed] + more), Front(front + [line] + more))
  {
    hide EndOf;
    EndOfItself();
    var local, joined := Front([closed] + more), Front(front + [line] + more);
    var n := |front|;
    forall i | 0 <= i < |joined|
      ensures EndOf((cut + local)[i], joined[i])
    {
      if i < n {
        assert EndOf(cut[i], front[i]);
      } else if i > n {
        assert joined[i] == more[i - n - 1] == local[i - n];
      }
    }
  }

  lemma EndOfItself()
    ensures forall line :: EndOf(line, line)
  {
  }

  lemma EndKept(a: string, b: string)
    ensures EndOf(Tail(a) + b, a + b)
  {
    var cut := |a| - |Tail(a)|;
    assert a == a[..cut] + Tail(a);
    assert a + b == a[..cut] + (Tail(a) + b);
  }

  /** Lines within the limit come out exactly, so the same for every chunking. */
  lemma ShortLinesAreExact(cut: seq<string>, other: seq<string>, lines: seq<string>, i: nat)
    requires CutFrom(cut, lines) && CutFrom(other, lines) && i < |lines| && |lines[i]| <= 16_384
    ensures cut[i] == other[i] == lines[i]
  {
    assert EndOf(cut[i], lines[i]) && EndOf(other[i], lines[i]);
  }

  /** Line `i` as it comes out of a text in these chunks. */
  function CutLine(chunks: seq<string>, i: nat): Option<string> {
    var cut := Cutting(chunks).1;
    if i < |cut| then Some(cut[i]) else None
  }

  /** However the text arrives in chunks, line `i` comes out the same. */
  ghost predicate ChunkingIndependent(s: string, i: nat) {
    forall chunks, other | Concat(chunks) == s && Concat(other) == s :: CutLine(chunks, i) == CutLine(other, i)
  }

  /** Where a closed line stands in the text: after `before`, whose open line it is, up to a line break. */
  lemma {:induction false} ClosedLine(s: string, i: nat) returns (before: string, after: string)
    requires i < |Front(Split(s))|
    ensures s == before + ("\n" + after)
    ensures |Front(Split(before))| == i && Last(Split(before)) == Split(s)[i]
    decreases |s|
  {
    var init, c := s[..|s| - 1], s[|s| - 1];
    assert s == init + [c];
    if c == '\n' && i == |Split(init)| - 1 {
      before, after := init, "";
      assert "\n" + "" == [c];
    } else {
      before, after := ClosedLine(init, i);
      assert before + ("\n" + after) + [c] == before + ("\n" + (after + [c]));
      after := after + [c];
    }
  }

  lemma OneChunk(s: string)
    ensures Concat([s]) == s && Cutting([s]) == (Tail(Last(Split(s))), Front(Split(s)))
  {
    assert [s][..0] == [];
    assert "" + s == s && [] + Front(Split(s)) == Front(Split(s));
  }

  lemma TwoChunks(a: string, b: string)
    ensures Concat([a, b]) == a + b
    ensures Cutting([a, b]).1 == Front(Split(a)) + Front(Split(Tail(Last(Split(a))) + b))
  {
    hide Split, Tail;
    OneChunk(a);
    assert [a, b] == [a] + [b];
    ConcatOne([a], b);
    CuttingOne([a], b);
  }

  /** A line whose break comes in a chunk of its own is cut from the buffer alone. */
  lemma BreakAlone(open: string, after: string)
    requires '\n' !in open
    ensures var lines := Split(Tail(open) + ("\n" + after)); |lines| > 1 && lines[0] == Tail(open)
  {
    hide Split, Tail;
    TailHasNoNewline(open);
    SplitAppend(Tail(open), "\n" + after);
    SplitAppend("\n", after);
    assert Split("\n") == ["", ""] by { SplitBreak(); }
    assert Tail(open) + "" == Tail(open) && Front([Tail(open)]) == [];
    assert Front(["", ""]) == [""];
  }

  lemma SplitBreak()
    ensures Split("\n") == ["", ""]
  {
    assert "\n"[..0] == "";
  }

  lemma CutInOne(s: string, i: nat)
    requires i < |Front(Split(s))|
    ensures CutLine([s], i) == Some(Split(s)[i]) && Concat([s]) == s
  {
    hide Split, Cutting, Concat;
    OneChunk(s);
  }

  lemma CutInTwo(before: string, after: string)
    ensures CutLine([before, "\n" + after], |Front(Split(before))|) == Some(Tail(Last(Split(before))))
    ensures Concat([before, "\n" + after]) == before + ("\n" + after)
  {
    NoNewline(before);
    hide Split, Tail, Cutting, Concat;
    TwoChunks(before, "\n" + after);
    BreakAlone(Last(Split(before)), after);
  }

  lemma LongLineDepends(s: string, i: nat)
    requires i < |Front(Split(s))| && |Split(s)[i]| > LINE_LIMIT
    ensures !ChunkingIndependent(s, i)
  {
    var before, after := ClosedLine(s, i);
    assert |Tail(Split(s)[i])| == LINE_LIMIT;
    hide *;
    CutInOne(s, i);
    CutInTwo(before, after);
    Depends(s, i, [s], [before, "\n" + after]);
  }

  lemma Depends(s: string, i: nat, chunks: seq<string>, other: seq<string>)
    requires Concat(chunks) == s && Concat(other) == s && CutLine(chunks, i) != CutLine(other, i)
    ensures !ChunkingIndependent(s, i)
  {
    hide Concat, CutLine;
  }

  /**
   A closed line comes out the same for every chunking exactly when it has at most 16,384
   characters, and then it comes out whole.
   */
  lemma SameForEveryChunking(s: string, i: nat)
    requires i < |Front(Split(s))|
    ensures ChunkingIndependent(s, i) <==> |Split(s)[i]| <= 16_384
    ensures |Split(s)[i]| <= 16_384 ==>
      forall chunks | Concat(chunks) == s :: CutLine(chunks, i) == Some(Split(s)[i])
  {
    if |Split(s)[i]| <= LINE_LIMIT {
      forall chunks | Concat(chunks) == s
        ensures CutLine(chunks, i) == Some(Split(s)[i])
      {
        CuttingInStep(chunks);
        hide Split, Cutting, Tail;
        ShortLinesAreExact(Cutting(chunks).1, Cutting(chunks).1, Front(Split(s)), i);
      }
    } else {
      LongLineDepends(s, i);
    }
  }

  /**
   A splitter fed any chunks: what it holds is the end of the open line of their text, whatever
   they are; what it logs is the lines that are not blank, as these chunks cut them.
   */
  method SplitLines(chunks: seq<string>) returns (splitter: LineSplitter)
    ensures fresh(splitter) && splitter.After(chunks)
    ensures |splitter.buffer| <= 16_384 && EndOf(splitter.buffer, Last(Split(Concat(chunks))))
    ensures CutFrom(splitter.cut, Front(Split(Concat(chunks)))) && splitter.logged == NotBlank(splitter.cut)
  {
    TailIsEnd(Last(Split(Concat(chunks))));
    splitter := new LineSplitter();
    for i := 0 to |chunks|
      invariant fresh(splitter) && splitter.After(chunks[..i])
    {
      TakeLast(chunks, i);
      splitter.OnData(chunks[i], chunks[..i]);
    }
    Whole(chunks);
  }

  // ---------------------------------------------------------------------------
  // Event frames

  predicate BreakAt(s: string, i: nat) {
    i + 1 < |s| && s[i] == s[i + 1] == '\n'
  }

  /** `s.indexOf("\n\n")`, with the length of `s` when there is none. */
  function FirstBreak(s: string): (i: nat)
    ensures i <= |s|
    ensures i < |s| ==> BreakAt(s, i)
    ensures forall k: nat | BreakAt(s, k) :: i <= k
  {
    if |s| < 2 then |s|
    else if BreakAt(s, 0) then 0
    else
      var i := FirstBreak(s[1..]);
      assert forall k: nat | BreakAt(s, k) :: k > 0 && BreakAt(s[1..], k - 1);
      i + 1
  }

  /** The frames of a text, and what is left open after the last of them. */
  function Frames(s: string): (result: (seq<string>, string))
    decreases |s|
  {
    var i := FirstBreak(s);
    if i == |s| then ([], s)
    else
      var (frames, rest) := Frames(s[i + 2..]);
      ([s[..i]] + frames, rest)
  }

  /** More text after a break does not move it. */
  lemma FirstBreakStays(a: string, b: string)
    requires FirstBreak(a) < |a|
    ensures FirstBreak(a + b) == FirstBreak(a)
  {
    var i := FirstBreak(a);
    assert BreakAt(a + b, i);
    assert forall k: nat | k < i :: BreakAt(a + b, k) == BreakAt(a, k);
  }

  lemma FramesUnfold(s: string)
    ensures var i := FirstBreak(s);
            Frames(s) == if i == |s| then ([], s)
                         else ([s[..i]] + Frames(s[i + 2..]).0, Frames(s[i + 2..]).1)
  {
    hide FirstBreak, BreakAt;
  }

  /** Framing goes on where it was. */
  lemma {:induction false} FramesAppend(a: string, b: string)
    ensures Frames(a + b) == (Frames(a).0 + Frames(Frames(a).1 + b).0, Frames(Frames(a).1 + b).1)
    decreases |a|
  {
    var i := FirstBreak(a);
    if i < |a| {
      FirstBreakStays(a, b);
      assert (a + b)[i + 2..] == a[i + 2..] + b;
      assert (a + b)[..i] == a[..i];
      FramesAppend(a[i + 2..], b);
      var rest := Frames(Frames(a).1 + b);
      Assoc([a[..i]], Frames(a[i + 2..]).0, rest.0);
      FramesUnfold(a);
      FramesUnfold(a + b);
    } else {
      FramesUnfold(a);
      assert [] + Frames(a + b).0 == Frames(a + b).0;
    }
  }

  class EventFramer {
    var pending: string
    var frames: seq<string>

    constructor ()
      ensures After("")
    {
      pending, frames := "", [];
    }

    /** The frames so far and the text still open are those of the whole stream. */
    ghost predicate After(stream: string)
      reads this
    {
      (frames, pending) == Frames(stream)
    }

    method Consume(chunk: string, ghost stream: string)
      requires After(stream)
      modifies this
      ensures After(stream + chunk)
      ensures old(frames) <= frames
    {
      hide Frames;
      FramesAppend(stream, chunk);
      pending := pending + chunk;
      ghost var done := frames;
      while true
        invariant done <= frames
        invariant (frames + Frames(pending).0, Frames(pending).1) == Frames(stream + chunk)
        decreases |pending|
      {
        var index := FirstBreak(pending);
        FramesUnfold(pending);
        if index == |pending| { break; }
        Assoc(frames, [pending[..index]], Frames(pending[index + 2..]).0);
        frames := frames + [pending[..index]];
        pending := pending[index + 2..];
      }
      assert frames + [] == frames;
    }
  }

  /** A framer fed any chunks: its frames and open text are those of their text, whatever they are. */
  method FrameEvents(chunks: seq<string>) returns (framer: EventFramer)
    ensures fresh(framer) && framer.After(Concat(chunks))
    ensures (framer.frames, framer.pending) == Frames(Concat(chunks))
  {
    framer := new EventFramer();
    for i := 0 to |chunks|
      invariant fresh(framer) && framer.After(Concat(chunks[..i]))
    {
      TakeLast(chunks, i);
      ConcatOne(chunks[..i], chunks[i]);
      framer.Consume(chunks[i], Concat(chunks[..i]));
    }
    Whole(chunks);
  }

  /**
   A frame is a stretch up to the next break, so it does not end with half of one; joined with
   breaks, frames and the open text give the stream back.
   */
  lemma {:induction false} FramesRejoin(s: string)
    ensures Rejoin(Frames(s).0) + Frames(s).1 == s
    ensures forall f | f in Frames(s).0 :: Unbroken(f) && (f != "" ==> f[|f| - 1] != '\n')
    ensures Unbroken(Frames(s).1)
    decreases |s|
  {
    hide Frames, FirstBreak, BreakAt, Unbroken;
    var i := FirstBreak(s);
    FramesUnfold(s);
    UnbrokenMeans(s);
    if i < |s| {
      BreakSplits(s);
      FramesRejoin(s[i + 2..]);
      NoBreakBefore(s);
      UnbrokenMeans(s[..i]);
      var (frames, rest) := Frames(s[i + 2..]);
      RejoinOne(s[..i], frames);
      assert (s[..i] + "\n\n" + Rejoin(frames)) + rest == s[..i] + "\n\n" + (Rejoin(frames) + rest);
    }
  }

  /** No line break follows another. */
  predicate Unbroken(s: string) {
    forall k | 0 < k < |s| :: s[k] == '\n' ==> s[k - 1] != '\n'
  }

  lemma UnbrokenMeans(s: string)
    ensures Unbroken(s) <==> FirstBreak(s) == |s|
  {
    var i := FirstBreak(s);
    if i < |s| {
      assert s[i + 1] == '\n' && s[i] == '\n';
    } else {
      forall k | 0 < k < |s|
        ensures s[k] == '\n' ==> s[k - 1] != '\n'
      {
        assert !BreakAt(s, k - 1);
      }
    }
  }

  lemma RejoinOne(frame: string, frames: seq<string>)
    ensures Rejoin([frame] + frames) == frame + "\n\n" + Rejoin(frames)
    ensures Rejoin([]) == ""
  {
    assert ([frame] + frames)[1..] == frames;
  }

  lemma BreakSplits(s: string)
    requires FirstBreak(s) < |s|
    ensures FirstBreak(s) + 2 <= |s| && s == s[..FirstBreak(s)] + "\n\n" + s[FirstBreak(s) + 2..]
  {
    assert BreakAt(s, FirstBreak(s));
    AroundTwo(s, FirstBreak(s));
  }

  lemma AroundTwo<T>(s: seq<T>, i: nat)
    requires i + 2 <= |s|
    ensures s == s[..i] + [s[i], s[i + 1]] + s[i + 2..]
  {
  }

  lemma NoBreakBefore(s: string)
    ensures FirstBreak(s[..FirstBreak(s)]) == FirstBreak(s)
    ensures var i := FirstBreak(s); 0 < i < |s| ==> s[i - 1] != '\n'
  {
    var i := FirstBreak(s);
    assert 0 < i < |s| ==> !BreakAt(s, i - 1);
    assert forall k: nat | BreakAt(s[..i], k) :: BreakAt(s, k);
  }

  function Rejoin(frames: seq<string>): string {
    if frames == [] then "" else frames[0] + "\n\n" + Rejoin(frames[1..])
  }
}
