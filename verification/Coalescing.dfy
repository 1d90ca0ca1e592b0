/**
 What `Coalesced` guarantees about every plan (electron/lib/desktop-differential.ts:25-47):
 it keeps the bytes written, costs a bounded number of extra bytes per request saved,
 leaves no two downloads closer than the gap limit, and has nothing left to do afterwards.
 */
module Coalescing {
  import opened DifferentialPlan
  import opened Sequences

  // ---------------------------------------------------------------------------
  // Meaning

  /** The operations merged into a download end where the output stands after them. */
  lemma {:induction false} AbsorbedSpan(ops: seq<Operation>, gap: int, offset: int, baseSize: int, size: int)
    requires WellFormed(ops, offset, baseSize, size)
    ensures var n := Absorbed(ops, gap);
            && WellFormed(ops[n..], offset + Total(ops[..n]), baseSize, size)
            && Total(ops) == Total(ops[..n]) + Total(ops[n..])
            && (n == 0 ==> Total(ops[..n]) == 0)
            && (n > 0 ==> ops[n - 1].end == offset + Total(ops[..n]) <= size && 0 < Total(ops[..n]))
  {
    var n := Absorbed(ops, gap);
    if n == 0 {
      Whole(ops);
    } else {
      var gap' := if ops[0].kind == COPY then gap + ops[0].Length() else 0;
      AbsorbedSpan(ops[1..], gap', offset + ops[0].Length(), baseSize, size);
      DropDrop(ops, 1, n - 1);
      TakeTail(ops, n);
    }
  }

  /** The rewritten head covers the output range of the operations it stands for. */
  lemma HeadFits(ops: seq<Operation>, offset: int, baseSize: int, size: int)
    requires ops != [] && WellFormed(ops, offset, baseSize, size)
    ensures FitsAt(MergedHead(ops), offset, baseSize, size)
    ensures WellFormed(Remaining(ops), offset + MergedHead(ops).Length(), baseSize, size)
    ensures Total(ops) == MergedHead(ops).Length() + Total(Remaining(ops))
  {
    if ops[0].kind == DOWNLOAD {
      var n := Absorbed(ops[1..], 0);
      AbsorbedSpan(ops[1..], 0, offset + ops[0].Length(), baseSize, size);
      DropDrop(ops, 1, n);
    }
  }

  /** An accepted plan stays accepted and still covers the same output range. */
  lemma {:induction false} CoalescingKeepsPlansWellFormed(
      ops: seq<Operation>, offset: int, baseSize: int, size: int)
    requires WellFormed(ops, offset, baseSize, size)
    ensures WellFormed(Coalesced(ops), offset, baseSize, size)
    ensures Total(Coalesced(ops)) == Total(ops)
    decreases |ops|
  {
    if ops != [] {
      HeadFits(ops, offset, baseSize, size);
      CoalescingKeepsPlansWellFormed(Remaining(ops), offset + MergedHead(ops).Length(), baseSize, size);
      CoalescedHeadTail(ops);
    }
  }

  lemma CoalescedHeadTail(ops: seq<Operation>)
    requires ops != []
    ensures Coalesced(ops) != [] && Coalesced(ops)[0] == MergedHead(ops)
    ensures Coalesced(ops)[1..] == Coalesced(Remaining(ops))
  {
    hide *;
    CoalescedUnfolds(ops);
  }

  /** Every byte of `after` is the byte `before` has there or the one the new artifact has there. */
  ghost predicate OnlyFreshened<T>(before: seq<T>, after: seq<T>, offset: int, target: seq<T>) {
    && |before| == |after|
    && 0 <= offset && offset + |before| <= |target|
    && forall k :: 0 <= k < |before| ==> after[k] == before[k] || after[k] == target[offset + k]
  }

  lemma FreshenedByParts<T>(before: seq<T>, head: seq<T>, tail: seq<T>, offset: int, target: seq<T>)
    requires |head| <= |before| && 0 <= offset && offset + |head| <= |target|
    requires head == before[..|head|] || head == target[offset..offset + |head|]
    requires OnlyFreshened(before[|head|..], tail, offset + |head|, target)
    ensures OnlyFreshened(before, head + tail, offset, target)
  {
    forall k | 0 <= k < |before|
      ensures (head + tail)[k] == before[k] || (head + tail)[k] == target[offset + k]
    {
      if k < |head| {
        assert before[k] == before[..|head|][k];
      } else {
        assert before[k] == before[|head|..][k - |head|];
      }
    }
  }

  lemma {:induction false} PlanSplits(ops: seq<Operation>, n: nat, offset: int, baseSize: int, size: int)
    requires WellFormed(ops, offset, baseSize, size) && n <= |ops|
    ensures WellFormed(ops[n..], offset + Total(ops[..n]), baseSize, size)
    ensures Total(ops) == Total(ops[..n]) + Total(ops[n..])
    ensures Total(ops[..n]) >= 0 && Total(ops[n..]) >= 0
  {
    if ops == [] {
    } else if n == 0 {
      PlanSplits(ops[1..], 0, offset + ops[0].Length(), baseSize, size);
      Whole(ops[1..]);
      Whole(ops);
    } else {
      PlanSplits(ops[1..], n - 1, offset + ops[0].Length(), baseSize, size);
      DropDrop(ops, 1, n - 1);
      TakeTail(ops, n);
    }
  }

  lemma TotalOfTake(ops: seq<Operation>, n: nat)
    requires 0 < n <= |ops|
    ensures Total(ops[..n]) == ops[0].Length() + Total(ops[1..][..n - 1])
    ensures Total(ops) == ops[0].Length() + Total(ops[1..])
  {
    TakeTail(ops, n);
  }

  lemma RunUnfolds<T>(ops: seq<Operation>, offset: int, base: seq<T>, target: seq<T>)
    requires ops != [] && WellFormed(ops, offset, |base|, |target|)
    ensures WellFormed(ops[1..], offset + ops[0].Length(), |base|, |target|)
    ensures FitsAt(ops[0], ops[0].start, |base|, |target|)
    ensures |Piece(ops[0], base, target)| == ops[0].Length()
    ensures Run(ops, offset, base, target)
         == Piece(ops[0], base, target) + Run(ops[1..], offset + ops[0].Length(), base, target)
  {
  }

  /** After the first `n` operations, which write `length` bytes, the plan writes what its rest writes. */
  lemma {:induction false} RunSplits<T>(
      ops: seq<Operation>, n: nat, length: int, offset: int, base: seq<T>, target: seq<T>)
    requires WellFormed(ops, offset, |base|, |target|) && n <= |ops| && length == Total(ops[..n])
    requires WellFormed(ops[n..], offset + length, |base|, |target|)
    requires 0 <= length <= Total(ops)
    ensures Run(ops, offset, base, target)[length..] == Run(ops[n..], offset + length, base, target)
  {
    if n == 0 {
      hide Run, WellFormed;
      Whole(ops);
      Whole(Run(ops, offset, base, target));
    } else {
      hide Run, Piece, Total, WellFormed, FitsAt;
      var first, rest, after := ops[0].Length(), ops[1..], Total(ops[1..][..n - 1]);
      assert rest[n - 1..] == ops[n..] by { DropDrop(ops, 1, n - 1); }
      TotalOfTake(ops, n);
      RunUnfolds(ops, offset, base, target);
      PlanSplits(rest, n - 1, offset + first, |base|, |target|);
      var tail := Run(rest, offset + first, base, target);
      assert Run(ops, offset, base, target)[length..] == tail[after..] by {
        DropPast(Piece(ops[0], base, target), tail, after);
      }
      assert (offset + first) + after == offset + length;
      RunSplits(rest, n - 1, after, offset + first, base, target);
    }
  }

  /** The rewritten head writes what the plan wrote there, or the new artifact's bytes; the rest is untouched. */
  ghost predicate HeadWrites<T>(head: seq<T>, rest: seq<T>, before: seq<T>, offset: int, target: seq<T>) {
    && |head| <= |before|
    && 0 <= offset && offset + |head| <= |target|
    && (head == before[..|head|] || head == target[offset..offset + |head|])
    && before[|head|..] == rest
  }

  lemma CopyHeadWrites<T>(ops: seq<Operation>, offset: int, base: seq<T>, target: seq<T>)
    requires ops != [] && ops[0].kind == COPY && WellFormed(ops, offset, |base|, |target|)
    requires 0 <= offset && offset + ops[0].Length() <= |target|
    ensures HeadWrites(Piece(ops[0], base, target), Run(ops[1..], offset + ops[0].Length(), base, target),
                       Run(ops, offset, base, target), offset, target)
  {
  }

  lemma MergedLength(ops: seq<Operation>, offset: int, baseSize: int, size: int)
    requires ops != [] && ops[0].kind == DOWNLOAD && WellFormed(ops, offset, baseSize, size)
    ensures MergedHead(ops).Length() == Total(ops[..Absorbed(ops[1..], 0) + 1])
    ensures 0 <= MergedHead(ops).Length() <= Total(ops)
  {
    var n := Absorbed(ops[1..], 0);
    AbsorbedSpan(ops[1..], 0, offset + ops[0].Length(), baseSize, size);
    TakeTail(ops, n + 1);
    PlanSplits(ops, n + 1, offset, baseSize, size);
  }

  lemma DownloadHeadWrites<T>(ops: seq<Operation>, rest: seq<Operation>, offset: int, base: seq<T>, target: seq<T>)
    requires ops != [] && ops[0].kind == DOWNLOAD && WellFormed(ops, offset, |base|, |target|)
    requires FitsAt(MergedHead(ops), offset, |base|, |target|) && rest == Remaining(ops)
    requires WellFormed(rest, offset + MergedHead(ops).Length(), |base|, |target|)
    ensures HeadWrites(Piece(MergedHead(ops), base, target), Run(rest, offset + MergedHead(ops).Length(), base, target),
                       Run(ops, offset, base, target), offset, target)
  {
    MergedLength(ops, offset, |base|, |target|);
    RunSplits(ops, Absorbed(ops[1..], 0) + 1, MergedHead(ops).Length(), offset, base, target);
  }

  lemma RunCoalesced<T>(ops: seq<Operation>, offset: int, base: seq<T>, target: seq<T>)
    requires ops != []
    requires FitsAt(MergedHead(ops), offset, |base|, |target|)
    requires WellFormed(Coalesced(Remaining(ops)), offset + MergedHead(ops).Length(), |base|, |target|)
    ensures WellFormed(Coalesced(ops), offset, |base|, |target|)
    ensures Run(Coalesced(ops), offset, base, target)
         == Piece(MergedHead(ops), base, target)
            + Run(Coalesced(Remaining(ops)), offset + MergedHead(ops).Length(), base, target)
  {
    hide Coalesced, MergedHead, Remaining, Absorbed, Total;
    CoalescedHeadTail(ops);
  }

  lemma FreshenStep<T>(ops: seq<Operation>, rest: seq<T>, after: seq<T>, offset: int, base: seq<T>, target: seq<T>)
    requires ops != [] && WellFormed(ops, offset, |base|, |target|)
    requires 0 <= offset && offset + Total(ops) <= |target|
    requires FitsAt(MergedHead(ops), offset, |base|, |target|)
    requires WellFormed(Remaining(ops), offset + MergedHead(ops).Length(), |base|, |target|)
    requires rest == Run(Remaining(ops), offset + MergedHead(ops).Length(), base, target)
    requires Total(ops) == MergedHead(ops).Length() + |rest|
    requires OnlyFreshened(rest, after, offset + MergedHead(ops).Length(), target)
    ensures OnlyFreshened(Run(ops, offset, base, target), Piece(MergedHead(ops), base, target) + after, offset, target)
  {
    hide Absorbed, Coalesced, Run, Total, OnlyFreshened;
    if ops[0].kind == COPY {
      CopyHeadWrites(ops, offset, base, target);
    } else {
      DownloadHeadWrites(ops, Remaining(ops), offset, base, target);
    }
    FreshenedByParts(Run(ops, offset, base, target), Piece(MergedHead(ops), base, target), after, offset, target);
  }

  /**
   Coalescing changes nothing but where bytes come from: each output byte is what the plan
   wrote before or what the new artifact has at that position.
   */
  lemma {:induction false} CoalescingOnlyFreshens<T>(ops: seq<Operation>, offset: int, base: seq<T>, target: seq<T>)
    requires WellFormed(ops, offset, |base|, |target|)
    requires 0 <= offset && offset + Total(ops) <= |target|
    ensures WellFormed(Coalesced(ops), offset, |base|, |target|)
    ensures OnlyFreshened(Run(ops, offset, base, target), Run(Coalesced(ops), offset, base, target), offset, target)
    decreases |ops|
  {
    hide Absorbed, MergedHead, Remaining, Piece, FitsAt;
    if ops != [] {
      HeadFits(ops, offset, |base|, |target|);
      var rest, next := Remaining(ops), offset + MergedHead(ops).Length();
      CoalescingOnlyFreshens(rest, next, base, target);
      RunCoalesced(ops, offset, base, target);
      FreshenStep(ops, Run(rest, next, base, target), Run(Coalesced(rest), next, base, target), offset, base, target);
    }
  }

  /** A plan that rebuilds the new artifact still rebuilds exactly that artifact. */
  lemma CoalescingPreservesRebuild<T>(ops: seq<Operation>, base: seq<T>, target: seq<T>)
    requires WellFormed(ops, 0, |base|, |target|)
    requires Run(ops, 0, base, target) == target
    ensures Tiles(Coalesced(ops), |base|, |target|)
    ensures Run(Coalesced(ops), 0, base, target) == target
  {
    CoalescingKeepsPlansWellFormed(ops, 0, |base|, |target|);
    CoalescingOnlyFreshens(ops, 0, base, target);
  }

  // ---------------------------------------------------------------------------
  // Cost

  lemma {:induction false} CopiesPlusDownloads(ops: seq<Operation>)
    ensures CopyBytes(ops) + DownloadBytes(ops) == Total(ops)
  {
    if ops != [] { CopiesPlusDownloads(ops[1..]); }
  }

  /** Bytes only move from copied to downloaded. */
  lemma CoalescingKeepsByteCount(ops: seq<Operation>, offset: int, baseSize: int, size: int)
    requires WellFormed(ops, offset, baseSize, size)
    ensures CopyBytes(Coalesced(ops)) + DownloadBytes(Coalesced(ops)) == CopyBytes(ops) + DownloadBytes(ops)
  {
    CoalescingKeepsPlansWellFormed(ops, offset, baseSize, size);
    CopiesPlusDownloads(ops);
    CopiesPlusDownloads(Coalesced(ops));
  }

  lemma {:induction false} DownloadsSplit(ops: seq<Operation>, n: nat)
    requires n <= |ops|
    ensures DownloadBytes(ops) == DownloadBytes(ops[..n]) + DownloadBytes(ops[n..])
    ensures Requests(ops) == Requests(ops[..n]) + Requests(ops[n..])
  {
    if n == 0 {
      Whole(ops);
    } else {
      DownloadsSplit(ops[1..], n - 1);
      DropDrop(ops, 1, n - 1);
      TakeTail(ops, n);
    }
  }

  /** The copies merged into one download are paid for by the requests they save. */
  lemma {:induction false} AbsorbedCost(ops: seq<Operation>, gap: int)
    requires 0 <= gap <= GAP_LIMIT
    requires forall op | op in ops :: op.start <= op.end
    ensures var n := Absorbed(ops, gap);
            n > 0 ==> gap + CopyBytes(ops[..n]) <= GAP_LIMIT * Requests(ops[..n])
  {
    var n := Absorbed(ops, gap);
    if n > 0 {
      AbsorbedCost(ops[1..], if ops[0].kind == COPY then gap + ops[0].Length() else 0);
      TakeTail(ops, n);
    }
  }

  /** What the operations merged into a download add to it, against the requests they replace. */
  lemma AbsorbedPays(ops: seq<Operation>, offset: int, baseSize: int, size: int)
    requires WellFormed(ops, offset, baseSize, size)
    ensures var n := Absorbed(ops, 0);
            && 0 <= Total(ops[..n]) - (DownloadBytes(ops) - DownloadBytes(ops[n..]))
                 <= GAP_LIMIT * (Requests(ops) - Requests(ops[n..]))
            && Requests(ops[n..]) <= Requests(ops)
  {
    var n := Absorbed(ops, 0);
    ForwardOperations(ops, offset, baseSize, size);
    AbsorbedCost(ops, 0);
    hide *;
    DownloadsSplit(ops, n);
    CopiesPlusDownloads(ops[..n]);
    NonNegativeBytes(ops[..n]);
    if n == 0 {
      NothingCopied(ops[..n]);
    }
  }

  lemma NothingCopied(ops: seq<Operation>)
    ensures ops == [] ==> CopyBytes(ops) == 0
  {
  }

  lemma MergeLength(ops: seq<Operation>, offset: int, baseSize: int, size: int)
    requires ops != [] && ops[0].kind == DOWNLOAD && WellFormed(ops, offset, baseSize, size)
    ensures var n := Absorbed(ops[1..], 0);
            && MergedHead(ops).Length() == ops[0].Length() + Total(ops[1..][..n])
            && Remaining(ops) == ops[1..][n..]
  {
    hide Total, Absorbed;
    AbsorbedSpan(ops[1..], 0, offset + ops[0].Length(), baseSize, size);
    DropDrop(ops, 1, Absorbed(ops[1..], 0));
  }

  /** One merge: what the widened download costs and how many requests it replaces. */
  lemma MergeCost(ops: seq<Operation>, offset: int, baseSize: int, size: int)
    requires ops != [] && WellFormed(ops, offset, baseSize, size)
    ensures var fetched := if ops[0].kind == DOWNLOAD then MergedHead(ops).Length() else 0;
            var extra := fetched - (DownloadBytes(ops) - DownloadBytes(Remaining(ops)));
            var saved := Requests(ops) - Requests(Remaining(ops)) - if ops[0].kind == DOWNLOAD then 1 else 0;
            0 <= saved && 0 <= extra <= GAP_LIMIT * saved
  {
    if ops[0].kind == DOWNLOAD {
      hide Total, Absorbed, MergedHead, Remaining;
      AbsorbedPays(ops[1..], offset + ops[0].Length(), baseSize, size);
      MergeLength(ops, offset, baseSize, size);
    }
  }

  /** The extra bytes fetched are at most 64 KiB for each request saved. */
  lemma {:induction false} CoalescingCost(ops: seq<Operation>, offset: int, baseSize: int, size: int)
    requires WellFormed(ops, offset, baseSize, size)
    ensures Requests(Coalesced(ops)) <= Requests(ops)
    ensures DownloadBytes(ops) <= DownloadBytes(Coalesced(ops))
    ensures DownloadBytes(Coalesced(ops)) - DownloadBytes(ops)
         <= 65_536 * (Requests(ops) - Requests(Coalesced(ops)))
    decreases |ops|
  {
    hide Absorbed, MergedHead, Remaining, FitsAt;
    if ops != [] {
      HeadFits(ops, offset, baseSize, size);
      CoalescingCost(Remaining(ops), offset + MergedHead(ops).Length(), baseSize, size);
      MergeCost(ops, offset, baseSize, size);
      CoalescedHeadTail(ops);
    }
  }

  lemma {:induction false} ForwardOperations(ops: seq<Operation>, offset: int, baseSize: int, size: int)
    requires WellFormed(ops, offset, baseSize, size)
    ensures forall op | op in ops :: op.start <= op.end
  {
    if ops != [] { ForwardOperations(ops[1..], offset + ops[0].Length(), baseSize, size); }
  }

  lemma {:induction false} NonNegativeBytes(ops: seq<Operation>)
    requires forall op | op in ops :: op.start <= op.end
    ensures CopyBytes(ops) >= 0 && DownloadBytes(ops) >= 0
  {
    if ops != [] { NonNegativeBytes(ops[1..]); }
  }

  // ---------------------------------------------------------------------------
  // Maximality

  ghost predicate ForwardCopies(ops: seq<Operation>) {
    forall op | op in ops && op.kind == COPY :: op.start <= op.end
  }

  /** Gaps over the limit between one download and the next, `gap` bytes of copies being open after a download. */
  function WideGaps(ops: seq<Operation>, seen: bool, gap: int): nat {
    if ops == [] then 0
    else if ops[0].kind == COPY then WideGaps(ops[1..], seen, gap + ops[0].Length())
    else (if seen && gap > 65_536 then 1 else 0) + WideGaps(ops[1..], true, 0)
  }

  /** Any two consecutive downloads are more than the limit apart. */
  ghost predicate Separated(ops: seq<Operation>, seen: bool, gap: int) {
    ops == [] ||
    if ops[0].kind == COPY then Separated(ops[1..], seen, gap + ops[0].Length())
    else (seen ==> gap > GAP_LIMIT) && Separated(ops[1..], true, 0)
  }

  /** The next download, if any, is beyond the limit. */
  ghost predicate FarDownload(ops: seq<Operation>, gap: int) {
    ops == [] ||
    if ops[0].kind == COPY then FarDownload(ops[1..], gap + ops[0].Length()) else gap > GAP_LIMIT
  }

  lemma {:induction false} WideStaysFar(ops: seq<Operation>, gap: int)
    requires ForwardCopies(ops) && gap > GAP_LIMIT
    ensures FarDownload(ops, gap)
  {
    if ops != [] && ops[0].kind == COPY { WideStaysFar(ops[1..], gap + ops[0].Length()); }
  }

  lemma {:induction false} AbsorbedStopsAtWideGap(ops: seq<Operation>, gap: int)
    requires ForwardCopies(ops) && gap <= GAP_LIMIT
    ensures var n := Absorbed(ops, gap);
            && FarDownload(ops[n..], if n == 0 then gap else 0)
            && WideGaps(ops, true, gap) == WideGaps(ops[n..], true, if n == 0 then gap else 0)
  {
    var n := Absorbed(ops, gap);
    if ops == [] {
    } else if ops[0].kind == COPY && gap + ops[0].Length() > GAP_LIMIT {
      Whole(ops);
      WideStaysFar(ops[1..], gap + ops[0].Length());
    } else {
      var gap' := if ops[0].kind == COPY then gap + ops[0].Length() else 0;
      AbsorbedStopsAtWideGap(ops[1..], gap');
      if n == 0 {
        Whole(ops);
        Whole(ops[1..]);
      } else {
        DropDrop(ops, 1, n - 1);
        if n == 1 && ops[0].kind == DOWNLOAD {
          Whole(ops[1..]);
        }
      }
    }
  }

  /** Coalescing never leaves two downloads within the limit, and keeps one request per wide gap. */
  lemma {:induction false} CoalescedIsSeparated(ops: seq<Operation>, seen: bool, gap: int)
    requires ForwardCopies(ops)
    requires seen ==> FarDownload(ops, gap)
    ensures Separated(Coalesced(ops), seen, gap)
    ensures Requests(Coalesced(ops)) == (if Requests(ops) == 0 || seen then 0 else 1) + WideGaps(ops, seen, gap)
    decreases |ops|
  {
    hide Absorbed;
    if ops != [] {
      CoalescedHeadTail(ops);
      if ops[0].kind == COPY {
        CoalescedIsSeparated(ops[1..], seen, gap + ops[0].Length());
      } else {
        AbsorbedStopsAtWideGap(ops[1..], 0);
        DropDrop(ops, 1, Absorbed(ops[1..], 0));
        CoalescedIsSeparated(Remaining(ops), true, 0);
      }
    }
  }

  /** What `Separated` says about positions in the plan. */
  lemma {:induction false} SeparatedAt(ops: seq<Operation>, seen: bool, gap: int, i: nat, j: nat)
    requires Separated(ops, seen, gap)
    requires i < j < |ops| && ops[i].kind == ops[j].kind == DOWNLOAD
    requires forall k | i < k < j :: ops[k].kind == COPY
    ensures CopyBytes(ops[i + 1..j]) > GAP_LIMIT
    decreases |ops|
  {
    if i == 0 {
      SeparatedHead(ops[1..], 0, j - 1);
      SliceOfDrop(ops, 1, 0, j - 1);
    } else {
      var open := if ops[0].kind == COPY then gap + ops[0].Length() else 0;
      SeparatedAt(ops[1..], seen || ops[0].kind == DOWNLOAD, open, i - 1, j - 1);
      SliceOfDrop(ops, 1, i, j - 1);
    }
  }

  lemma {:induction false} SeparatedHead(ops: seq<Operation>, gap: int, j: nat)
    requires Separated(ops, true, gap)
    requires j < |ops| && ops[j].kind == DOWNLOAD
    requires forall k | 0 <= k < j :: ops[k].kind == COPY
    ensures gap + CopyBytes(ops[..j]) > GAP_LIMIT
    decreases |ops|
  {
    if j > 0 {
      SeparatedHead(ops[1..], gap + ops[0].Length(), j - 1);
      TakeTail(ops, j);
    }
  }

  /** In the result, consecutive downloads are always more than 64 KiB of copies apart. */
  lemma CoalescingIsMaximal(ops: seq<Operation>, i: nat, j: nat)
    requires ForwardCopies(ops)
    requires i < j < |Coalesced(ops)|
    requires Coalesced(ops)[i].kind == Coalesced(ops)[j].kind == DOWNLOAD
    requires forall k | i < k < j :: Coalesced(ops)[k].kind == COPY
    ensures CopyBytes(Coalesced(ops)[i + 1..j]) > 65_536
  {
    CoalescedIsSeparated(ops, false, 0);
    SeparatedAt(Coalesced(ops), false, 0, i, j);
  }

  /** One request, plus one for every gap over 64 KiB in the original plan. */
  lemma CoalescedRequestCount(ops: seq<Operation>)
    requires ForwardCopies(ops)
    ensures Requests(Coalesced(ops)) == if Requests(ops) == 0 then 0 else 1 + WideGaps(ops, false, 0)
  {
    CoalescedIsSeparated(ops, false, 0);
    NoRequestsNoGaps(ops, false, 0);
  }

  lemma {:induction false} NoRequestsNoGaps(ops: seq<Operation>, seen: bool, gap: int)
    ensures Requests(ops) == 0 ==> WideGaps(ops, seen, gap) == 0
  {
    if ops != [] && ops[0].kind == COPY { NoRequestsNoGaps(ops[1..], seen, gap + ops[0].Length()); }
  }

  lemma {:induction false} SeparatedAbsorbsNothing(ops: seq<Operation>, gap: int)
    requires Separated(ops, true, gap) && gap <= GAP_LIMIT
    ensures Absorbed(ops, gap) == 0
  {
    if ops != [] && ops[0].kind == COPY && gap + ops[0].Length() <= GAP_LIMIT {
      SeparatedAbsorbsNothing(ops[1..], gap + ops[0].Length());
    }
  }

  lemma {:induction false} SeparatedIsFixed(ops: seq<Operation>, seen: bool, gap: int)
    requires Separated(ops, seen, gap)
    ensures Coalesced(ops) == ops
    decreases |ops|
  {
    if ops == [] {
    } else if ops[0].kind == COPY {
      SeparatedIsFixed(ops[1..], seen, gap + ops[0].Length());
    } else {
      SeparatedAbsorbsNothing(ops[1..], 0);
      SeparatedIsFixed(ops[1..], true, 0);
      assert ops[0].(end := ops[0].end) == ops[0];
    }
  }

  /** Coalescing a second time changes nothing. */
  lemma CoalescingIsIdempotent(ops: seq<Operation>)
    requires ForwardCopies(ops)
    ensures Coalesced(Coalesced(ops)) == Coalesced(ops)
  {
    CoalescedIsSeparated(ops, false, 0);
    SeparatedIsFixed(Coalesced(ops), false, 0);
  }
}
