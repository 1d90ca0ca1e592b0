/**
 The copy/download plan of a differential desktop update
 (electron/lib/desktop-differential.ts): what a plan means, which plans are accepted,
 and the rewriting that fetches small copy gaps instead of paying another request.

 Copies address the base artifact, downloads address the new one; `Run` gives the bytes
 a plan writes.
 */
module DifferentialPlan {
  import opened Results
  import opened Sequences

  datatype Kind = COPY | DOWNLOAD

  datatype Operation = Operation(kind: Kind, start: int, end: int) {
    function Length(): int { end - start }
  }

  // Copies of at most this many bytes between two downloads are downloaded instead.
  const GAP_LIMIT := 64 * 1024

  /** Bytes written by a plan. */
  function Total(ops: seq<Operation>): int {
    if ops == [] then 0 else ops[0].Length() + Total(ops[1..])
  }

  function CopyBytes(ops: seq<Operation>): int {
    if ops == [] then 0
    else (if ops[0].kind == COPY then ops[0].Length() else 0) + CopyBytes(ops[1..])
  }

  function DownloadBytes(ops: seq<Operation>): int {
    if ops == [] then 0
    else (if ops[0].kind == DOWNLOAD then ops[0].Length() else 0) + DownloadBytes(ops[1..])
  }

  function Requests(ops: seq<Operation>): nat {
    if ops == [] then 0
    else (if ops[0].kind == DOWNLOAD then 1 else 0) + Requests(ops[1..])
  }

  /** One operation is acceptable at output position `offset`. */
  predicate FitsAt(op: Operation, offset: int, baseSize: int, size: int) {
    && 0 <= op.start < op.end
    && match op.kind
       case COPY => op.end <= baseSize
       case DOWNLOAD => op.start == offset && op.end <= size
  }

  /** Every operation fits at the output position where it runs. */
  predicate WellFormed(ops: seq<Operation>, offset: int, baseSize: int, size: int) {
    ops == [] ||
    (&& FitsAt(ops[0], offset, baseSize, size)
     && WellFormed(ops[1..], offset + ops[0].Length(), baseSize, size))
  }

  /** The plan covers the new artifact exactly, with nothing out of range. */
  predicate Tiles(ops: seq<Operation>, baseSize: int, size: int) {
    WellFormed(ops, 0, baseSize, size) && Total(ops) == size
  }

  function Piece<T>(op: Operation, base: seq<T>, target: seq<T>): (bytes: seq<T>)
    requires FitsAt(op, op.start, |base|, |target|)
    ensures |bytes| == op.Length()
  {
    if op.kind == COPY then base[op.start..op.end] else target[op.start..op.end]
  }

  /** The bytes a plan writes when every request is answered from the new artifact `target`. */
  function Run<T>(ops: seq<Operation>, offset: int, base: seq<T>, target: seq<T>): (bytes: seq<T>)
    requires WellFormed(ops, offset, |base|, |target|)
    ensures |bytes| == Total(ops)
  {
    if ops == [] then []
    else Piece(ops[0], base, target) + Run(ops[1..], offset + ops[0].Length(), base, target)
  }

  // ---------------------------------------------------------------------------
  // Coalescing

  /** How many of the operations after a download are merged into it, `gap` bytes of copies being open. */
  function Absorbed(ops: seq<Operation>, gap: int): (n: nat)
    ensures n <= |ops|
    ensures n > 0 ==> ops[n - 1].kind == DOWNLOAD
  {
    if ops == [] then 0
    else if ops[0].kind == COPY then
      var wider := gap + ops[0].Length();
      if wider > GAP_LIMIT then 0
      else
        var rest := Absorbed(ops[1..], wider);
        if rest == 0 then 0 else rest + 1
    else Absorbed(ops[1..], 0) + 1
  }

  /** The first operation of the rewritten plan ... */
  function MergedHead(ops: seq<Operation>): (op: Operation)
    requires ops != []
    ensures op.kind == ops[0].kind && op.start == ops[0].start
  {
    if ops[0].kind == COPY then ops[0]
    else ops[0].(end := ops[Absorbed(ops[1..], 0)].end)
  }

  /** ... and the operations it does not stand for. */
  function Remaining(ops: seq<Operation>): (rest: seq<Operation>)
    requires ops != []
    ensures |rest| < |ops|
  {
    if ops[0].kind == COPY then ops[1..] else ops[Absorbed(ops[1..], 0) + 1..]
  }

  function Coalesced(ops: seq<Operation>): seq<Operation>
    decreases |ops|
  {
    if ops == [] then [] else [MergedHead(ops)] + Coalesced(Remaining(ops))
  }

  /** Index of the last operation the scan will merge, `i` being the last one merged so far. */
  ghost function LastAbsorbed(ops: seq<Operation>, i: nat, next: nat, gap: int): nat
    requires i < next <= |ops|
  {
    var rest := Absorbed(ops[next..], gap);
    if rest == 0 then i else next - 1 + rest
  }

  /** One round of the inner scan. */
  lemma ScanStep(ops: seq<Operation>, i: nat, next: nat, gap: int)
    requires i < next < |ops|
    ensures var wider := gap + ops[next].Length();
            LastAbsorbed(ops, i, next, gap) ==
            if ops[next].kind == DOWNLOAD then LastAbsorbed(ops, next, next + 1, 0)
            else if wider > GAP_LIMIT then i
            else LastAbsorbed(ops, i, next + 1, wider)
  {
    DropDrop(ops, next, 1);
  }

  lemma CoalescedUnfolds(ops: seq<Operation>)
    ensures ops == [] ==> Coalesced(ops) == []
    ensures ops != [] ==> Coalesced(ops) == [MergedHead(ops)] + Coalesced(Remaining(ops))
  {
    hide MergedHead, Remaining, Absorbed;
  }

  lemma CoalescedFrom(ops: seq<Operation>, first: nat)
    requires first < |ops|
    ensures var last := if ops[first].kind == COPY then first else LastAbsorbed(ops, first, first + 1, 0);
            && first <= last < |ops|
            && Coalesced(ops[first..]) == [ops[first].(end := ops[last].end)] + Coalesced(ops[last + 1..])
  {
    hide Coalesced, Absorbed;
    CoalescedUnfolds(ops[first..]);
    DropDrop(ops, first, 1);
    if ops[first].kind == DOWNLOAD {
      DropDrop(ops, first, Absorbed(ops[first + 1..], 0) + 1);
    }
  }

  lemma AppendKeeps(ops: seq<Operation>, result: seq<Operation>, op: Operation, first: nat, i: nat)
    requires first <= i < |ops|
    requires Coalesced(ops[first..]) == [op] + Coalesced(ops[i + 1..])
    requires result + Coalesced(ops[first..]) == Coalesced(ops)
    ensures result + [op] + Coalesced(ops[i + 1..]) == Coalesced(ops)
  {
    hide *;
    Assoc(result, [op], Coalesced(ops[i + 1..]));
  }

  /** The source's inner loop: widen the download at `first` and say which operation it now ends with. */
  method MergeFollowing(operations: seq<Operation>, first: nat) returns (operation: Operation, i: nat)
    requires first < |operations| && operations[first].kind == DOWNLOAD
    ensures first <= i < |operations| && i == LastAbsorbed(operations, first, first + 1, 0)
    ensures operation == operations[first].(end := operations[i].end)
  {
    operation, i := operations[first], first;
    var gap := 0;
    var next := i + 1;
    while next < |operations|
      invariant first <= i < next <= |operations|
      invariant operation == operations[first].(end := operations[i].end)
      invariant LastAbsorbed(operations, first, first + 1, 0) == LastAbsorbed(operations, i, next, gap)
    {
      ScanStep(operations, i, next, gap);
      if operations[next].kind == COPY {
        gap := gap + operations[next].Length();
        if gap > GAP_LIMIT { break; }
      } else {
        operation := operation.(end := operations[next].end);
        i := next;
        gap := 0;
      }
      next := next + 1;
    }
  }

  /** The source's outer loop computes `Coalesced`. */
  method CoalesceDifferentialRanges(operations: seq<Operation>) returns (result: seq<Operation>)
    ensures result == Coalesced(operations)
  {
    hide Coalesced, LastAbsorbed;
    result := [];
    Whole(operations);
    var i := 0;
    while i < |operations|
      invariant i <= |operations|
      invariant result + Coalesced(operations[i..]) == Coalesced(operations)
    {
      var operation := operations[i];
      ghost var first := i;
      if operation.kind == DOWNLOAD {
        operation, i := MergeFollowing(operations, i);
      }
      CoalescedFrom(operations, first);
      AppendKeeps(operations, result, operation, first, i);
      result := result + [operation];
      i := i + 1;
    }
    CoalescedUnfolds(operations[i..]);
  }
}
