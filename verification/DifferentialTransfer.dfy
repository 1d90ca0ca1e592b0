/**
 Accepting a differential plan and running it
 (electron/lib/desktop-differential.ts:48-89 and 156-270).

 Reads may be short, the reply body arrives in any chunks, and every read, write, request
 and clock check may fail: those choices are nondeterministic, so what is proved holds for
 each of them. In a reliable environment they do not fail, and then success is determined too.
 */
module DifferentialTransfer {
  import opened Results
  import opened Sequences
  import opened DifferentialPlan
  import Coalescing

  // ---------------------------------------------------------------------------
  // Blockmaps

  /** Parsed JSON, as far as the blockmap check looks at it. Numbers that are not safe integers are `Other`. */
  datatype Value =
    | Integer(n: int)
    | Text(s: string)
    | List(items: seq<Value>)
    | Record(fields: map<string, Value>)
    | Other

  datatype BlockMapError = Unsupported | BadStructure | BadChunk | TooLong | TooShort

  const MAX_BLOCKS := 262_144
  const MAX_CHUNK := 1024 * 1024

  function Field(v: Value, name: string): Value {
    if v.Record? && name in v.fields then v.fields[name] else Other
  }

  lemma FieldMeans(v: Value, name: string, value: Value)
    requires !value.Other?
    ensures Field(v, name) == value <==> v.Record? && name in v.fields && v.fields[name] == value
  {
  }

  predicate Base64Character(c: char) {
    'A' <= c <= 'Z' || 'a' <= c <= 'z' || '0' <= c <= '9' || c == '+' || c == '/'
  }

  predicate Checksum(v: Value) {
    v.Text? && |v.s| == 24 && forall c | c in v.s :: Base64Character(c)
  }

  predicate Chunk(sizes: seq<Value>, checksums: seq<Value>, i: nat)
    requires i < |sizes| == |checksums|
  {
    sizes[i].Integer? && 0 < sizes[i].n <= MAX_CHUNK && Checksum(checksums[i])
  }

  /** A chunk of 1 to 1,048,576 bytes with a checksum of 24 base64 characters. */
  ghost predicate ValidChunk(sizes: seq<Value>, checksums: seq<Value>, i: nat)
    requires i < |sizes| == |checksums|
  {
    && sizes[i].Integer? && 1 <= sizes[i].n <= 1_048_576
    && checksums[i].Text? && |checksums[i].s| == 24
    && forall c | c in checksums[i].s ::
         48 <= c as int <= 57 || 65 <= c as int <= 90 || 97 <= c as int <= 122 || c as int in {43, 47}
  }

  lemma ChunksAreValid(sizes: seq<Value>, checksums: seq<Value>, i: nat)
    requires i < |sizes| == |checksums|
    ensures Chunk(sizes, checksums, i) <==> ValidChunk(sizes, checksums, i)
  {
  }

  function SumOfSizes(sizes: seq<Value>, count: nat): int
    requires count <= |sizes|
  {
    if count == 0 then 0
    else SumOfSizes(sizes, count - 1) + if sizes[count - 1].Integer? then sizes[count - 1].n else 0
  }

  ghost predicate ValidFile(file: Value, size: int) {
    && file.Record?
    && Field(file, "name") == Text("file")
    && Field(file, "offset") == Integer(0)
    && Field(file, "sizes").List? && Field(file, "checksums").List?
    && var sizes, checksums := Field(file, "sizes").items, Field(file, "checksums").items;
       && 0 < |sizes| == |checksums| && |sizes| <= 262_144
       && (forall i: nat | i < |sizes| :: ValidChunk(sizes, checksums, i))
       && SumOfSizes(sizes, |sizes|) == size
  }

  /** A version 2 map of a single file whose chunks cover `size` bytes exactly. */
  ghost predicate ValidBlockMap(map': Value, size: int) {
    && Field(map', "version") == Text("2")
    && Field(map', "files").List?
    && |Field(map', "files").items| == 1
    && ValidFile(Field(map', "files").items[0], size)
  }

  lemma {:induction false} SizesGrow(sizes: seq<Value>, checksums: seq<Value>, i: nat, j: nat)
    requires i <= j <= |sizes| == |checksums|
    requires forall k: nat | k < |sizes| :: Chunk(sizes, checksums, k)
    ensures SumOfSizes(sizes, i) <= SumOfSizes(sizes, j)
  {
    if i < j {
      assert Chunk(sizes, checksums, j - 1);
      SizesGrow(sizes, checksums, i, j - 1);
    }
  }

  /** The running total never hides a bad map: exactly the valid ones are accepted. */
  method ValidateDesktopBlockMap(map': Value, size: int) returns (r: Result<Value, BlockMapError>)
    ensures r.Ok? <==> ValidBlockMap(map', size)
    ensures r.Ok? ==> r.value == map'
  {
    if Field(map', "version") != Text("2") || !Field(map', "files").List? || |Field(map', "files").items| != 1 {
      return Err(Unsupported);
    }
    var file := Field(map', "files").items[0];
    if || !file.Record? || Field(file, "name") != Text("file") || Field(file, "offset") != Integer(0)
       || !Field(file, "sizes").List? || !Field(file, "checksums").List?
    {
      return Err(BadStructure);
    }
    var sizes, checksums := Field(file, "sizes").items, Field(file, "checksums").items;
    forall i: nat | i < |sizes| == |checksums|
      ensures Chunk(sizes, checksums, i) <==> ValidChunk(sizes, checksums, i)
    {
      ChunksAreValid(sizes, checksums, i);
    }
    hide Chunk, ValidChunk;
    if |sizes| == 0 || |sizes| > MAX_BLOCKS || |sizes| != |checksums| {
      return Err(BadStructure);
    }
    var total := 0;
    for i := 0 to |sizes|
      invariant total == SumOfSizes(sizes, i)
      invariant forall k: nat | k < i :: Chunk(sizes, checksums, k)
    {
      if !Chunk(sizes, checksums, i) {
        return Err(BadChunk);
      }
      total := total + sizes[i].n;
      if total > size {
        if forall k: nat | k < |sizes| :: Chunk(sizes, checksums, k) {
          SizesGrow(sizes, checksums, i + 1, |sizes|);
        }
        return Err(TooLong);
      }
    }
    if total != size {
      return Err(TooShort);
    }
    return Ok(map');
  }

  // ---------------------------------------------------------------------------
  // The plan check

  datatype PlanError = InvalidOperation | InvalidDownloadRange | InvalidCopyRange | IncompletePlan
  datatype PlanTotals = PlanTotals(downloadSize: int, requests: nat)

  const MAX_REQUESTS := 256

  /** Exactly the plans that tile the new artifact pass, with their download accounted for. */
  method CheckPlan(operations: seq<Operation>, baseSize: int, size: int) returns (r: Result<PlanTotals, PlanError>)
    ensures r.Ok? <==> Tiles(operations, baseSize, size)
    ensures r.Ok? ==> r.value == PlanTotals(DownloadBytes(operations), Requests(operations))
  {
    var outputOffset, downloadSize, requests := 0, 0, 0;
    Whole(operations);
    for i := 0 to |operations|
      invariant WellFormed(operations, 0, baseSize, size) == WellFormed(operations[i..], outputOffset, baseSize, size)
      invariant Total(operations) == outputOffset + Total(operations[i..])
      invariant DownloadBytes(operations) == downloadSize + DownloadBytes(operations[i..])
      invariant Requests(operations) == requests + Requests(operations[i..])
    {
      var operation := operations[i];
      DropDrop(operations, i, 1);
      if operation.start < 0 || operation.end <= operation.start {
        return Err(InvalidOperation);
      }
      if operation.kind == DOWNLOAD {
        if operation.start != outputOffset || operation.end > size {
          return Err(InvalidDownloadRange);
        }
        downloadSize := downloadSize + operation.Length();
        requests := requests + 1;
      } else if operation.end > baseSize {
        return Err(InvalidCopyRange);
      }
      outputOffset := outputOffset + operation.Length();
    }
    if outputOffset != size {
      return Err(IncompletePlan);
    }
    return Ok(PlanTotals(downloadSize, requests));
  }

  /**
   Operation `k` names at least one byte: of the base if it copies, and otherwise of the new artifact
   from where the output stands after the operations before it.
   */
  ghost predicate FitsInPlace(ops: seq<Operation>, k: nat, offset: int, baseSize: int, size: int)
    requires k < |ops|
  {
    && 0 <= ops[k].start < ops[k].end
    && (ops[k].kind == COPY ==> ops[k].end <= baseSize)
    && (ops[k].kind == DOWNLOAD ==> ops[k].start == offset + Total(ops[..k]) && ops[k].end <= size)
  }

  /** The same said position by position: each operation fits where the output stands when it runs. */
  lemma TilesByPosition(ops: seq<Operation>, baseSize: int, size: int)
    ensures Tiles(ops, baseSize, size) <==>
      Total(ops) == size && forall k: nat | k < |ops| :: FitsInPlace(ops, k, 0, baseSize, size)
  {
    WellFormedByPosition(ops, 0, baseSize, size);
  }

  lemma FirstInPlace(ops: seq<Operation>, k: nat, offset: int, baseSize: int, size: int)
    requires k < |ops|
    ensures FitsInPlace(ops, 0, offset, baseSize, size) == FitsAt(ops[0], offset, baseSize, size)
    ensures k > 0 ==>
      FitsInPlace(ops, k, offset, baseSize, size)
      == FitsInPlace(ops[1..], k - 1, offset + ops[0].Length(), baseSize, size)
  {
    assert Total(ops[..0]) == 0;
    if k > 0 { TakeTail(ops, k); }
  }

  lemma {:induction false} WellFormedByPosition(ops: seq<Operation>, offset: int, baseSize: int, size: int)
    ensures WellFormed(ops, offset, baseSize, size) <==>
      forall k: nat | k < |ops| :: FitsInPlace(ops, k, offset, baseSize, size)
  {
    if ops != [] {
      hide FitsAt, FitsInPlace;
      var next := offset + ops[0].Length();
      WellFormedByPosition(ops[1..], next, baseSize, size);
      FirstInPlace(ops, 0, offset, baseSize, size);
      if forall k: nat | k < |ops| :: FitsInPlace(ops, k, offset, baseSize, size) {
        forall k: nat | k < |ops| - 1
          ensures FitsInPlace(ops[1..], k, next, baseSize, size)
        {
          FirstInPlace(ops, k + 1, offset, baseSize, size);
        }
      }
      if WellFormed(ops, offset, baseSize, size) {
        forall k: nat | k < |ops|
          ensures FitsInPlace(ops, k, offset, baseSize, size)
        {
          FirstInPlace(ops, k, offset, baseSize, size);
        }
      }
    }
  }

  /** At most 256 requests, and less than nine tenths of the package transferred, blockmaps included. */
  predicate Worthwhile(totals: PlanTotals, overhead: int, size: int) {
    totals.requests <= MAX_REQUESTS && 10 * (totals.downloadSize + overhead) < 9 * size
  }

  // ---------------------------------------------------------------------------
  // Replies

  datatype Header = Absent | Number(n: int) | Malformed
  datatype ContentRange = NoRange | Range(first: int, last: int, total: int)

  /** What the server would answer to a request; `NoReply` when the request itself fails. */
  datatype Reply =
    | NoReply
    | Reply(status: int, contentRange: ContentRange, contentLength: Header, identityEncoding: bool,
            chunks: seq<seq<Byte>>)

  /** The reply is the exact byte range asked for (section 14.4 of RFC 9110: the last position is inclusive). */
  predicate ExactRange(reply: Reply, op: Operation, size: int) {
    && reply.Reply?
    && reply.status == 206
    && reply.contentRange == Range(op.start, op.end - 1, size)
    && (reply.contentLength.Absent? || reply.contentLength == Number(op.Length()))
    && reply.identityEncoding
  }

  ghost predicate InRange(range: ContentRange, position: int) {
    range.Range? && range.first <= position <= range.last
  }

  /** The reply's range holds exactly the positions the operation downloads, out of the whole artifact. */
  ghost predicate NamesPositions(reply: Reply, op: Operation, size: int) {
    && reply.Reply? && reply.status == 206
    && reply.contentRange.Range? && reply.contentRange.total == size
    && (forall p :: InRange(reply.contentRange, p) <==> op.start <= p < op.end)
    && (reply.contentLength == Absent || reply.contentLength == Number(op.end - op.start))
    && reply.identityEncoding
  }

  lemma ExactRangeMeans(reply: Reply, op: Operation, size: int)
    requires op.start < op.end
    ensures ExactRange(reply, op, size) <==> NamesPositions(reply, op, size)
  {
    if NamesPositions(reply, op, size) {
      var r := reply.contentRange;
      assert InRange(r, op.start) && InRange(r, op.end - 1);
      assert !InRange(r, op.start - 1) && !InRange(r, op.end);
    }
  }

  /** The first `count` chunks of a body, joined. */
  ghost function Joined(chunks: seq<seq<Byte>>, count: nat): (bytes: seq<Byte>)
    requires count <= |chunks|
  {
    if count == 0 then [] else Joined(chunks, count - 1) + chunks[count - 1]
  }

  ghost function Body(reply: Reply): seq<Byte> {
    if reply.Reply? then Joined(reply.chunks, |reply.chunks|) else []
  }

  function Clip(k: int, length: nat): nat {
    if k < 0 then 0 else if k > length then length else k
  }

  /** What one operation contributes: the part of the base that exists, or the body of its reply. */
  ghost function Source(op: Operation, base: seq<Byte>, reply: Reply): seq<Byte>
    requires op.start <= op.end
  {
    if op.kind == COPY then base[Clip(op.start, |base|)..Clip(op.end, |base|)] else Body(reply)
  }

  ghost predicate Ordered(ops: seq<Operation>) {
    forall op | op in ops :: op.start <= op.end
  }

  /** What the first `count` operations contribute, reply `k` answering operation `k`. */
  ghost function Stream(ops: seq<Operation>, base: seq<Byte>, replies: seq<Reply>, count: nat): seq<Byte>
    requires count <= |ops| == |replies| && Ordered(ops)
  {
    if count == 0 then []
    else Stream(ops, base, replies, count - 1) + Source(ops[count - 1], base, replies[count - 1])
  }

  // ---------------------------------------------------------------------------
  // The transfer

  datatype TransferError =
    | Aborted | BaseTruncated | ReadFailed | WriteFailed | RequestFailed | InexactRange | RangeExceeded
    | ResponseTruncated | SyncFailed

  ghost predicate Rising(fractions: seq<real>) {
    && (forall i | 0 <= i < |fractions| :: 0.0 <= fractions[i] <= 1.0)
    && (forall i, j | 0 <= i < j < |fractions| :: fractions[i] <= fractions[j])
  }

  function Fraction(done: int, whole: int): real
    requires 0 <= done <= whole
  {
    if whole == 0 then 0.0 else done as real / whole as real
  }

  lemma FractionRises(a: int, b: int, whole: int)
    requires 0 <= a <= b <= whole
    ensures 0.0 <= Fraction(a, whole) <= Fraction(b, whole) <= 1.0
  {
    if whole != 0 {
      var w := whole as real;
      DividesInOrder(0.0, a as real, w);
      DividesInOrder(a as real, b as real, w);
      DividesInOrder(b as real, w, w);
    }
  }

  lemma FractionOf(done: int, whole: int)
    requires 0 <= done <= whole
    ensures Fraction(done, whole) * whole as real == done as real
  {
  }

  lemma DividesInOrder(a: real, b: real, w: real)
    requires a <= b && 0.0 < w
    ensures a / w <= b / w
  {
  }

  class Transfer {
    // Bytes written to the target file, in order.
    var target: seq<Byte>
    var downloadedBytes: int
    // Every fraction handed to onProgress.
    var fractions: seq<real>
    const downloadSize: int
    const reusedBytes: int
    const reliable: bool

    constructor (downloadSize: int, size: int, reliable: bool)
      ensures this.reliable == reliable
      ensures target == [] && downloadedBytes == 0 && fractions == []
      ensures this.downloadSize == downloadSize && this.downloadSize + reusedBytes == size
    {
      target, downloadedBytes, fractions := [], 0, [];
      this.downloadSize := downloadSize;
      reusedBytes := size - downloadSize;
      this.reliable := reliable;
    }

    /** Progress so far is in order and ends with the current byte count. */
    ghost predicate Valid()
      reads this
    {
      && 0 <= downloadedBytes <= downloadSize
      && Rising(fractions)
      && (fractions != [] ==> fractions[|fractions| - 1] == Fraction(downloadedBytes, downloadSize))
    }

    method Report(more: int)
      requires Valid() && 0 <= more && downloadedBytes + more <= downloadSize
      modifies this`fractions, this`downloadedBytes
      ensures Valid() && downloadedBytes == old(downloadedBytes) + more
      ensures fractions != [] && |fractions| > |old(fractions)|
      // The last fraction is the part of the download that is done.
      ensures fractions[|fractions| - 1] * downloadSize as real == downloadedBytes as real
    {
      hide Fraction;
      FractionRises(downloadedBytes, downloadedBytes + more, downloadSize);
      FractionOf(downloadedBytes + more, downloadSize);
      downloadedBytes := downloadedBytes + more;
      fractions := fractions + [Fraction(downloadedBytes, downloadSize)];
    }

    /** A write may stop part of the way. */
    method Write(bytes: seq<Byte>) returns (ok: bool)
      modifies this`target
      ensures ok ==> target == old(target) + bytes
      ensures reliable ==> ok
      ensures old(target) <= target <= old(target) + bytes
    {
      var fails := Fault(reliable);
      ok := !fails;
      var written := |bytes|;
      if !ok {
        written :| 0 <= written <= |bytes|;
      }
      target := target + bytes[..written];
    }

    /** `source.read`: any number of bytes up to the end of the file; none before it only as a fault. */
    method ShortRead(wanted: int, left: int) returns (bytesRead: int)
      requires 0 < wanted
      ensures 0 <= bytesRead <= wanted && (bytesRead == 0 || bytesRead <= left)
      ensures reliable && 0 < left ==> 0 < bytesRead
    {
      var fails := Fault(reliable);
      if fails || left <= 0 { return 0; }
      var most := if left < wanted then left else wanted;
      bytesRead :| 0 < bytesRead <= most;
    }

    /** One round of the copy: a short read, written out. `before` is the target when the copy began. */
    method CopySome(op: Operation, base: seq<Byte>, position: int, ghost before: seq<Byte>)
      returns (outcome: Option<TransferError>, next: int)
      requires Valid() && op.kind == COPY && 0 <= op.start <= position < op.end
      requires position - op.start <= |Source(op, base, NoReply)|
      requires target == before + Source(op, base, NoReply)[..position - op.start]
      modifies this`target
      ensures Valid() && before <= target <= before + Source(op, base, NoReply)
      ensures outcome.None? ==>
        && position < next <= op.end && next <= |base| && next - op.start <= |Source(op, base, NoReply)|
        && target == before + Source(op, base, NoReply)[..next - op.start]
      ensures reliable && op.end <= |base| ==> outcome.None?
    {
      hide Source, Fraction, Rising;
      ghost var whole, done := Source(op, base, NoReply), position - op.start;
      SliceBounds(before, whole, done, done, target);
      next := position;
      var aborted := Fault(reliable);
      if aborted { return Some(Aborted), next; }
      var failed := Fault(reliable);
      if failed { return Some(ReadFailed), next; }
      var wanted := if op.end - position < MAX_CHUNK then op.end - position else MAX_CHUNK;
      var bytesRead := ShortRead(wanted, |base| - position);
      if bytesRead == 0 { return Some(BaseTruncated), next; }
      var ok := Write(base[position..position + bytesRead]);
      SameSlice(op, base, position, bytesRead);
      SliceBounds(before, whole, done, done + bytesRead, target);
      if !ok { return Some(WriteFailed), next; }
      return None, position + bytesRead;
    }

    /** Copies one range of the base file through short reads. */
    method CopyRange(op: Operation, base: seq<Byte>) returns (outcome: Option<TransferError>)
      requires Valid() && 0 <= op.start <= op.end && op.kind == COPY
      modifies this`target
      ensures Valid()
      ensures old(target) <= target <= old(target) + Source(op, base, NoReply)
      ensures outcome.None? ==> target == old(target) + Source(op, base, NoReply)
      ensures outcome.None? ==> op.start == op.end || op.end <= |base|
      ensures reliable && op.end <= |base| ==> outcome.None?
    {
      ghost var before, whole := target, Source(op, base, NoReply);
      var position := op.start;
      CopiedInFull(op, base, op.start, before);
      hide Source, Fraction, Rising;
      while position < op.end
        invariant Valid() && op.start <= position <= op.end && (position == op.start || position <= |base|)
        invariant position - op.start <= |whole| && target == before + whole[..position - op.start]
      {
        var next;
        outcome, next := CopySome(op, base, position, before);
        if outcome.Some? { return; }
        position := next;
      }
      CopiedInFull(op, base, position, before);
      return None;
    }

    /** Fetches one range of the new artifact, whatever chunks it arrives in. */
    method FetchRange(op: Operation, size: int, reply: Reply) returns (outcome: Option<TransferError>)
      requires Valid() && op.start <= op.end && op.kind == DOWNLOAD
      requires downloadedBytes + op.Length() <= downloadSize
      modifies this
      ensures Valid() && |fractions| >= |old(fractions)|
      ensures old(target) <= target <= old(target) + Body(reply)
      ensures outcome.None? ==>
        && ExactRange(reply, op, size)
        && |Body(reply)| == op.Length()
        && target == old(target) + Body(reply)
        && downloadedBytes == old(downloadedBytes) + op.Length()
      ensures reliable && ExactRange(reply, op, size) && |Body(reply)| == op.Length() ==> outcome.None?
      ensures outcome.None? && op.start < op.end ==> NamesPositions(reply, op, size)
      ensures reliable && op.start < op.end && NamesPositions(reply, op, size) && |Body(reply)| == op.end - op.start ==>
        outcome.None?
    {
      if op.start < op.end { ExactRangeMeans(reply, op, size); }
      hide ExactRange, NamesPositions;
      var aborted := Fault(reliable);
      if aborted { return Some(Aborted); }
      if reply.NoReply? { return Some(RequestFailed); }
      if !ExactRange(reply, op, size) { return Some(InexactRange); }
      outcome := ReceiveBody(op, reply);
    }

    /** Reads a reply's body chunk by chunk, never past the requested length. */
    method ReceiveBody(op: Operation, reply: Reply) returns (outcome: Option<TransferError>)
      requires Valid() && op.start <= op.end && reply.Reply?
      requires downloadedBytes + op.Length() <= downloadSize
      modifies this
      ensures Valid() && |fractions| >= |old(fractions)|
      ensures old(target) <= target <= old(target) + Body(reply)
      ensures outcome.None? ==>
        && |Body(reply)| == op.Length()
        && target == old(target) + Body(reply)
        && downloadedBytes == old(downloadedBytes) + op.Length()
      ensures reliable && |Body(reply)| == op.Length() ==> outcome.None?
    {
      hide Joined, Body, ExactRange;
      NoChunkYet(old(target), reply);
      var received := 0;
      var next := 0;
      while next < |reply.chunks|
        invariant 0 <= next <= |reply.chunks| && Valid() && |fractions| >= |old(fractions)|
        invariant received == |Joined(reply.chunks, next)| <= op.Length()
        invariant target == old(target) + Joined(reply.chunks, next)
        invariant downloadedBytes == old(downloadedBytes) + received
      {
        ChunkWritten(old(target), reply, next, target);
        var failed := Fault(reliable);
        if failed { return Some(ReadFailed); }
        var value := reply.chunks[next];
        received := received + |value|;
        if received > op.Length() { return Some(RangeExceeded); }
        var ok := Write(value);
        ChunkWritten(old(target), reply, next, target);
        if !ok { return Some(WriteFailed); }
        Report(|value|);
        next := next + 1;
      }
      var failed := Fault(reliable);
      if failed { return Some(ReadFailed); }
      if received != op.Length() { return Some(ResponseTruncated); }
      return None;
    }
  }

  /** The operation was carried out in full. */
  ghost predicate Completed(op: Operation, base: seq<Byte>, size: int, reply: Reply) {
    match op.kind
    case COPY => op.end <= |base|
    case DOWNLOAD => ExactRange(reply, op, size) && |Body(reply)| == op.Length()
  }

  ghost predicate AllCompleted(ops: seq<Operation>, base: seq<Byte>, size: int, replies: seq<Reply>)
    requires |ops| == |replies|
  {
    forall k | 0 <= k < |ops| :: Completed(ops[k], base, size, replies[k])
  }

  /** The first `done` operations are complete and the target holds their bytes and part of the next ones. */
  ghost predicate StoppedAt(
      ops: seq<Operation>, base: seq<Byte>, size: int, replies: seq<Reply>, done: nat, target: seq<Byte>)
    requires |ops| == |replies| && Ordered(ops)
  {
    && done <= |ops|
    && (forall k | 0 <= k < done :: Completed(ops[k], base, size, replies[k]))
    && Stream(ops, base, replies, done) <= target
    && target <= Stream(ops, base, replies, if done < |ops| then done + 1 else done)
  }

  /** Runs an accepted plan. */
  method Execute(t: Transfer, ops: seq<Operation>, baseSize: int, size: int, base: seq<Byte>, replies: seq<Reply>)
    returns (outcome: Option<TransferError>, ghost done: nat)
    requires Tiles(ops, baseSize, size) && |replies| == |ops| && Ordered(ops)
    requires t.Valid() && t.target == [] && t.downloadedBytes == 0 && t.fractions == []
    requires t.downloadSize == DownloadBytes(ops)
    modifies t
    ensures StoppedAt(ops, base, size, replies, done, t.target)
    ensures Rising(t.fractions) && 0 <= t.downloadedBytes <= t.downloadSize
    ensures outcome.None? ==>
      && done == |ops| && t.target == Stream(ops, base, replies, |ops|) && |t.target| == size
      && t.downloadedBytes == t.downloadSize
      && t.fractions != [] && t.fractions[|t.fractions| - 1] == 1.0
    // Nothing but an operation that cannot be completed stops a reliable transfer.
    ensures outcome.None? ==> AllCompleted(ops, base, size, replies)
    ensures t.reliable && outcome.Some? ==> done < |ops| && !Completed(ops[done], base, size, replies[done])
  {
    hide Stream, Total, DownloadBytes, Source, Completed;
    done := 0;
    NothingStreamed(ops, base, replies);
    Coalescing.ForwardOperations(ops, 0, baseSize, size);
    Coalescing.NonNegativeBytes(ops);
    t.Report(0);
    for i := 0 to |ops|
      invariant done == i && t.Valid() && t.fractions != []
      invariant t.target == Stream(ops, base, replies, i)
      invariant t.downloadedBytes == DownloadBytes(ops[..i])
      invariant forall k | 0 <= k < i :: 0 <= ops[k].start && Completed(ops[k], base, size, replies[k])
    {
      OperationInPlan(ops, i, 0, baseSize, size);
      SourceOfCopy(ops[i], base, replies[i]);
      if ops[i].kind == COPY {
        outcome := t.CopyRange(ops[i], base);
      } else {
        outcome := t.FetchRange(ops[i], size, replies[i]);
      }
      StreamSnoc(ops, base, replies, i);
      if outcome.Some? {
        NotCompleted(ops[i], base, size, replies[i], t.reliable);
        return;
      }
      CompletedHere(ops[i], base, size, replies[i]);
      done := i + 1;
    }
    StreamLength(ops, base, size, replies, |ops|);
    Whole(ops);
    t.fractions := t.fractions + [1.0];
    var unsynced := Fault(t.reliable);
    outcome := if unsynced then Some(SyncFailed) else None;
  }

  lemma NotCompleted(op: Operation, base: seq<Byte>, size: int, reply: Reply, reliable: bool)
    requires reliable ==> !(if op.kind == COPY then op.end <= |base|
                            else ExactRange(reply, op, size) && |Body(reply)| == op.Length())
    ensures reliable ==> !Completed(op, base, size, reply)
  {
  }

  /** Every operation of an accepted plan is in range and leaves room for its download. */
  lemma {:induction false} OperationInPlan(ops: seq<Operation>, i: nat, offset: int, baseSize: int, size: int)
    requires WellFormed(ops, offset, baseSize, size) && i < |ops|
    ensures FitsAt(ops[i], offset + Total(ops[..i]), baseSize, size)
    ensures DownloadBytes(ops[..i + 1]) == DownloadBytes(ops[..i]) + if ops[i].kind == DOWNLOAD then ops[i].Length() else 0
    ensures 0 <= DownloadBytes(ops[..i]) <= DownloadBytes(ops[..i + 1]) <= DownloadBytes(ops)
  {
    if i == 0 {
      Coalescing.ForwardOperations(ops[1..], offset + ops[0].Length(), baseSize, size);
      Coalescing.NonNegativeBytes(ops[1..]);
      assert ops[..1] == [ops[0]];
    } else {
      OperationInPlan(ops[1..], i - 1, offset + ops[0].Length(), baseSize, size);
      TakeTail(ops, i);
      TakeTail(ops, i + 1);
    }
  }

  lemma {:induction false} StreamLength(ops: seq<Operation>, base: seq<Byte>, size: int, replies: seq<Reply>, count: nat)
    requires count <= |ops| == |replies| && Ordered(ops)
    requires forall k | 0 <= k < count :: 0 <= ops[k].start && Completed(ops[k], base, size, replies[k])
    ensures |Stream(ops, base, replies, count)| == Total(ops[..count])
  {
    hide Stream, Total, Completed, Source, Body;
    if count == 0 {
      NothingStreamed(ops, base, replies);
    } else {
      StreamLength(ops, base, size, replies, count - 1);
      assert ops[count - 1] in ops;
      SourceLength(ops[count - 1], base, size, replies[count - 1]);
      TotalSnoc(ops, count - 1);
      StreamSnoc(ops, base, replies, count - 1);
    }
  }

  lemma SourceLength(op: Operation, base: seq<Byte>, size: int, reply: Reply)
    requires 0 <= op.start <= op.end && Completed(op, base, size, reply)
    ensures |Source(op, base, reply)| == op.Length()
  {
  }

  lemma SourceOfCopy(op: Operation, base: seq<Byte>, reply: Reply)
    requires op.start <= op.end
    ensures Source(op, base, reply) == if op.kind == COPY then Source(op, base, NoReply) else Body(reply)
  {
  }

  lemma CompletedHere(op: Operation, base: seq<Byte>, size: int, reply: Reply)
    requires if op.kind == COPY then op.end <= |base|
             else ExactRange(reply, op, size) && |Body(reply)| == op.Length()
    ensures Completed(op, base, size, reply)
  {
  }

  lemma NothingStreamed(ops: seq<Operation>, base: seq<Byte>, replies: seq<Reply>)
    requires |ops| == |replies| && Ordered(ops)
    ensures Stream(ops, base, replies, 0) == []
    ensures Total(ops[..0]) == DownloadBytes(ops[..0]) == 0
  {
  }

  lemma StreamSnoc(ops: seq<Operation>, base: seq<Byte>, replies: seq<Reply>, i: nat)
    requires i < |ops| == |replies| && Ordered(ops)
    ensures Stream(ops, base, replies, i + 1)
         == Stream(ops, base, replies, i) + Source(ops[i], base, replies[i])
  {
  }

  lemma {:induction false} TotalSnoc(ops: seq<Operation>, i: nat)
    requires i < |ops|
    ensures Total(ops[..i + 1]) == Total(ops[..i]) + ops[i].Length()
  {
    if i == 0 {
      assert ops[..1] == [ops[0]];
    } else {
      TotalSnoc(ops[1..], i - 1);
      TakeTail(ops, i);
      TakeTail(ops, i + 1);
    }
  }

  lemma CopiedInFull(op: Operation, base: seq<Byte>, position: int, before: seq<Byte>)
    requires op.kind == COPY && 0 <= op.start <= position <= op.end
    requires position - op.start <= |Source(op, base, NoReply)| && (position == op.start || position <= |base|)
    ensures before + Source(op, base, NoReply)[..0] == before
    ensures position == op.end ==> Source(op, base, NoReply)[..position - op.start] == Source(op, base, NoReply)
  {
  }

  /** Reading at `position` continues the copied range. */
  lemma SameSlice(op: Operation, base: seq<Byte>, position: int, count: int)
    requires op.kind == COPY && 0 <= op.start <= position && 0 < count
    requires position + count <= op.end && position + count <= |base|
    ensures var whole := Source(op, base, NoReply);
            && position + count - op.start <= |whole|
            && base[position..position + count] == whole[position - op.start..position + count - op.start]
  {
    SliceOfSlice(base, op.start, Clip(op.end, |base|), position - op.start, position + count - op.start);
  }

  /** Appending part of the slice `whole[i..j]` after `whole[..i]` stays within `whole`. */
  lemma SliceBounds<T>(a: seq<T>, whole: seq<T>, i: nat, j: nat, t: seq<T>)
    requires i <= j <= |whole|
    requires a + whole[..i] <= t <= a + whole[..i] + whole[i..j]
    ensures a <= t <= a + whole
    ensures t == a + whole[..i] + whole[i..j] ==> t == a + whole[..j]
  {
    assert whole == whole[..i] + whole[i..j] + whole[j..];
    assert a + whole == (a + whole[..i] + whole[i..j]) + whole[j..];
  }

  lemma NoChunkYet(before: seq<Byte>, reply: Reply)
    requires reply.Reply?
    ensures before + Joined(reply.chunks, 0) == before <= before + Body(reply)
    ensures |Joined(reply.chunks, 0)| == 0
    ensures Joined(reply.chunks, |reply.chunks|) == Body(reply)
  {
  }

  /** Writing some of chunk `next` after the earlier ones stays within the body. */
  lemma ChunkWritten(before: seq<Byte>, reply: Reply, next: nat, t: seq<Byte>)
    requires reply.Reply? && next < |reply.chunks|
    requires before + Joined(reply.chunks, next) <= t <= before + Joined(reply.chunks, next) + reply.chunks[next]
    ensures before <= t <= before + Body(reply)
    ensures t == before + Joined(reply.chunks, next) + reply.chunks[next] ==> t == before + Joined(reply.chunks, next + 1)
    ensures |Joined(reply.chunks, next + 1)| == |Joined(reply.chunks, next)| + |reply.chunks[next]| <= |Body(reply)|
  {
    JoinedIsPrefix(reply.chunks, next + 1, |reply.chunks|);
    var done := Joined(reply.chunks, next);
    Assoc(before, done, reply.chunks[next]);
    var body := Joined(reply.chunks, |reply.chunks|);
    assert Joined(reply.chunks, next + 1) == done + reply.chunks[next];
    hide Joined;
    var rest := body[|done + reply.chunks[next]|..];
    assert body == (done + reply.chunks[next]) + rest;
    Assoc(before, done + reply.chunks[next], rest);
  }

  lemma {:induction false} JoinedIsPrefix(chunks: seq<seq<Byte>>, i: nat, j: nat)
    requires i <= j <= |chunks|
    ensures Joined(chunks, i) <= Joined(chunks, j)
  {
    if i < j { JoinedIsPrefix(chunks, i, j - 1); }
  }

  // ---------------------------------------------------------------------------
  // What an honest server makes of it

  /** The body holds bytes the new artifact has in that range, perhaps not all of them. */
  ghost predicate Honest(op: Operation, reply: Reply, artifact: seq<Byte>) {
    op.kind == DOWNLOAD && 0 <= op.start <= op.end <= |artifact| ==> Body(reply) <= artifact[op.start..op.end]
  }

  lemma CompletedIsPiece(op: Operation, base: seq<Byte>, artifact: seq<Byte>, reply: Reply)
    requires FitsAt(op, op.start, |base|, |artifact|) && Honest(op, reply, artifact)
    ensures Source(op, base, reply) <= Piece(op, base, artifact)
    ensures Completed(op, base, |artifact|, reply) ==> Source(op, base, reply) == Piece(op, base, artifact)
  {
  }

  /** What has been streamed, followed by what the rest of the plan means, is what the plan means. */
  lemma {:induction false} StreamThenRun(
      ops: seq<Operation>, base: seq<Byte>, artifact: seq<Byte>, replies: seq<Reply>, i: nat)
    requires WellFormed(ops, 0, |base|, |artifact|) && |replies| == |ops| && Ordered(ops) && i <= |ops|
    requires forall k | 0 <= k < i :: Completed(ops[k], base, |artifact|, replies[k])
    requires forall k | 0 <= k < i :: Honest(ops[k], replies[k], artifact)
    ensures WellFormed(ops[i..], Total(ops[..i]), |base|, |artifact|)
    ensures Stream(ops, base, replies, i) + Run(ops[i..], Total(ops[..i]), base, artifact) == Run(ops, 0, base, artifact)
  {
    hide Run, WellFormed, Stream, Total, Source, Honest, Completed;
    NothingStreamed(ops, base, replies);
    Coalescing.PlanSplits(ops, i, 0, |base|, |artifact|);
    if i == 0 {
      Whole(ops);
    } else {
      StreamThenRun(ops, base, artifact, replies, i - 1);
      NextPiece(ops, base, artifact, replies, i - 1);
      var rest := Run(ops[i..], Total(ops[..i]), base, artifact);
      Assoc(Stream(ops, base, replies, i - 1), Source(ops[i - 1], base, replies[i - 1]), rest);
    }
  }

  lemma NextPiece(ops: seq<Operation>, base: seq<Byte>, artifact: seq<Byte>, replies: seq<Reply>, i: nat)
    requires |replies| == |ops| && Ordered(ops) && i < |ops|
    requires WellFormed(ops[i..], Total(ops[..i]), |base|, |artifact|)
    requires WellFormed(ops[i + 1..], Total(ops[..i + 1]), |base|, |artifact|)
    requires Completed(ops[i], base, |artifact|, replies[i]) && Honest(ops[i], replies[i], artifact)
    ensures Run(ops[i..], Total(ops[..i]), base, artifact)
         == Source(ops[i], base, replies[i]) + Run(ops[i + 1..], Total(ops[..i + 1]), base, artifact)
    ensures Stream(ops, base, replies, i + 1) == Stream(ops, base, replies, i) + Source(ops[i], base, replies[i])
  {
    CompletedIsPiece(ops[i], base, artifact, replies[i]);
    TotalSnoc(ops, i);
    DropDrop(ops, i, 1);
  }

  /** Wherever the transfer stops, the target is a prefix of the plan's output; at the end it is all of it. */
  lemma StoppedTransferIsPrefix(ops: seq<Operation>, base: seq<Byte>, artifact: seq<Byte>, replies: seq<Reply>,
                                done: nat, target: seq<Byte>)
    requires WellFormed(ops, 0, |base|, |artifact|) && |replies| == |ops| && Ordered(ops)
    requires StoppedAt(ops, base, |artifact|, replies, done, target)
    requires forall k | 0 <= k < |ops| :: Honest(ops[k], replies[k], artifact)
    ensures target <= Run(ops, 0, base, artifact)
    ensures done == |ops| ==> target == Run(ops, 0, base, artifact)
  {
    StreamThenRun(ops, base, artifact, replies, done);
    if done == |ops| {
      Whole(ops);
    } else {
      LastPieceIsPrefix(ops, base, artifact, replies, done);
    }
  }

  lemma LastPieceIsPrefix(ops: seq<Operation>, base: seq<Byte>, artifact: seq<Byte>, replies: seq<Reply>, i: nat)
    requires |replies| == |ops| && Ordered(ops) && i < |ops|
    requires WellFormed(ops[i..], Total(ops[..i]), |base|, |artifact|)
    requires Honest(ops[i], replies[i], artifact)
    ensures Stream(ops, base, replies, i + 1)
         <= Stream(ops, base, replies, i) + Run(ops[i..], Total(ops[..i]), base, artifact)
  {
    CompletedIsPiece(ops[i], base, artifact, replies[i]);
    DropDrop(ops, i, 1);
    var piece := Piece(ops[i], base, artifact);
    var rest := Run(ops[i + 1..], Total(ops[..i]) + ops[i].Length(), base, artifact);
    assert Run(ops[i..], Total(ops[..i]), base, artifact) == piece + rest;
    var source := Source(ops[i], base, replies[i]);
    hide *;
    StreamSnoc(ops, base, replies, i);
    PrefixThenMore(Stream(ops, base, replies, i), source, piece, rest);
  }

  lemma PrefixThenMore<T>(a: seq<T>, source: seq<T>, piece: seq<T>, rest: seq<T>)
    requires source <= piece
    ensures a + source <= a + (piece + rest)
  {
    assert piece == source + piece[|source|..];
    assert a + (piece + rest) == (a + source) + (piece[|source|..] + rest);
  }

  /** The reused bytes reported to the user are the bytes the plan copies. */
  lemma ReusedBytesAreCopies(ops: seq<Operation>, baseSize: int, size: int)
    requires Tiles(ops, baseSize, size)
    ensures size - DownloadBytes(ops) == CopyBytes(ops) >= 0
  {
    Coalescing.CopiesPlusDownloads(ops);
    Coalescing.ForwardOperations(ops, 0, baseSize, size);
    Coalescing.NonNegativeBytes(ops);
  }

  /**
   Rewriting, checking and running together: if the upstream plan rebuilds the artifact, its
   rewritten form is accepted, and a completed transfer from an honest server wrote the artifact.
   */
  lemma CoalescedTransferRebuilds(ops: seq<Operation>, base: seq<Byte>, artifact: seq<Byte>,
                                  replies: seq<Reply>, done: nat, target: seq<Byte>)
    requires WellFormed(ops, 0, |base|, |artifact|) && Run(ops, 0, base, artifact) == artifact
    requires |replies| == |Coalesced(ops)| && Ordered(Coalesced(ops))
    requires StoppedAt(Coalesced(ops), base, |artifact|, replies, done, target)
    requires forall k | 0 <= k < |Coalesced(ops)| :: Honest(Coalesced(ops)[k], replies[k], artifact)
    ensures Tiles(Coalesced(ops), |base|, |artifact|)
    ensures target <= artifact
    ensures done == |Coalesced(ops)| ==> target == artifact
  {
    Coalescing.CoalescingPreservesRebuild(ops, base, artifact);
    StoppedTransferIsPrefix(Coalesced(ops), base, artifact, replies, done, target);
  }

  /** The reply is the range asked for, whole. */
  ghost predicate Served(op: Operation, reply: Reply, artifact: seq<Byte>) {
    op.kind == DOWNLOAD && 0 <= op.start <= op.end <= |artifact| ==>
      ExactRange(reply, op, |artifact|) && Body(reply) == artifact[op.start..op.end]
  }

  lemma ServedCompletes(op: Operation, offset: int, base: seq<Byte>, artifact: seq<Byte>, reply: Reply)
    requires FitsAt(op, offset, |base|, |artifact|) && Served(op, reply, artifact)
    ensures Completed(op, base, |artifact|, reply) && Honest(op, reply, artifact)
  {
    hide Body;
  }

  /** From an intact base and a server that serves, the rewritten plan completes and makes the new artifact. */
  lemma ServedPlanCompletes(ops: seq<Operation>, base: seq<Byte>, artifact: seq<Byte>, replies: seq<Reply>)
    requires WellFormed(ops, 0, |base|, |artifact|) && Run(ops, 0, base, artifact) == artifact
    requires |replies| == |Coalesced(ops)|
    requires forall k | 0 <= k < |replies| :: Served(Coalesced(ops)[k], replies[k], artifact)
    ensures Tiles(Coalesced(ops), |base|, |artifact|) && Ordered(Coalesced(ops))
    ensures AllCompleted(Coalesced(ops), base, |artifact|, replies)
    ensures Stream(Coalesced(ops), base, replies, |replies|) == artifact
  {
    var plan := Coalesced(ops);
    hide Coalesced, Run, Stream, Served, Completed, Honest, FitsAt, WellFormed, DownloadBytes, Total;
    Coalescing.CoalescingPreservesRebuild(ops, base, artifact);
    Coalescing.ForwardOperations(plan, 0, |base|, |artifact|);
    forall k | 0 <= k < |plan|
      ensures Completed(plan[k], base, |artifact|, replies[k]) && Honest(plan[k], replies[k], artifact)
    {
      OperationInPlan(plan, k, 0, |base|, |artifact|);
      ServedCompletes(plan[k], Total(plan[..k]), base, artifact, replies[k]);
    }
    EverythingStreamed(plan, base, artifact, replies);
  }

  lemma EverythingStreamed(ops: seq<Operation>, base: seq<Byte>, artifact: seq<Byte>, replies: seq<Reply>)
    requires Tiles(ops, |base|, |artifact|) && |replies| == |ops| && Ordered(ops)
    requires forall k | 0 <= k < |ops| ::
               Completed(ops[k], base, |artifact|, replies[k]) && Honest(ops[k], replies[k], artifact)
    ensures Stream(ops, base, replies, |ops|) == Run(ops, 0, base, artifact)
  {
    hide Stream, Run, Completed, Honest;
    StreamThenRun(ops, base, artifact, replies, |ops|);
    Whole(ops);
    assert WellFormed([], Total(ops), |base|, |artifact|) && Run([], Total(ops), base, artifact) == [] by {
      NothingRun(Total(ops), base, artifact);
    }
  }

  lemma NothingRun(offset: int, base: seq<Byte>, artifact: seq<Byte>)
    ensures WellFormed([], offset, |base|, |artifact|) && Run([], offset, base, artifact) == []
  {
  }
}
