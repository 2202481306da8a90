/** The receiving side of a transfer (src/network/FileReceiver.java): the
    worker's accept loop, one connection at a time, each one a header read
    followed by a copy loop bounded by the declared size.

    Sockets and the worker thread are abstracted: a connection is the stream
    of bytes the sender wrote (with the read sizes the network chose), and the
    worker's life is a sequence of accept-loop events. */
module FileReceiver {
  import opened Wrappers
  import opened JavaText
  import opened Bytes
  import opened ByteStream
  import opened Progress
  import opened TransferHeader
  import Paths

  /** An `IOException` in the middle of the payload: the `at`-th read of the
      copy loop (counting from 0) throws, say on a connection reset, or the
      write of the `at`-th chunk throws, say on a full disk. */
  datatype Fault = ReadFault(at: nat) | WriteFault(at: nat)

  /** No fault strikes before the `n`-th read. */
  predicate NoFaultBefore(fault: Option<Fault>, n: nat) {
    fault.None? || fault.value.at >= n
  }

  /** How the copy loop stops: the declared size or the end of the stream
      was reached, the worker was cancelled, or an `IOException` struck. */
  datatype CopyEnd = Completed | Cancelled | Failed

  /** What the copy loop did: the bytes written to the file, the stream
      after the last read, the size of each chunk written, the percentages
      handed to the progress callback, and how it stopped. */
  datatype Copy = Copy(written: seq<byte>, rest: Stream, chunks: seq<nat>, emitted: seq<int>, end: CopyEnd)

  /** The sizes the payload loop's reads return when nothing stops it
      early: each asks for `min(BufferSize, fileSize - total)` bytes. */
  function ReadPlan(input: Stream, fileSize: int): seq<nat> {
    BoundedReadSizes(input, BufferSize, fileSize)
  }

  /** The payload loop (src/network/FileReceiver.java:173-200). Each read asks
      for at most `BufferSize` bytes and never for more than the declared size
      still missing. `cancel[k]` says whether the worker has been cancelled
      when the `k`-th read returns; a cancelled chunk is not written. */
  method CopyPayload(input: Stream, fileSize: int, cancel: seq<bool>, fault: Option<Fault>)
    returns (c: Copy, ghost plan: seq<nat>)
    // `plan` is what the reads of `min(BufferSize, fileSize - total)` bytes
    // return until the size is reached or the stream ends; the chunks are
    // its first reads, as far as the loop gets.
    ensures ReadsAhead(input, fileSize, plan) && c.chunks <= plan
    ensures |c.written| <= |input.data| && c.written == input.data[..|c.written|]
    ensures |c.written| <= Max(fileSize, 0)
    ensures Sum(c.chunks) == |c.written|
    ensures forall i :: 0 <= i < |c.chunks| ==> 1 <= c.chunks[i] <= BufferSize
    ensures fileSize > 0 ==> c.emitted == Emissions(fileSize, c.chunks)
    ensures fileSize <= 0 ==> c == Copy([], input, [], [], Completed)
    ensures forall k :: 0 <= k < |c.chunks| && k < |cancel| ==> !cancel[k]
    ensures NoFaultBefore(fault, |c.chunks|)
    ensures LoopEnd(input, fileSize, cancel, fault, plan, c.written, c.rest, c.chunks, c.end)
  {
    var written, rest, chunks, end;
    written, rest, chunks, end, plan := CopyLoop(input, fileSize, cancel, fault);
    var emitted := if fileSize > 0 then Emissions(fileSize, chunks) else [];
    c := Copy(written, rest, chunks, emitted, end);
  }

  /** How the copy loop stopped after writing `written` in `chunks`, the
      first of the reads `plan`:
      - completed: every read of `plan` was performed, the file is the
        payload cut at the declared size, or all of it when the stream
        ended first, the rest of the stream is unread, and when the stream
        ended first, the read that found the end did not fail;
      - cancelled: the next read returned bytes, did not fail, and saw the
        cancellation; its bytes are consumed and dropped, and nothing past
        the declared size was read;
      - failed: the fault struck at the next read, or at the write of the
        next chunk when that read returned bytes and saw no cancellation,
        before the declared size was reached. */
  ghost predicate LoopEnd(input: Stream, fileSize: int, cancel: seq<bool>, fault: Option<Fault>, plan: seq<nat>,
                          written: seq<byte>, rest: Stream, chunks: seq<nat>, end: CopyEnd) {
    var k := |chunks|;
    && (end == Completed ==>
          && chunks == plan
          && written == input.data[..Min(Max(fileSize, 0), |input.data|)]
          && rest.data == input.data[|written|..]
          && (|written| < fileSize ==> fault != Some(ReadFault(k))))
    && (end == Cancelled ==>
          && k < |plan| && k < |cancel| && cancel[k] && fault != Some(ReadFault(k))
          && |written| < |input.data| - |rest.data| <= fileSize
          && rest.data == input.data[|input.data| - |rest.data|..])
    && (end == Failed ==>
          && fault.Some? && fault.value.at == k && |written| < fileSize
          && (fault.value.WriteFault? ==> k < |plan| && !(k < |cancel| && cancel[k])))
  }

  /** The loop itself, without the progress rule: the emissions depend only
      on the chunk sizes, so they are computed from those afterwards. */
  method CopyLoop(input: Stream, fileSize: int, cancel: seq<bool>, fault: Option<Fault>)
    returns (written: seq<byte>, rest: Stream, chunks: seq<nat>, end: CopyEnd, ghost plan: seq<nat>)
    ensures |written| <= |input.data| && written == input.data[..|written|] && Sum(chunks) == |written|
    ensures Looped(input, fileSize, cancel, fault, plan, written, rest, chunks, end)
  {
    var s := input;
    written := [];
    chunks := [];
    end := Completed;
    var eof := false;
    plan := PlanOf(input, fileSize);
    ghost var ahead := plan;
    while !eof && |written| < fileSize
      invariant Copying(input, fileSize, cancel, fault, plan, s, written, chunks, ahead)
      invariant fileSize <= 0 ==> chunks == [] && s == input
      invariant eof ==> s.data == [] && fault != Some(ReadFault(|chunks|)) && ahead == []
      decreases (if eof then 0 else 1), fileSize - |written|
    {
      var k := |chunks|;
      if fault == Some(ReadFault(k)) {
        EndsAtRead(input, fileSize, cancel, fault, plan, s, written, chunks, ahead);
        end := Failed;
        break;
      }
      var r, next, after := ReadAhead(s, fileSize - |written|, ahead);
      if r.Eof? {
        eof := true;
      } else {
        if k < |cancel| && cancel[k] {
          EndsAfterRead(input, fileSize, cancel, fault, plan, s, written, chunks, ahead, r.bytes, next, after, Cancelled);
          s, end := next, Cancelled;
          break;
        }
        if fault == Some(WriteFault(k)) {
          EndsAfterRead(input, fileSize, cancel, fault, plan, s, written, chunks, ahead, r.bytes, next, after, Failed);
          s, end := next, Failed;
          break;
        }
        CopyStep(input, fileSize, cancel, fault, plan, s, written, chunks, ahead, r.bytes, next, after);
        written := written + r.bytes;
        chunks := chunks + [|r.bytes|];
        ahead := after;
        s := next;
      }
    }
    if end == Completed {
      EndsCompleted(input, fileSize, cancel, fault, plan, s, written, chunks, ahead);
    }
    rest := s;
  }

  /** What the copy loop leaves behind: `written` is a prefix of the payload
      no longer than the declared size, cut in `chunks` of 1 to `BufferSize`
      bytes that are the first of the loop's reads `plan`, with no
      cancellation seen and no fault struck while they were read and
      written; nothing happens for a size that is not positive; and the
      loop stopped as `LoopEnd` says. */
  ghost predicate Looped(input: Stream, fileSize: int, cancel: seq<bool>, fault: Option<Fault>, plan: seq<nat>,
                         written: seq<byte>, rest: Stream, chunks: seq<nat>, end: CopyEnd) {
    && ReadsAhead(input, fileSize, plan) && chunks <= plan
    && |written| <= |input.data| && written == input.data[..|written|]
    && |written| <= Max(fileSize, 0)
    && Sum(chunks) == |written|
    && (forall i :: 0 <= i < |chunks| ==> 1 <= chunks[i] <= BufferSize)
    && (fileSize <= 0 ==> written == [] && chunks == [] && rest == input && end == Completed)
    && (forall k :: 0 <= k < |chunks| && k < |cancel| ==> !cancel[k])
    && NoFaultBefore(fault, |chunks|)
    && LoopEnd(input, fileSize, cancel, fault, plan, written, rest, chunks, end)
  }

  /** The loop stops at a read that throws. */
  lemma EndsAtRead(input: Stream, fileSize: int, cancel: seq<bool>, fault: Option<Fault>, plan: seq<nat>,
                   s: Stream, written: seq<byte>, chunks: seq<nat>, ahead: seq<nat>)
    requires Copying(input, fileSize, cancel, fault, plan, s, written, chunks, ahead)
    requires ReadsAhead(input, fileSize, plan)
    requires |written| < fileSize && fault == Some(ReadFault(|chunks|))
    ensures Looped(input, fileSize, cancel, fault, plan, written, s, chunks, Failed)
  {
  }

  /** The loop stops at a read that returned bytes: the cancellation seen
      there, or the failing write of that chunk. */
  lemma EndsAfterRead(input: Stream, fileSize: int, cancel: seq<bool>, fault: Option<Fault>, plan: seq<nat>,
                      s: Stream, written: seq<byte>, chunks: seq<nat>, ahead: seq<nat>,
                      bytes: seq<byte>, next: Stream, after: seq<nat>, end: CopyEnd)
    requires Copying(input, fileSize, cancel, fault, plan, s, written, chunks, ahead)
    requires s.data == bytes + next.data && 1 <= |bytes| <= Min(BufferSize, fileSize - |written|)
    requires ahead == [|bytes|] + after && fault != Some(ReadFault(|chunks|))
    requires end == Cancelled ==> |chunks| < |cancel| && cancel[|chunks|]
    requires end == Failed ==> fault == Some(WriteFault(|chunks|)) && !(|chunks| < |cancel| && cancel[|chunks|])
    requires end != Completed && ReadsAhead(input, fileSize, plan)
    ensures Looped(input, fileSize, cancel, fault, plan, written, next, chunks, end)
  {
    CancelPoint(input, written, bytes, next.data);
  }

  /** The loop runs out: the declared size is reached, or a read finds the
      end of the stream. */
  lemma EndsCompleted(input: Stream, fileSize: int, cancel: seq<bool>, fault: Option<Fault>, plan: seq<nat>,
                      s: Stream, written: seq<byte>, chunks: seq<nat>, ahead: seq<nat>)
    requires Copying(input, fileSize, cancel, fault, plan, s, written, chunks, ahead)
    requires |written| >= fileSize || (s.data == [] && ahead == [] && fault != Some(ReadFault(|chunks|)))
    requires ReadsAhead(input, fileSize, plan) && (fileSize <= 0 ==> chunks == [] && s == input)
    ensures Looped(input, fileSize, cancel, fault, plan, written, s, chunks, Completed)
  {
    if |written| >= fileSize {
      NothingAhead(s, fileSize - |written|, ahead);
      assert |written| == Max(fileSize, 0);
    } else {
      assert |written| == |input.data|;
    }
  }

  /** `ahead` is the run of reads from `s` while `remaining` bytes are
      still wanted. The quantifier only keeps the run from being unfolded
      where it is not looked at. */
  ghost predicate ReadsAhead(s: Stream, remaining: int, ahead: seq<nat>) {
    forall cap: nat {:trigger BoundedReadSizes(s, cap, remaining)} ::
      cap == BufferSize ==> ahead == BoundedReadSizes(s, cap, remaining)
  }

  /** The loop's run of reads, named without unfolding it. */
  lemma PlanOf(input: Stream, fileSize: int) returns (plan: seq<nat>)
    ensures ReadsAhead(input, fileSize, plan)
  {
    plan := ReadPlan(input, fileSize);
  }

  /** With nothing more wanted, no read is ahead. */
  lemma NothingAhead(s: Stream, remaining: int, ahead: seq<nat>)
    requires ReadsAhead(s, remaining, ahead) && remaining <= 0
    ensures ahead == []
  {
    assert ahead == BoundedReadSizes(s, BufferSize, remaining);
  }

  /** One read of the payload loop: one that returns bytes is the next of
      the reads ahead. */
  method ReadAhead(s: Stream, remaining: int, ghost ahead: seq<nat>)
    returns (r: ReadResult, next: Stream, ghost after: seq<nat>)
    requires remaining >= 1 && ReadsAhead(s, remaining, ahead)
    ensures r.Eof? <==> |s.data| == 0
    ensures r.Eof? ==> next == s && ahead == []
    ensures r.Chunk? ==> 1 <= |r.bytes| <= Min(BufferSize, remaining) && s.data == r.bytes + next.data
    ensures r.Chunk? ==> ahead == [|r.bytes|] + after && ReadsAhead(next, remaining - |r.bytes|, after)
  {
    r, next := ReadChunk(s, BufferSize, remaining);
    assert ahead == BoundedReadSizes(s, BufferSize, remaining);
    after := if r.Chunk? then BoundedReadSizes(next, BufferSize, remaining - |r.bytes|) else [];
  }

  /** One more read moves its size from the reads ahead to the chunks. */
  lemma PlanStep(plan: seq<nat>, chunks: seq<nat>, ahead: seq<nat>, n: nat, after: seq<nat>)
    requires plan == chunks + ahead && ahead == [n] + after
    ensures plan == (chunks + [n]) + after
  {
  }

  /** Where a cancelled read leaves the stream. */
  lemma CancelPoint(input: Stream, written: seq<byte>, bytes: seq<byte>, rest: seq<byte>)
    requires |written| <= |input.data|
    requires input.data[|written|..] == bytes + rest
    ensures |input.data| - |rest| == |written| + |bytes|
    ensures rest == input.data[|input.data| - |rest|..]
  {
    assert input.data[|written|..][|bytes|..] == rest;
  }

  /** The copy loop's invariant after `chunks` were written from `input`
      and `s` is left: the file is a prefix of the payload no longer than
      the declared size, the chunks add up to it, each of 1 to `BufferSize`
      bytes, no cancellation and no fault struck while they were read and
      written, and they are the first of the loop's reads `plan`, with
      `ahead` the rest. */
  ghost predicate Copying(input: Stream, fileSize: int, cancel: seq<bool>, fault: Option<Fault>, plan: seq<nat>,
                    s: Stream, written: seq<byte>, chunks: seq<nat>, ahead: seq<nat>) {
    && |written| <= |input.data| && written == input.data[..|written|]
    && s.data == input.data[|written|..]
    && |written| <= Max(fileSize, 0)
    && Sum(chunks) == |written|
    && (forall i :: 0 <= i < |chunks| ==> 1 <= chunks[i] <= BufferSize)
    && (forall k :: 0 <= k < |chunks| && k < |cancel| ==> !cancel[k])
    && NoFaultBefore(fault, |chunks|)
    && plan == chunks + ahead
    && ReadsAhead(s, fileSize - |written|, ahead)
  }

  /** The copy loop's invariant survives writing one more chunk. */
  lemma CopyStep(input: Stream, fileSize: int, cancel: seq<bool>, fault: Option<Fault>, plan: seq<nat>,
                 s: Stream, written: seq<byte>, chunks: seq<nat>, ahead: seq<nat>,
                 bytes: seq<byte>, next: Stream, after: seq<nat>)
    requires Copying(input, fileSize, cancel, fault, plan, s, written, chunks, ahead)
    requires s.data == bytes + next.data && 1 <= |bytes| <= Min(BufferSize, fileSize - |written|)
    requires ahead == [|bytes|] + after && ReadsAhead(next, fileSize - |written| - |bytes|, after)
    requires !(|chunks| < |cancel| && cancel[|chunks|])
    requires fault != Some(ReadFault(|chunks|)) && fault != Some(WriteFault(|chunks|))
    ensures Copying(input, fileSize, cancel, fault, plan, next, written + bytes, chunks + [|bytes|], after)
  {
    var n := |bytes|;
    assert input.data[..|written| + n] == input.data[..|written|] + input.data[|written|..][..n];
    assert (chunks + [n])[..|chunks|] == chunks;
    assert input.data[|written|..][n..] == next.data;
    assert fileSize - |written + bytes| == fileSize - |written| - n;
    PlanStep(plan, chunks, ahead, n, after);
  }

  /** A connection as the receiver sees it: what the sender sent, whether
      the destination file can be created, when cancellation strikes, and
      whether an `IOException` interrupts the payload. */
  datatype Connection = Connection(stream: Stream, canCreate: bool, cancel: seq<bool>, fault: Option<Fault>)

  /** How one connection ends. A header failure, a file that cannot be
      created and a failure in the payload are `IOException`s, reported as
      "Error receiving file" and caught per connection. `BadName` is the
      `InvalidPathException` of `Paths.get` on a name holding NUL, and
      `Interrupted` the `InterruptedException` of a cancellation; neither is
      an `IOException`. */
  datatype Session =
    | HeaderFailed(error: HeaderError)
    | BadName(header: Header)
    | CreateFailed(header: Header, destination: Paths.Path)
    | Received(header: Header, destination: Paths.Path, content: seq<byte>, emitted: seq<int>)
    | TransferFailed(header: Header, destination: Paths.Path, content: seq<byte>, emitted: seq<int>)
    | Interrupted(header: Header, destination: Paths.Path, content: seq<byte>, emitted: seq<int>)

  /** The bytes after the header, when there is a header. */
  function Payload(data: seq<byte>): seq<byte> {
    match DecodeHeader(data)
    case Err(_) => []
    case Ok((_, n)) => data[n..]
  }

  /** The payload as the copy loop reads it: the bytes after the header,
      with the read sizes the network chose. */
  function PayloadStream(conn: Connection): Stream {
    Stream(Payload(conn.stream.data), conn.stream.grants)
  }

  /** `content` and `emitted` are what the copy loop wrote and reported in
      `chunks`: the sizes of the first reads the loop performs on the
      payload, the payload's bytes they returned, the progress rule's values
      for them, with no cancellation seen and no fault struck while they were
      read and written. */
  predicate CopiedAs(conn: Connection, size: int, content: seq<byte>, emitted: seq<int>, chunks: seq<nat>) {
    && chunks <= ReadPlan(PayloadStream(conn), size)
    && content <= Payload(conn.stream.data)
    && Sum(chunks) == |content|
    && (forall i :: 0 <= i < |chunks| ==> 1 <= chunks[i] <= BufferSize)
    && emitted == (if size > 0 then Emissions(size, chunks) else [])
    && (forall k :: 0 <= k < |chunks| && k < |conn.cancel| ==> !conn.cancel[k])
    && NoFaultBefore(conn.fault, |chunks|)
  }

  /** How the copy loop of a session that reached it ended after `chunks`:
      - received: every read the size asks for was performed and written,
        and when the stream ended early, the read that found the end did
        not fail;
      - failed: the fault struck at the next read, or at the write of the
        next chunk when that read returned bytes and saw no cancellation;
        either way before the declared size was reached;
      - interrupted: the next read returned bytes, did not fail, and saw
        the cancellation. */
  predicate CopyEndsAs(conn: Connection, size: int, s: Session, chunks: seq<nat>) {
    var plan := ReadPlan(PayloadStream(conn), size);
    var k := |chunks|;
    && (s.Received? || s.TransferFailed? || s.Interrupted?)
    && CopiedAs(conn, size, s.content, s.emitted, chunks)
    && (s.Received? ==> chunks == plan && (|s.content| < size ==> conn.fault != Some(ReadFault(k))))
    && (s.TransferFailed? ==>
          && conn.fault.Some? && conn.fault.value.at == k && |s.content| < size
          && (conn.fault.value.WriteFault? ==> k < |plan| && !(k < |conn.cancel| && conn.cancel[k])))
    && (s.Interrupted? ==>
          k < |plan| && k < |conn.cancel| && conn.cancel[k] && conn.fault != Some(ReadFault(k)))
  }

  /** What a session says about its connection: a header that does not
      decode fails the session and nothing else does; otherwise the session
      carries the header, the name is refused exactly when `Paths.get`
      refuses it, the destination is the save directory joined with the name,
      creation fails exactly when the file cannot be created, a received
      file is the payload cut at the declared size, and the copy loop ended
      as `CopyEndsAs` says. `SessionOfUnique` shows this decides the
      session. */
  ghost predicate SessionOf(saveDir: string, conn: Connection, s: Session) {
    var d := DecodeHeader(conn.stream.data);
    && (s.HeaderFailed? <==> d.Err?)
    && (d.Err? ==> s.error == d.error)
    && (d.Ok? ==>
          && s.header == d.value.0
          && (s.BadName? <==> Paths.Get(saveDir, s.header.fileName).None?)
          && (!s.BadName? ==> s.destination == Paths.Get(saveDir, s.header.fileName).value)
          && (s.CreateFailed? <==> Paths.Get(saveDir, s.header.fileName).Some? && !conn.canCreate)
          && (s.Received? ==>
                s.content == Payload(conn.stream.data)[..Min(Max(s.header.fileSize, 0), |Payload(conn.stream.data)|)])
          && (s.Received? || s.TransferFailed? || s.Interrupted? ==>
                exists chunks :: CopyEndsAs(conn, s.header.fileSize, s, chunks)))
  }

  /** A connection decides its session: whatever was sent, however the
      network split it, and wherever a cancellation or a fault falls, at
      most one session fits the connection. */
  lemma SessionOfUnique(saveDir: string, conn: Connection, s1: Session, s2: Session)
    requires SessionOf(saveDir, conn, s1) && SessionOf(saveDir, conn, s2)
    ensures s1 == s2
  {
    if DecodeHeader(conn.stream.data).Ok? && (s1.Received? || s1.TransferFailed? || s1.Interrupted?) {
      var size := s1.header.fileSize;
      var c1 :| CopyEndsAs(conn, size, s1, c1);
      var c2 :| CopyEndsAs(conn, size, s2, c2);
      CopyEndUnique(conn, size, s1, s2, c1, c2);
    }
  }

  /** The reads performed, the cancellation flags and the fault fix where
      the copy loop stops, and so what it wrote and how it ended. */
  lemma CopyEndUnique(conn: Connection, size: int, s1: Session, s2: Session, c1: seq<nat>, c2: seq<nat>)
    requires CopyEndsAs(conn, size, s1, c1) && CopyEndsAs(conn, size, s2, c2)
    ensures c1 == c2 && s1.content == s2.content && s1.emitted == s2.emitted
    ensures s1.Received? == s2.Received? && s1.TransferFailed? == s2.TransferFailed? && s1.Interrupted? == s2.Interrupted?
  {
    var plan := ReadPlan(PayloadStream(conn), size);
    assert |c1| == |c2|;
    assert c1 == plan[..|c1|] && c2 == plan[..|c2|];
    var p := Payload(conn.stream.data);
    assert s1.content == p[..|s1.content|] && s2.content == p[..|s2.content|];
  }

  /** The network's read sizes decide which read sees a cancellation: two
      bytes arriving one at a time, with the cancellation noticed when the
      second read returns, leave a transfer interrupted after one byte. */
  lemma CancelAtSecondRead(saveDir: string, h: Header, s: Session)
    requires InLong(h.fileSize) && h.fileSize == 2 && EncodeHeader(h).Ok?
    requires Paths.Get(saveDir, h.fileName).Some?
    requires SessionOf(saveDir, Connection(Stream(EncodeHeader(h).value + [1, 2], [1, 1]), true, [false, true], None), s)
    ensures s.Interrupted? && s.content == [1]
  {
    var conn := Connection(Stream(EncodeHeader(h).value + [1, 2], [1, 1]), true, [false, true], None);
    TwoSingleReads(conn, h);
    var c :| CopyEndsAs(conn, 2, s, c);
    assert conn.cancel[1] && ReadPlan(PayloadStream(conn), 2)[..2] == [1, 1];
    assert s.Interrupted? && |c| < 2 && conn.cancel[|c|];
    assert c == [1] && Sum(c) == 1;
    assert s.content <= [1, 2];
  }

  /** Likewise for a fault: with the second read throwing, the transfer
      fails after one byte. */
  lemma FaultAtSecondRead(saveDir: string, h: Header, s: Session)
    requires InLong(h.fileSize) && h.fileSize == 2 && EncodeHeader(h).Ok?
    requires Paths.Get(saveDir, h.fileName).Some?
    requires SessionOf(saveDir, Connection(Stream(EncodeHeader(h).value + [1, 2], [1, 1]), true, [], Some(ReadFault(1))), s)
    ensures s.TransferFailed? && s.content == [1]
  {
    var conn := Connection(Stream(EncodeHeader(h).value + [1, 2], [1, 1]), true, [], Some(ReadFault(1)));
    TwoSingleReads(conn, h);
    var c :| CopyEndsAs(conn, 2, s, c);
  }

  /** The header of `h` followed by two bytes granted one per read. */
  lemma TwoSingleReads(conn: Connection, h: Header)
    requires InLong(h.fileSize) && h.fileSize == 2 && EncodeHeader(h).Ok?
    requires conn.stream == Stream(EncodeHeader(h).value + [1, 2], [1, 1])
    ensures DecodeHeader(conn.stream.data).Ok? && DecodeHeader(conn.stream.data).value.0 == h
    ensures Payload(conn.stream.data) == [1, 2]
    ensures ReadPlan(PayloadStream(conn), 2) == [1, 1]
  {
    var w := EncodeHeader(h).value;
    DecodeOfEncodeHeader(h, [1, 2]);
    assert (w + [1, 2])[|w|..] == [1, 2];
    assert PayloadStream(conn) == Stream([1, 2], [1, 1]);
    OneByteReads();
  }

  /** Two bytes granted one per read are read one at a time. */
  lemma OneByteReads()
    ensures ReadPlan(Stream([1, 2], [1, 1]), 2) == [1, 1]
  {
  }

  /** One connection (src/network/FileReceiver.java:150-204): the name and
      then the size, before any payload byte; the destination is the save
      directory joined with the sender's name as it came; then the copy loop.
      "File received successfully!" follows whenever the loop ends without
      cancellation or failure, also when the stream ended early. */
  method ReceiveOne(saveDir: string, conn: Connection) returns (s: Session)
    ensures SessionOf(saveDir, conn, s)
    ensures !s.HeaderFailed? && !s.BadName? ==>
      Paths.Get(saveDir, s.header.fileName).Some? && s.destination == Paths.Get(saveDir, s.header.fileName).value
    ensures s.Received? && s.header.fileSize > 0 ==> NonDecreasing(s.emitted) && WithinPercent(s.emitted)
    ensures s.TransferFailed? ==> s.content <= Payload(conn.stream.data) && |s.content| < s.header.fileSize
    ensures s.Interrupted? ==> s.content < Payload(conn.stream.data) && |s.content| < s.header.fileSize
  {
    match DecodeHeader(conn.stream.data)
    case Err(e) =>
      s := HeaderFailed(e);
    case Ok((h, n)) =>
      match Paths.Get(saveDir, h.fileName)
      case None =>
        s := BadName(h);
      case Some(dest) =>
        if !conn.canCreate {
          s := CreateFailed(h, dest);
        } else {
          s := ReceivePayload(saveDir, conn, h, n, dest);
        }
  }

  /** The copy loop once the destination file is open. */
  method ReceivePayload(saveDir: string, conn: Connection, h: Header, n: nat, dest: Paths.Path) returns (s: Session)
    requires DecodeHeader(conn.stream.data) == Ok((h, n))
    requires Paths.Get(saveDir, h.fileName) == Some(dest) && conn.canCreate
    ensures s.Received? || s.TransferFailed? || s.Interrupted?
    ensures s.header == h && s.destination == dest
    ensures SessionOf(saveDir, conn, s)
    ensures s.Received? && h.fileSize > 0 ==> NonDecreasing(s.emitted) && WithinPercent(s.emitted)
    ensures s.TransferFailed? ==> s.content <= Payload(conn.stream.data) && |s.content| < h.fileSize
    ensures s.Interrupted? ==> s.content < Payload(conn.stream.data) && |s.content| < h.fileSize
  {
    var payload := Skip(conn.stream, n);
    assert payload.data == Payload(conn.stream.data);
    assert payload == PayloadStream(conn);
    var c, plan := CopyPayload(payload, h.fileSize, conn.cancel, conn.fault);
    assert plan == ReadPlan(PayloadStream(conn), h.fileSize);
    assert CopiedAs(conn, h.fileSize, c.written, c.emitted, c.chunks);
    match c.end
    case Cancelled =>
      s := Interrupted(h, dest, c.written, c.emitted);
      assert CopyEndsAs(conn, h.fileSize, s, c.chunks);
    case Failed =>
      s := TransferFailed(h, dest, c.written, c.emitted);
      assert CopyEndsAs(conn, h.fileSize, s, c.chunks);
    case Completed =>
      if h.fileSize > 0 {
        EmissionsAreMonotonePercentages(h.fileSize, c.chunks);
      }
      s := Received(h, dest, c.written, c.emitted);
      assert CopyEndsAs(conn, h.fileSize, s, c.chunks);
  }

  /** A session that ends the worker: an exception no handler in the accept
      loop catches. */
  predicate EndsWorker(s: Session) {
    s.Interrupted? || s.BadName?
  }

  /** What the accept loop sees next: a one-second accept timeout, a
      connection, or the worker's cancellation (from `stop`). */
  datatype AcceptEvent = TimedOut | Accepted(conn: Connection) | StopRequested

  datatype EndReason = BindFailed | Stopped | TransferCancelled | NameRejected | EventsExhausted

  /** The progress values of the sessions, in order. */
  function SessionProgress(sessions: seq<Session>): seq<int> {
    if |sessions| == 0 then []
    else
      var last := sessions[|sessions| - 1];
      SessionProgress(sessions[..|sessions| - 1])
        + (if last.Received? || last.TransferFailed? || last.Interrupted? then last.emitted else [])
  }

  /** The connections among the events, in order. */
  function Conns(events: seq<AcceptEvent>): (r: seq<Connection>)
    ensures |r| <= |events|
  {
    if |events| == 0 then []
    else Conns(events[..|events| - 1]) + (if events[|events| - 1].Accepted? then [events[|events| - 1].conn] else [])
  }

  /** How the accept loop ended after taking `used` events: one session per
      connection among them, in order; a stop, a cancelled transfer or (with
      `nameIsFatal`) a refused name ends it, the last two only as its final
      session; otherwise it runs out of events. `AcceptLoopDecided` shows
      the events decide all three results. */
  ghost predicate AcceptLoopEnds(saveDir: string, events: seq<AcceptEvent>, nameIsFatal: bool,
                                 sessions: seq<Session>, reason: EndReason, used: nat) {
    && used <= |events|
    && SessionsOf(saveDir, Conns(events[..used]), sessions)
    && (forall i :: 0 <= i < |sessions| - 1 ==> !sessions[i].Interrupted? && !(nameIsFatal && sessions[i].BadName?))
    && reason in {Stopped, TransferCancelled, NameRejected, EventsExhausted}
    && (reason == TransferCancelled <==> |sessions| > 0 && sessions[|sessions| - 1].Interrupted?)
    && (reason == NameRejected <==> nameIsFatal && |sessions| > 0 && sessions[|sessions| - 1].BadName?)
    && (reason == TransferCancelled || reason == NameRejected ==> used > 0 && events[used - 1].Accepted?)
    && (reason == Stopped ==> used > 0 && events[used - 1] == StopRequested && StopRequested !in events[..used - 1])
    && (reason != Stopped ==> StopRequested !in events[..used])
    && (reason == EventsExhausted ==> used == |events|)
  }

  /** The accept loop of both workers below. With `nameIsFatal` a `BadName`
      session ends it, as the source does; without, it is one more failed
      connection. */
  method AcceptLoop(saveDir: string, events: seq<AcceptEvent>, nameIsFatal: bool)
    returns (sessions: seq<Session>, reason: EndReason, used: nat)
    ensures AcceptLoopEnds(saveDir, events, nameIsFatal, sessions, reason, used)
  {
    sessions := [];
    used := 0;
    reason := EventsExhausted;
    ghost var conns: seq<Connection> := [];
    while used < |events|
      invariant used <= |events|
      invariant conns == Conns(events[..used])
      invariant SessionsOf(saveDir, conns, sessions)
      invariant forall i :: 0 <= i < |sessions| ==> !sessions[i].Interrupted? && !(nameIsFatal && sessions[i].BadName?)
      invariant StopRequested !in events[..used]
    {
      var e := events[used];
      EventStep(events, used);
      used := used + 1;
      if e == StopRequested {
        reason := Stopped;
        break;
      }
      if e.Accepted? {
        var s := Handle(saveDir, e.conn, conns, sessions);
        conns := conns + [e.conn];
        sessions := sessions + [s];
        if s.Interrupted? {
          reason := TransferCancelled;
          break;
        }
        if nameIsFatal && s.BadName? {
          reason := NameRejected;
          break;
        }
      }
    }
  }

  /** The events decide the accept loop's sessions, where it stops and why. */
  lemma AcceptLoopDecided(saveDir: string, events: seq<AcceptEvent>, nameIsFatal: bool,
                          s1: seq<Session>, r1: EndReason, u1: nat, s2: seq<Session>, r2: EndReason, u2: nat)
    requires AcceptLoopEnds(saveDir, events, nameIsFatal, s1, r1, u1)
    requires AcceptLoopEnds(saveDir, events, nameIsFatal, s2, r2, u2)
    ensures s1 == s2 && r1 == r2 && u1 == u2
  {
    StopsNoLater(saveDir, events, nameIsFatal, s1, r1, u1, s2, r2, u2);
    StopsNoLater(saveDir, events, nameIsFatal, s2, r2, u2, s1, r1, u1);
    SessionsOfUnique(saveDir, Conns(events[..u1]), s1, s2);
    if r1 == Stopped || r2 == Stopped {
      assert events[..u1][u1 - 1] == StopRequested;
    }
  }

  /** No run of the accept loop stops before another. */
  lemma StopsNoLater(saveDir: string, events: seq<AcceptEvent>, nameIsFatal: bool,
                     s1: seq<Session>, r1: EndReason, u1: nat, s2: seq<Session>, r2: EndReason, u2: nat)
    requires AcceptLoopEnds(saveDir, events, nameIsFatal, s1, r1, u1)
    requires AcceptLoopEnds(saveDir, events, nameIsFatal, s2, r2, u2)
    ensures u2 <= u1
  {
    if u1 < u2 && (r1 == TransferCancelled || r1 == NameRejected) {
      var c1, c2 := Conns(events[..u1]), Conns(events[..u2]);
      ConnsGrow(events, u1, u2);
      SessionsOfPrefix(saveDir, c2, s2, |c1|);
      assert c2[..|c1|] == c1;
      SessionsOfUnique(saveDir, c1, s1, s2[..|c1|]);
      assert s2[|s1| - 1] == s1[|s1| - 1];
      assert |s1| == |s2|;
      ConnsGrow(events, u1, u2 - 1);
      EventStep(events, u2 - 1);
    }
  }

  /** The connections are exactly the accepted ones, and there are as many
      as events only when every event is an accept. */
  lemma {:induction false} ConnsAreAccepted(events: seq<AcceptEvent>)
    ensures forall c :: c in Conns(events) <==> Accepted(c) in events
    ensures |Conns(events)| == |events| <==> forall i :: 0 <= i < |events| ==> events[i].Accepted?
  {
    if |events| > 0 {
      var init := events[..|events| - 1];
      ConnsAreAccepted(init);
      assert events == init + [events[|events| - 1]];
    }
  }

  /** Taking more events keeps the connections seen so far, in order. */
  lemma {:induction false} ConnsGrow(events: seq<AcceptEvent>, a: nat, b: nat)
    requires a <= b <= |events|
    ensures Conns(events[..a]) <= Conns(events[..b])
    decreases b - a
  {
    if a < b {
      ConnsGrow(events, a, b - 1);
      EventStep(events, b - 1);
    }
  }

  /** The first `n` sessions answer the first `n` connections. */
  lemma SessionsOfPrefix(saveDir: string, conns: seq<Connection>, sessions: seq<Session>, n: nat)
    requires SessionsOf(saveDir, conns, sessions) && n <= |conns|
    ensures SessionsOf(saveDir, conns[..n], sessions[..n])
  {
    forall i | 0 <= i < n
      ensures SessionOf(saveDir, conns[..n][i], sessions[..n][i])
    {
      assert SessionOf(saveDir, conns[i], sessions[i]);
    }
  }

  /** One more connection served after `sessions`. */
  method Handle(saveDir: string, conn: Connection, ghost conns: seq<Connection>, ghost sessions: seq<Session>)
    returns (s: Session)
    requires SessionsOf(saveDir, conns, sessions)
    ensures SessionsOf(saveDir, conns + [conn], sessions + [s])
  {
    s := ReceiveOne(saveDir, conn);
    SessionsOfAppend(saveDir, conns, sessions, conn, s);
  }

  /** The sessions answer the connections one for one. */
  ghost predicate SessionsOf(saveDir: string, conns: seq<Connection>, sessions: seq<Session>) {
    && |conns| == |sessions|
    && forall i {:trigger SessionOf(saveDir, conns[i], sessions[i])} ::
         0 <= i < |sessions| ==> SessionOf(saveDir, conns[i], sessions[i])
  }

  /** The sessions of a run of connections are decided by the connections. */
  lemma SessionsOfUnique(saveDir: string, conns: seq<Connection>, s1: seq<Session>, s2: seq<Session>)
    requires SessionsOf(saveDir, conns, s1) && SessionsOf(saveDir, conns, s2)
    ensures s1 == s2
  {
    forall i | 0 <= i < |s1|
      ensures s1[i] == s2[i]
    {
      SessionOfUnique(saveDir, conns[i], s1[i], s2[i]);
    }
  }

  lemma SessionsOfAppend(saveDir: string, conns: seq<Connection>, sessions: seq<Session>, conn: Connection, s: Session)
    requires SessionsOf(saveDir, conns, sessions) && SessionOf(saveDir, conn, s)
    ensures SessionsOf(saveDir, conns + [conn], sessions + [s])
  {
    forall i | 0 <= i < |sessions| + 1
      ensures SessionOf(saveDir, (conns + [conn])[i], (sessions + [s])[i])
    {
      if i < |sessions| {
        assert SessionOf(saveDir, conns[i], sessions[i]);
      }
    }
  }

  /** The worker (src/network/FileReceiver.java:135-253). When the server
      socket cannot be bound nothing is accepted. Otherwise connections are
      served one after another until the worker is cancelled between
      connections or during a transfer, or a name holding NUL makes
      `Paths.get` throw: that exception passes both `catch (IOException)`
      clauses, so the `finally` closes the server socket and the worker ends.
      Whatever happens, `done()` finally resets the progress to 0. */
  method Serve(saveDir: string, bindOk: bool, events: seq<AcceptEvent>)
    returns (sessions: seq<Session>, progress: seq<int>, reason: EndReason, used: nat)
    ensures !bindOk ==> sessions == [] && reason == BindFailed && progress == [0]
    ensures bindOk ==> reason != BindFailed
    ensures used <= |events|
    ensures |sessions| == |Conns(events[..used])|
    ensures forall i :: 0 <= i < |sessions| ==> SessionOf(saveDir, Conns(events[..used])[i], sessions[i])
    ensures progress == SessionProgress(sessions) + [0]
    // A cancelled transfer or a bad name ends the loop from inside a connection.
    ensures forall i :: 0 <= i < |sessions| - 1 ==> !EndsWorker(sessions[i])
    ensures reason == TransferCancelled <==> |sessions| > 0 && sessions[|sessions| - 1].Interrupted?
    ensures reason == NameRejected <==> |sessions| > 0 && sessions[|sessions| - 1].BadName?
    ensures reason == Stopped ==> used > 0 && events[used - 1] == StopRequested
    ensures StopRequested !in events[..used - (if reason == Stopped then 1 else 0)]
    ensures reason == EventsExhausted ==> used == |events|
  {
    if !bindOk {
      return [], [0], BindFailed, 0;
    }
    sessions, reason, used := AcceptLoop(saveDir, events, true);
    progress := SessionProgress(sessions) + [0];
  }

  /** The worker with `catch (RuntimeException)` beside the per-connection
      `catch (IOException)`: a name `Paths.get` refuses costs that
      connection only, and only a cancelled transfer or a stop ends the
      loop. */
  method ServeGuarded(saveDir: string, bindOk: bool, events: seq<AcceptEvent>)
    returns (sessions: seq<Session>, progress: seq<int>, reason: EndReason, used: nat)
    ensures !bindOk ==> sessions == [] && reason == BindFailed && progress == [0]
    ensures bindOk ==> reason in {Stopped, TransferCancelled, EventsExhausted}
    ensures used <= |events|
    ensures |sessions| == |Conns(events[..used])|
    ensures forall i :: 0 <= i < |sessions| ==> SessionOf(saveDir, Conns(events[..used])[i], sessions[i])
    ensures progress == SessionProgress(sessions) + [0]
    ensures forall i :: 0 <= i < |sessions| - 1 ==> !sessions[i].Interrupted?
    ensures reason == TransferCancelled <==> |sessions| > 0 && sessions[|sessions| - 1].Interrupted?
    ensures reason == Stopped ==> used > 0 && events[used - 1] == StopRequested
    ensures StopRequested !in events[..used - (if reason == Stopped then 1 else 0)]
    ensures reason == EventsExhausted ==> used == |events|
  {
    if !bindOk {
      return [], [0], BindFailed, 0;
    }
    sessions, reason, used := AcceptLoop(saveDir, events, false);
    progress := SessionProgress(sessions) + [0];
  }

  /** Taking one more event: the connections and the stop test extend by it. */
  lemma EventStep(events: seq<AcceptEvent>, used: nat)
    requires used < |events|
    ensures Conns(events[..used + 1]) ==
      Conns(events[..used]) + (if events[used].Accepted? then [events[used].conn] else [])
    ensures !events[used].Accepted? ==> Conns(events[..used + 1]) == Conns(events[..used])
    ensures (StopRequested in events[..used + 1]) <==> (StopRequested in events[..used] || events[used] == StopRequested)
  {
    assert events[..used + 1][..used] == events[..used];
    assert events[..used + 1] == events[..used] + [events[used]];
    assert Conns(events[..used]) + [] == Conns(events[..used]);
  }

  /** A header that starts `00 01 00` names a file by the single raw byte 0,
      which `readUTF` accepts as NUL; `Paths.get` refuses that name, so the
      session is `BadName` and, in `Serve`, the worker's last. */
  lemma NulNameEndsWorker(saveDir: string, conn: Connection, s: Session)
    requires |conn.stream.data| >= 11 && conn.stream.data[..3] == [0, 1, 0]
    requires SessionOf(saveDir, conn, s)
    ensures s.BadName? && s.header.fileName == "\0" && EndsWorker(s)
  {
    var bs := conn.stream.data;
    var len: seq<byte> := [0, 1];
    assert bs[..2] == len;
    assert FromBigEndian(len) == 1 by {
      assert len[..1] == [0] && len[..1][..0] == [];
    }
    var body: seq<byte> := [0];
    assert bs[2..3] == body;
    var units: seq<ModifiedUtf8.CodeUnit> := [0];
    var noUnits: seq<ModifiedUtf8.CodeUnit> := [];
    assert ModifiedUtf8.DecodeUnits(body) == Some(units) by {
      var noBytes: seq<byte> := [];
      assert body[1..] == noBytes;
      assert ModifiedUtf8.DecodeUnits(noBytes) == Some(noUnits);
      assert [body[0] as ModifiedUtf8.CodeUnit] + noUnits == units;
    }
    assert ModifiedUtf8.FromUtf16(units) == Some("\0") by {
      assert units[1..] == noUnits;
      assert ModifiedUtf8.FromUtf16(noUnits) == Some([]);
      var noChars: string := [];
      assert [units[0] as char] + noChars == "\0";
    }
    assert ReadUtf(bs) == Ok(("\0", 3));
    assert DecodeHeader(bs).Ok?;
    assert '\0' in "\0";
  }

  /** A sender that stops early is not noticed: on a connection nobody
      cancels and no I/O error interrupts, the receiver reports the file as
      received, and the file holds just the bytes that arrived. */
  lemma TruncationIsReportedAsSuccess(saveDir: string, h: Header, sent: seq<byte>, grants: seq<nat>, s: Session)
    requires InLong(h.fileSize) && EncodeHeader(h).Ok?
    requires |sent| < h.fileSize
    requires Paths.Get(saveDir, h.fileName).Some?
    requires SessionOf(saveDir, Connection(Stream(EncodeHeader(h).value + sent, grants), true, [], None), s)
    ensures s.Received? && s.header == h && s.content == sent
  {
    DecodeOfEncodeHeader(h, sent);
    var w := EncodeHeader(h).value;
    assert (w + sent)[|w|..] == sent;
  }

  /** The sender's name reaches the file system unchanged: "../" in it walks
      out of the save directory. */
  lemma NameIsNotSanitised(saveDir: string, name: string)
    requires saveDir != "" && name != ""
    requires Paths.Valid(saveDir) && Paths.Valid(name)
    ensures Paths.Get(saveDir, name).Some?
    ensures Paths.Get(saveDir, name).value.segments == Paths.Parse(saveDir).segments + Paths.Parse(name).segments
  {
    Paths.GetKeepsElements(saveDir, name);
  }
}
