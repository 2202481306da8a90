/** The sending side of a transfer (src/network/FileSender.java): the
    header, then the file in chunks of at most `BufferSize` bytes, in file
    order, with the progress rule after each chunk, then a history record. */
module FileSender {
  import opened Wrappers
  import opened JavaText
  import opened Bytes
  import opened ByteStream
  import opened Progress
  import opened TransferHeader
  import TransferRecord
  import TransferHistory

  /** A file as the sender sees it: its name, the size `length()` reports and
      its content as reading it yields. The two sizes agree unless the file
      changes between the calls. */
  datatype LocalFile = LocalFile(name: string, length: int, content: Stream)

  /** What the environment does: whether the socket connects, whether the
      file opens, whether the connection breaks while the header is written
      (after `headerBreak` of its bytes went out; a value at or past the
      header's length is no break inside it), and at which chunk (counting
      from 0) a read or write of the payload fails, if any. */
  datatype Env = Env(connects: bool, opens: bool, headerBreak: Option<nat>, failAt: Option<nat>)

  /** The `IOException` of `writeUTF` or `writeLong` on a broken
      connection: it strikes before the whole header is out. */
  predicate BreaksInHeader(headerBreak: Option<nat>, head: seq<byte>) {
    headerBreak.Some? && headerBreak.value < |head|
  }

  /** How the chunk loop ends: the file ran out, an `IOException`, or the
      `ArithmeticException` of a division by a zero size. */
  datatype LoopEnd = Finished | IoFailed | DivideByZero

  datatype Chunked = Chunked(wire: seq<byte>, chunks: seq<nat>, tracker: Tracker, end: LoopEnd)

  /** The chunk loop (src/network/FileSender.java:105-124, and without the
      progress rule src/FileSender.java:45-53). With `track` the progress
      rule runs after every chunk has been written; its division by
      `fileSize` throws when the size is 0. */
  method SendChunks(content: Stream, fileSize: int, failAt: Option<nat>, track: bool) returns (r: Chunked)
    requires fileSize >= 0
    ensures |r.wire| <= |content.data| && r.wire == content.data[..|r.wire|]
    ensures Sum(r.chunks) == |r.wire|
    ensures forall i :: 0 <= i < |r.chunks| ==> 1 <= r.chunks[i] <= BufferSize
    ensures r.end == Finished ==> r.wire == content.data
    ensures r.end == Finished <==>
      (failAt.None? || failAt.value >= |ReadSizes(content, BufferSize)|)
      && !(track && fileSize == 0 && |content.data| > 0)
    ensures r.end == IoFailed ==> failAt == Some(|r.chunks|) && |r.wire| < |content.data|
    ensures r.end == DivideByZero <==> track && fileSize == 0 && |content.data| > 0 && failAt != Some(0)
    ensures r.end == DivideByZero ==> |r.chunks| == 1
    ensures track && fileSize > 0 ==> r.tracker == Run(fileSize, r.chunks)
  {
    if track && fileSize == 0 {
      // The first chunk is written, then the percentage divides by zero.
      var res, next := ReadOnce(content, BufferSize);
      if res.Eof? {
        r := Chunked([], [], Start, Finished);
      } else if failAt == Some(0) {
        r := Chunked([], [], Start, IoFailed);
      } else {
        assert content.data[..|res.bytes|] == res.bytes;
        assert Sum([|res.bytes|]) == |res.bytes| by {
          assert [|res.bytes|][..0] == [];
        }
        r := Chunked(res.bytes, [|res.bytes|], Start, DivideByZero);
      }
      return;
    }
    var wire, chunks, ok := ChunkLoop(content, failAt);
    // The progress bookkeeping depends on the chunk sizes alone.
    var t := if track then Run(fileSize, chunks) else Start;
    r := Chunked(wire, chunks, t, if ok then Finished else IoFailed);
  }

  /** The loop itself, moving the bytes until the file runs out or a read or
      write fails. */
  method ChunkLoop(content: Stream, failAt: Option<nat>) returns (wire: seq<byte>, chunks: seq<nat>, ok: bool)
    ensures |wire| <= |content.data| && wire == content.data[..|wire|]
    ensures Sum(chunks) == |wire|
    ensures forall i :: 0 <= i < |chunks| ==> 1 <= chunks[i] <= BufferSize
    ensures ok <==> failAt.None? || failAt.value >= |ReadSizes(content, BufferSize)|
    ensures ok ==> wire == content.data
    ensures !ok ==> failAt == Some(|chunks|) && |wire| < |content.data|
  {
    var s := content;
    wire := [];
    chunks := [];
    ghost var sizes := ReadSizes(content, BufferSize);
    while true
      invariant Sending(content, failAt, sizes, wire, chunks, s)
      decreases |s.data|
    {
      var res, next := ReadOnce(s, BufferSize);
      if res.Eof? {
        RanOut(content, failAt, sizes, wire, chunks, s);
        return wire, chunks, true;
      }
      var bytes := res.bytes;
      if failAt == Some(|chunks|) {
        Stopped(content, failAt, sizes, wire, chunks, s, |bytes|, next);
        return wire, chunks, false;
      }
      ChunkStep(content, failAt, sizes, wire, chunks, s, bytes, next);
      wire := wire + bytes;
      chunks := chunks + [|bytes|];
      s := next;
    }
  }

  /** The chunk loop's invariant: the bytes sent are a prefix of the file,
      the stream holds the rest, the chunks add up and are bounded, none of
      them failed, and they begin the run of read sizes. */
  predicate Sending(content: Stream, failAt: Option<nat>, sizes: seq<nat>, wire: seq<byte>, chunks: seq<nat>, s: Stream) {
    && |wire| <= |content.data| && wire == content.data[..|wire|]
    && s.data == content.data[|wire|..]
    && Sum(chunks) == |wire|
    && (forall i :: 0 <= i < |chunks| ==> 1 <= chunks[i] <= BufferSize)
    && (forall k :: 0 <= k < |chunks| ==> failAt != Some(k))
    && sizes == chunks + ReadSizes(s, BufferSize)
  }

  /** The file ran out: everything was sent and no chunk failed. */
  lemma RanOut(content: Stream, failAt: Option<nat>, sizes: seq<nat>, wire: seq<byte>, chunks: seq<nat>, s: Stream)
    requires Sending(content, failAt, sizes, wire, chunks, s)
    requires ReadSizes(s, BufferSize) == [] && |s.data| == 0
    ensures chunks == sizes && wire == content.data
    ensures failAt.None? || failAt.value >= |sizes|
  {
    assert chunks + [] == chunks;
  }

  /** The chunk about to go out fails: some of the file is left. */
  lemma Stopped(content: Stream, failAt: Option<nat>, sizes: seq<nat>, wire: seq<byte>, chunks: seq<nat>, s: Stream,
                n: nat, next: Stream)
    requires Sending(content, failAt, sizes, wire, chunks, s)
    requires ReadSizes(s, BufferSize) == [n] + ReadSizes(next, BufferSize) && n >= 1
    requires s.data != [] && failAt == Some(|chunks|)
    ensures failAt.value < |sizes| && |wire| < |content.data|
  {
  }

  /** The loop invariant survives writing one more chunk. */
  lemma ChunkStep(content: Stream, failAt: Option<nat>, sizes: seq<nat>, wire: seq<byte>, chunks: seq<nat>, s: Stream,
                  bytes: seq<byte>, next: Stream)
    requires Sending(content, failAt, sizes, wire, chunks, s)
    requires s.data == bytes + next.data
    requires ReadSizes(s, BufferSize) == [|bytes|] + ReadSizes(next, BufferSize)
    requires 1 <= |bytes| <= BufferSize && failAt != Some(|chunks|)
    ensures Sending(content, failAt, sizes, wire + bytes, chunks + [|bytes|], next)
  {
    PrefixStep(content.data, wire, bytes, next.data);
    CountStep(chunks, |bytes|, failAt);
    Regroup(chunks, |bytes|, ReadSizes(next, BufferSize));
  }

  lemma Regroup(done: seq<nat>, n: nat, rest: seq<nat>)
    ensures done + ([n] + rest) == (done + [n]) + rest
  {
  }

  /** Sending the next bytes of the file keeps the sent part a prefix. */
  lemma PrefixStep(data: seq<byte>, wire: seq<byte>, bytes: seq<byte>, rest: seq<byte>)
    requires |wire| <= |data| && wire == data[..|wire|]
    requires data[|wire|..] == bytes + rest
    ensures |wire + bytes| <= |data| && wire + bytes == data[..|wire + bytes|]
    ensures rest == data[|wire + bytes|..]
  {
    assert data[..|wire| + |bytes|] == data[..|wire|] + data[|wire|..][..|bytes|];
  }

  /** One more chunk of `n` bytes adds `n` to the sum and keeps the bounds. */
  lemma CountStep(chunks: seq<nat>, n: nat, failAt: Option<nat>)
    requires forall i :: 0 <= i < |chunks| ==> 1 <= chunks[i] <= BufferSize
    requires forall k :: 0 <= k < |chunks| ==> failAt != Some(k)
    requires 1 <= n <= BufferSize && failAt != Some(|chunks|)
    ensures Sum(chunks + [n]) == Sum(chunks) + n
    ensures forall i :: 0 <= i < |chunks + [n]| ==> 1 <= (chunks + [n])[i] <= BufferSize
    ensures forall k :: 0 <= k < |chunks + [n]| ==> failAt != Some(k)
  {
    assert (chunks + [n])[..|chunks|] == chunks;
  }

  /** Why a send failed: the connection, the file, a name too long for
      `writeUTF`, a connection that broke inside the header, or an
      `IOException` in the chunk loop. */
  datatype Failure = ConnectFailed | OpenFailed | HeaderFailed(error: HeaderError) | HeaderBroken | TransferFailed

  /** `Delivered` is "File sent successfully!", `Failed` the single "Error
      sending file" message, `Crashed` the `ArithmeticException` that leaves
      the worker without any message, and `PortRejected` the
      `IllegalArgumentException` of a socket asked for a port outside
      0..65535, which escapes the same way. */
  datatype Status = Delivered | Failed(failure: Failure) | Crashed | PortRejected

  /** The ports `new Socket(host, port)` accepts. */
  predicate PortInRange(port: int) { 0 <= port <= 0xFFFF }

  /** What one send did: the bytes put on the connection, the values handed
      to the progress callback (the last is `done()`'s reset to 0), the
      history afterwards with the notifications it sent, and the outcome. */
  datatype Report = Report(
    wire: seq<byte>,
    progress: seq<int>,
    history: Option<TransferHistory.Manager>,
    notified: seq<TransferHistory.Notification>,
    status: Status)

  /** The worker (src/network/FileSender.java:83-154). The port comes from a
      text field or a discovery reply, so any `int` can arrive. */
  method SendFile(f: LocalFile, port: int, env: Env, history: Option<TransferHistory.Manager>, now: int)
    returns (r: Report)
    requires 0 <= f.length && InLong(f.length)
    ensures |r.progress| >= 1 && r.progress[|r.progress| - 1] == 0
    ensures !PortInRange(port) ==> r.status == PortRejected && r.wire == [] && r.progress == [0]
    ensures PortInRange(port) ==> Transmitted(f, env, r.wire, r.progress[..|r.progress| - 1], r.status)
    // The history gets exactly one record, only on success, only if there is a manager.
    ensures r.status == Delivered && history.Some? ==>
      var c := TransferHistory.AddRecord(history.value, TransferRecord.Create(f.name, f.length, TransferRecord.Sent, now));
      r.history == Some(c.manager) && r.notified == c.notified
    ensures r.status != Delivered || history.None? ==> r.history == history && r.notified == []
  {
    if !PortInRange(port) {
      return Report([], [0], history, [], PortRejected);
    }
    var wire, emitted, status := Transmit(f, env);
    if status == Delivered && history.Some? {
      var change := TransferHistory.AddRecord(history.value, TransferRecord.Create(f.name, f.length, TransferRecord.Sent, now));
      r := Report(wire, emitted + [0], Some(change.manager), change.notified, status);
    } else {
      r := Report(wire, emitted + [0], history, [], status);
    }
    assert r.progress[..|r.progress| - 1] == emitted;
  }

  /** What the `try` block of the worker does once the port is acceptable,
      as the bytes on the wire, the percentages published and the outcome:
      - a failed connection, file open or too-long name sends nothing and
        publishes nothing;
      - a connection breaking inside `writeUTF`/`writeLong` leaves a strict
        prefix of the header and publishes nothing;
      - otherwise the whole header goes first and file bytes follow in
        order, all of them exactly when the transfer is delivered, which
        happens exactly when no chunk fails and no zero size is divided by;
      - an empty file publishes nothing, and with an honest size the
        percentages climb within 0..100. */
  ghost predicate Transmitted(f: LocalFile, env: Env, wire: seq<byte>, emitted: seq<int>, status: Status)
    requires 0 <= f.length && InLong(f.length)
  {
    var enc := EncodeHeader(Header(f.name, f.length));
    && (status.Delivered? || status.Failed? || status.Crashed?)
    && (status == Delivered <==>
          && env.connects && env.opens && enc.Ok?
          && !BreaksInHeader(env.headerBreak, enc.value)
          && (env.failAt.None? || env.failAt.value >= |ReadSizes(f.content, BufferSize)|)
          && !(f.length == 0 && |f.content.data| > 0))
    && (!env.connects ==> status == Failed(ConnectFailed) && wire == [] && emitted == [])
    && (env.connects && !env.opens ==> status == Failed(OpenFailed) && wire == [] && emitted == [])
    && (env.connects && env.opens && enc.Err? ==>
          status == Failed(HeaderFailed(NameTooLong)) && wire == [] && emitted == [])
    && (env.connects && env.opens && enc.Ok? && BreaksInHeader(env.headerBreak, enc.value) ==>
          status == Failed(HeaderBroken) && emitted == [] && wire == enc.value[..env.headerBreak.value])
    && (wire != [] ==> enc.Ok? && wire <= enc.value + f.content.data)
    && (wire != [] && status != Failed(HeaderBroken) ==>
          enc.Ok? && |enc.value| <= |wire| && wire[..|enc.value|] == enc.value
          && wire[|enc.value|..] <= f.content.data)
    && (status == Delivered ==> wire == enc.value + f.content.data)
    && (status == Crashed ==> f.length == 0 && |f.content.data| > 0)
    && (f.length == 0 ==> emitted == [])
    && (f.length == |f.content.data| ==> NonDecreasing(emitted) && WithinPercent(emitted))
  }

  /** The `try` block once the port is acceptable: connect, open the file,
      write the header, then the chunk loop. */
  method Transmit(f: LocalFile, env: Env) returns (wire: seq<byte>, emitted: seq<int>, status: Status)
    requires 0 <= f.length && InLong(f.length)
    ensures Transmitted(f, env, wire, emitted, status)
  {
    wire, emitted := [], [];
    if !env.connects {
      return wire, emitted, Failed(ConnectFailed);
    }
    if !env.opens {
      return wire, emitted, Failed(OpenFailed);
    }
    match EncodeHeader(Header(f.name, f.length)) {
      case Err(e) =>
        status := Failed(HeaderFailed(NameTooLong));
      case Ok(head) =>
        if BreaksInHeader(env.headerBreak, head) {
          wire := head[..env.headerBreak.value];
          assert wire <= head + f.content.data;
          return wire, emitted, Failed(HeaderBroken);
        }
        wire, emitted, status := Deliver(f, head, env.failAt);
    }
  }

  /** The header written, then the chunk loop with the progress rule: the
      bytes on the wire, the percentages published and how it ended. */
  method Deliver(f: LocalFile, head: seq<byte>, failAt: Option<nat>)
    returns (wire: seq<byte>, emitted: seq<int>, status: Status)
    requires 0 <= f.length
    ensures status == Delivered || status == Failed(TransferFailed) || status == Crashed
    ensures status == Delivered <==>
      (failAt.None? || failAt.value >= |ReadSizes(f.content, BufferSize)|)
      && !(f.length == 0 && |f.content.data| > 0)
    ensures |head| <= |wire| && wire[..|head|] == head && wire[|head|..] <= f.content.data
    ensures wire <= head + f.content.data
    ensures status == Delivered ==> wire == head + f.content.data
    ensures status == Crashed ==> f.length == 0 && |f.content.data| > 0
    ensures f.length == 0 ==> emitted == []
    ensures f.length == |f.content.data| ==> NonDecreasing(emitted) && WithinPercent(emitted)
  {
    var c := SendChunks(f.content, f.length, failAt, true);
    emitted := if f.length > 0 then c.tracker.emitted else [];
    if f.length > 0 && f.length == |f.content.data| {
      assert emitted == Emissions(f.length, c.chunks);
      EmissionsAreMonotonePercentages(f.length, c.chunks);
    }
    status := match c.end
      case Finished => Delivered
      case IoFailed => Failed(TransferFailed)
      case DivideByZero => Crashed;
    wire := head + c.wire;
    assert wire[..|head|] == head && wire[|head|..] == c.wire;
  }

  /** An empty file reported as empty sends just the header: the loop is
      never entered, so there is no division. */
  method EmptyFileSendsHeaderOnly(name: string, port: int, env: Env, now: int) returns (r: Report)
    requires PortInRange(port) && env.connects && env.opens && env.headerBreak.None?
    requires EncodeHeader(Header(name, 0)).Ok?
    ensures r.status == Delivered
    ensures r.wire == EncodeHeader(Header(name, 0)).value
    ensures r.progress == [0]
  {
    var empty := Stream([], []);
    assert ReadSizes(empty, BufferSize) == [];
    r := SendFile(LocalFile(name, 0, empty), port, env, None, now);
    assert r.wire == EncodeHeader(Header(name, 0)).value + [];
  }
}
