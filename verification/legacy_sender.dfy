/** The first command-line sender (src/FileSender.java): a file chooser, then
    the same header and chunk loop as the network sender, without progress,
    history or a worker thread. The file chooser is a parameter: the file the
    user approved, or a cancelled dialog. */
module LegacySender {
  import opened JavaText
  import opened Bytes
  import opened ByteStream
  import opened Progress
  import opened TransferHeader
  import FileSender

  /** `PORT` (src/FileSender.java:9): the only port this sender connects to. */
  const Port: int := 5050

  datatype Choice = Approved(file: FileSender.LocalFile) | Cancelled

  /** No connection at all, or one attempt on `port` with the bytes it put
      on the wire and how it ended. */
  datatype Outcome =
    | SelectionCancelled
    | Attempted(port: int, wire: seq<byte>, status: FileSender.Status)

  /** `sendFile(ipAddress)` (src/FileSender.java:16-65). An `IOException` is
      printed and swallowed, so every failure ends the call normally. */
  method SendFile(choice: Choice, env: FileSender.Env) returns (o: Outcome)
    requires choice.Approved? ==> 0 <= choice.file.length && InLong(choice.file.length)
    ensures choice.Cancelled? <==> o.SelectionCancelled?
    ensures o.Attempted? ==> o.port == Port
    // Without the progress rule there is no division, so no crash.
    ensures o.Attempted? ==> o.status != FileSender.Crashed
    ensures o.Attempted? ==>
      var f := choice.file;
      && (o.status == FileSender.Delivered <==>
           env.connects && env.opens && EncodeHeader(Header(f.name, f.length)).Ok?
           && !FileSender.BreaksInHeader(env.headerBreak, EncodeHeader(Header(f.name, f.length)).value)
           && (env.failAt.None? || env.failAt.value >= |ReadSizes(f.content, BufferSize)|))
      && (!env.connects ==> o.status == FileSender.Failed(FileSender.ConnectFailed) && o.wire == [])
      && (env.connects && !env.opens ==> o.status == FileSender.Failed(FileSender.OpenFailed) && o.wire == [])
      && (o.status == FileSender.Delivered ==>
           o.wire == EncodeHeader(Header(f.name, f.length)).value + f.content.data)
    // A connection breaking inside the header leaves part of it on the wire.
    ensures o.Attempted? ==>
      var f := choice.file;
      env.connects && env.opens && EncodeHeader(Header(f.name, f.length)).Ok?
      && FileSender.BreaksInHeader(env.headerBreak, EncodeHeader(Header(f.name, f.length)).value) ==>
        o.status == FileSender.Failed(FileSender.HeaderBroken)
        && o.wire == EncodeHeader(Header(f.name, f.length)).value[..env.headerBreak.value]
    // The wire carries a prefix of header then file; once any file byte can
    // follow, the whole header went first.
    ensures o.Attempted? && o.wire != [] ==>
      var f := choice.file;
      EncodeHeader(Header(f.name, f.length)).Ok?
      && o.wire <= EncodeHeader(Header(f.name, f.length)).value + f.content.data
    ensures o.Attempted? && o.wire != [] && o.status != FileSender.Failed(FileSender.HeaderBroken) ==>
      var f := choice.file;
      EncodeHeader(Header(f.name, f.length)).Ok?
      && var head := EncodeHeader(Header(f.name, f.length)).value;
         |head| <= |o.wire| && o.wire[..|head|] == head && o.wire[|head|..] <= f.content.data
  {
    if choice.Cancelled? {
      return SelectionCancelled;
    }
    var f := choice.file;
    if !env.connects {
      return Attempted(Port, [], FileSender.Failed(FileSender.ConnectFailed));
    }
    if !env.opens {
      return Attempted(Port, [], FileSender.Failed(FileSender.OpenFailed));
    }
    match EncodeHeader(Header(f.name, f.length)) {
      case Err(e) =>
        o := Attempted(Port, [], FileSender.Failed(FileSender.HeaderFailed(e)));
      case Ok(head) =>
        if FileSender.BreaksInHeader(env.headerBreak, head) {
          var sent := head[..env.headerBreak.value];
          assert sent <= head + f.content.data;
          return Attempted(Port, sent, FileSender.Failed(FileSender.HeaderBroken));
        }
        var c := FileSender.SendChunks(f.content, f.length, env.failAt, false);
        var wire := head + c.wire;
        assert wire[..|head|] == head && wire[|head|..] == c.wire;
        assert wire <= head + f.content.data;
        var status := if c.end == FileSender.Finished then FileSender.Delivered
                      else FileSender.Failed(FileSender.TransferFailed);
        o := Attempted(Port, wire, status);
    }
  }

  /** A file that reports size 0 but has content is sent whole: without the
      progress rule nothing divides by the size. The receiver then reads a
      header saying 0 and leaves all of it unread. */
  method ZeroLengthStillSendsContent(name: string, content: Stream, env: FileSender.Env) returns (o: Outcome)
    requires env.connects && env.opens && env.headerBreak.None? && env.failAt.None?
    requires EncodeHeader(Header(name, 0)).Ok?
    ensures o.Attempted? && o.status == FileSender.Delivered
    ensures o.wire == EncodeHeader(Header(name, 0)).value + content.data
  {
    o := SendFile(Approved(FileSender.LocalFile(name, 0, content)), env);
  }
}
