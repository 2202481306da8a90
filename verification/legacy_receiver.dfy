/** The first, console receiver (src/FileReceiver.java): the same header and
    bounded copy loop as the worker, on the fixed port 5050, with no
    cancellation and no progress callback, serving connections for ever. */
module LegacyReceiver {
  import opened Wrappers
  import opened JavaText
  import opened Bytes
  import opened ByteStream
  import opened TransferHeader
  import Paths
  import FileReceiver

  /** `PORT` (src/FileReceiver.java:10), the same number as `DEFAULT_PORT`. */
  const Port: int := 5050

  /** An incoming connection: the bytes sent, whether the destination file
      can be created, and whether an `IOException` interrupts the payload. */
  datatype Incoming = Incoming(stream: Stream, canCreate: bool, fault: Option<FileReceiver.Fault>)

  /** The connection as the shared receiving code sees it: never cancelled. */
  function AsConnection(c: Incoming): FileReceiver.Connection {
    FileReceiver.Connection(c.stream, c.canCreate, [], c.fault)
  }

  /** `ServerError` is "Server error" on a failed bind; `Crashed` is the
      `InvalidPathException` that leaves `startReceiving` by throwing. */
  datatype Outcome = ServerError | Served(sessions: seq<FileReceiver.Session>) | Crashed(sessions: seq<FileReceiver.Session>)

  /** `startReceiving` (src/FileReceiver.java:30-95) over the connections that
      arrive. A failure to bind ends it at once. After that every connection
      gets its own session, and a failing one (`IOException`, caught inside
      `while (true)`) does not stop the next. A name holding NUL makes
      `Paths.get` throw an exception neither catch handles, so that
      connection is the last one served. */
  method StartReceiving(saveDir: string, bindOk: bool, conns: seq<Incoming>) returns (r: Outcome)
    ensures !bindOk <==> r == ServerError
    ensures r.Served? ==> |r.sessions| == |conns|
    ensures r.Crashed? ==> 1 <= |r.sessions| <= |conns| && r.sessions[|r.sessions| - 1].BadName?
    ensures !r.ServerError? ==> |r.sessions| <= |conns|
    ensures !r.ServerError? ==> forall i :: 0 <= i < |r.sessions| ==>
      FileReceiver.SessionOf(saveDir, AsConnection(conns[i]), r.sessions[i]) && !r.sessions[i].Interrupted?
    ensures !r.ServerError? ==> forall i :: 0 <= i < |r.sessions| ==>
      r.sessions[i].BadName? ==> r.Crashed? && i == |r.sessions| - 1
  {
    if !bindOk {
      return ServerError;
    }
    var sessions: seq<FileReceiver.Session> := [];
    for i := 0 to |conns|
      invariant |sessions| == i
      invariant forall j :: 0 <= j < i ==>
        FileReceiver.SessionOf(saveDir, AsConnection(conns[j]), sessions[j])
        && !sessions[j].Interrupted? && !sessions[j].BadName?
    {
      var s := FileReceiver.ReceiveOne(saveDir, AsConnection(conns[i]));
      sessions := sessions + [s];
      if s.BadName? {
        return Crashed(sessions);
      }
    }
    return Served(sessions);
  }
}
