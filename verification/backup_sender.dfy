/** The older windowed sender kept in src/backup/FileSender.java: its own
    copies of the configuration constants, the same header and chunk loop as
    the network sender with the progress rule written with literals, a port
    field that falls back to the default port, and a copy of the discovery
    client. The window itself is not modelled; the selected file and the
    text fields are parameters. */
module BackupSender {
  import opened Wrappers
  import opened JavaText
  import opened Bytes
  import opened ByteStream
  import opened Progress
  import opened TransferHeader
  import FileSender
  import PeerDiscovery

  /** The class's own constants (src/backup/FileSender.java:16-18) and the
      literals of its worker (src/backup/FileSender.java:234, 247). */
  const DefaultPort: int := 5050
  const DiscoveryPort: int := 8888
  const LiteralBuffer: int := 4096
  const LiteralPercent: int := 5
  const LiteralBytes: int := 262144

  /** The emission test as this copy writes it. */
  predicate LiteralFires(fileSize: int, total: int, last: int)
    requires fileSize > 0
  {
    total * 100 / fileSize > last + LiteralPercent
    || total - last * fileSize / 100 > LiteralBytes
  }

  function LiteralStep(fileSize: int, t: Tracker, n: nat): Tracker
    requires fileSize > 0
  {
    var total := t.total + n;
    var current := total * 100 / fileSize;
    if LiteralFires(fileSize, total, t.last) then Tracker(total, current, t.emitted + [current])
    else Tracker(total, t.last, t.emitted)
  }

  function LiteralRun(fileSize: int, chunks: seq<nat>): Tracker
    requires fileSize > 0 || |chunks| == 0
  {
    if |chunks| == 0 then Start
    else LiteralStep(fileSize, LiteralRun(fileSize, chunks[..|chunks| - 1]), chunks[|chunks| - 1])
  }

  /** The copied constants agree with the configuration, so the copy emits
      exactly what the shared progress rule emits. */
  lemma {:induction false} LiteralRuleIsProgressRule(fileSize: int, chunks: seq<nat>)
    requires fileSize > 0
    ensures DefaultPort == PeerDiscovery.DefaultPort && DiscoveryPort == PeerDiscovery.DiscoveryPort
    ensures LiteralBuffer == BufferSize
    ensures LiteralRun(fileSize, chunks) == Run(fileSize, chunks)
    decreases |chunks|
  {
    if |chunks| > 0 {
      LiteralRuleIsProgressRule(fileSize, chunks[..|chunks| - 1]);
    }
  }

  /** How the worker ends. `PortRejected` is the `IllegalArgumentException`
      of a socket asked for a port outside 0..65535, and `Crashed` the
      `ArithmeticException` of a zero size; neither is an `IOException`, so
      the worker ends without a message. */
  datatype Status = Sent | Failed(failure: FileSender.Failure) | Crashed | PortRejected

  /** The bytes put on the wire, the percentages published, and the ending. */
  datatype WorkerReport = WorkerReport(wire: seq<byte>, progress: seq<int>, status: Status)

  /** `FileSenderWorker.doInBackground` (src/backup/FileSender.java:212-262). */
  method Worker(f: FileSender.LocalFile, port: int, env: FileSender.Env) returns (w: WorkerReport)
    requires 0 <= f.length && InLong(f.length)
    ensures !FileSender.PortInRange(port) ==> w == WorkerReport([], [], PortRejected)
    ensures w.status == Sent <==>
      && FileSender.PortInRange(port) && env.connects && env.opens
      && EncodeHeader(Header(f.name, f.length)).Ok?
      && !FileSender.BreaksInHeader(env.headerBreak, EncodeHeader(Header(f.name, f.length)).value)
      && (env.failAt.None? || env.failAt.value >= |ReadSizes(f.content, BufferSize)|)
      && !(f.length == 0 && |f.content.data| > 0)
    ensures w.status == Crashed ==> f.length == 0 && |f.content.data| > 0
    ensures w.status == Sent ==> w.wire == EncodeHeader(Header(f.name, f.length)).value + f.content.data
    ensures FileSender.PortInRange(port) && env.connects && env.opens && EncodeHeader(Header(f.name, f.length)).Ok?
            && FileSender.BreaksInHeader(env.headerBreak, EncodeHeader(Header(f.name, f.length)).value) ==>
      w == WorkerReport(EncodeHeader(Header(f.name, f.length)).value[..env.headerBreak.value], [],
                        Failed(FileSender.HeaderBroken))
    ensures w.wire != [] ==>
      EncodeHeader(Header(f.name, f.length)).Ok?
      && w.wire <= EncodeHeader(Header(f.name, f.length)).value + f.content.data
    ensures w.wire != [] && w.status != Failed(FileSender.HeaderBroken) ==>
      EncodeHeader(Header(f.name, f.length)).Ok?
      && var head := EncodeHeader(Header(f.name, f.length)).value;
         |head| <= |w.wire| && w.wire[..|head|] == head && w.wire[|head|..] <= f.content.data
    ensures f.length == |f.content.data| ==> NonDecreasing(w.progress) && WithinPercent(w.progress)
  {
    if !FileSender.PortInRange(port) {
      return WorkerReport([], [], PortRejected);
    }
    if !env.connects {
      return WorkerReport([], [], Failed(FileSender.ConnectFailed));
    }
    if !env.opens {
      return WorkerReport([], [], Failed(FileSender.OpenFailed));
    }
    match EncodeHeader(Header(f.name, f.length)) {
      case Err(e) =>
        w := WorkerReport([], [], Failed(FileSender.HeaderFailed(e)));
      case Ok(head) =>
        if FileSender.BreaksInHeader(env.headerBreak, head) {
          var sent := head[..env.headerBreak.value];
          assert sent <= head + f.content.data;
          return WorkerReport(sent, [], Failed(FileSender.HeaderBroken));
        }
        var c := FileSender.SendChunks(f.content, f.length, env.failAt, true);
        var published: seq<int> := [];
        if f.length > 0 {
          LiteralRuleIsProgressRule(f.length, c.chunks);
          published := LiteralRun(f.length, c.chunks).emitted;
          if f.length == |f.content.data| {
            EmissionsAreMonotonePercentages(f.length, c.chunks);
          }
        }
        var wire := head + c.wire;
        assert wire[..|head|] == head && wire[|head|..] == c.wire;
        assert wire <= head + f.content.data;
        var status := match c.end
          case Finished => Sent
          case IoFailed => Failed(FileSender.TransferFailed)
          case DivideByZero => Crashed;
        w := WorkerReport(wire, published, status);
    }
  }

  /** What the send button does. */
  datatype SendOutcome =
    | NoFileSelected
    | Launched(ipAddress: string, port: int, portFellBack: bool, report: WorkerReport)

  /** `sendFile()` (src/backup/FileSender.java:158-182): without a selected
      file nothing happens; otherwise the address field is trimmed and the
      port field parsed, a field that does not parse as an `int` giving the
      default port with a warning. */
  method SendFile(selected: Option<FileSender.LocalFile>, ipText: string, portText: string, env: FileSender.Env)
    returns (o: SendOutcome)
    requires selected.Some? ==> 0 <= selected.value.length && InLong(selected.value.length)
    ensures selected.None? <==> o.NoFileSelected?
    ensures o.Launched? ==> o.ipAddress == Trim(ipText)
    ensures o.Launched? ==> (o.portFellBack <==> ParseInt(Trim(portText)).None?)
    ensures o.Launched? && ParseInt(Trim(portText)).Some? ==> o.port == ParseInt(Trim(portText)).value
    ensures o.Launched? && ParseInt(Trim(portText)).None? ==> o.port == DefaultPort
  {
    if selected.None? {
      return NoFileSelected;
    }
    var ip := Trim(ipText);
    var port := PeerDiscovery.PortOrDefault(Trim(portText));
    var report := Worker(selected.value, port, env);
    o := Launched(ip, port, ParseInt(Trim(portText)).None?, report);
  }

  /** An empty or non-numeric port field silently means port 5050. */
  lemma BlankPortFieldMeansDefault(portText: string)
    requires Blank(portText)
    ensures ParseInt(Trim(portText)).None?
    ensures PeerDiscovery.PortOrDefault(Trim(portText)) == DefaultPort
  {
  }

  /** `DeviceDiscoveryWorker.doInBackground` with `searchDevices`
      (src/backup/FileSender.java:282-294, 331-400): the same protocol as
      the network version. When the datagram socket cannot be created the
      cleared list stays empty and nothing is sent. */
  method SearchDevices(previous: seq<PeerDiscovery.Device>, socketOk: bool, replies: seq<PeerDiscovery.Datagram>)
    returns (probes: seq<PeerDiscovery.Datagram>, devices: seq<PeerDiscovery.Device>)
    ensures socketOk ==>
      probes == [PeerDiscovery.Datagram(PeerDiscovery.Endpoint("255.255.255.255", DiscoveryPort), "FILEBEAM_DISCOVERY")]
    ensures socketOk ==> devices == PeerDiscovery.Accepted(replies)
    ensures !socketOk ==> probes == [] && devices == []
  {
    var probe, found, _ := PeerDiscovery.SearchDevices(previous, socketOk, replies);
    probes := if probe.Some? then [probe.value] else [];
    devices := found;
  }
}
