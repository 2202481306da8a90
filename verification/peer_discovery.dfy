/** The UDP discovery protocol (src/network/PeerDiscovery.java, with a copy of
    the sender half in src/backup/FileSender.java): a sender broadcasts the
    request text, every receiver answers with its host name and transfer
    port, and the sender turns the answers into a device list.

    Datagrams carry text; bytes and characters are identified (the texts the
    protocol produces are ASCII). Sockets, timeouts and the worker threads are
    abstracted: a worker's life is the sequence of datagrams it receives. */
module PeerDiscovery {
  import opened Wrappers
  import opened JavaText

  /** `Config.DEFAULT_PORT` (src/utils/Config.java:8). */
  const DefaultPort: int := 5050
  /** `Config.DISCOVERY_PORT` (src/utils/Config.java:10). */
  const DiscoveryPort: int := 8888
  /** `Config.DISCOVERY_REQUEST` (src/utils/Config.java:19). */
  const DiscoveryRequest: string := "FILEBEAM_DISCOVERY"
  const ResponseTag: string := "RECEIVER_AVAILABLE"
  /** `Config.DISCOVERY_RESPONSE_PREFIX` (src/utils/Config.java:20). */
  const ResponsePrefix: string := ResponseTag + "|"
  const BroadcastAddress: string := "255.255.255.255"
  /** Both receive loops read into a 1024-byte buffer. */
  const PacketBuffer: int := 1024

  datatype Endpoint = Endpoint(host: string, port: int)

  /** A datagram with the other side's endpoint: the source of one received,
      the destination of one sent. */
  datatype Datagram = Datagram(peer: Endpoint, text: string)

  /** `ReceiverDevice`: the name from the reply, the address the reply came
      from and the port from the reply. */
  datatype Device = Device(name: string, ipAddress: string, port: int)

  /** The text a receive loop sees: a datagram longer than the buffer is cut
      to the buffer's size. */
  function Received(text: string): (r: string)
    ensures r <= text && |r| <= PacketBuffer
    ensures |text| <= PacketBuffer ==> r == text
  {
    if |text| <= PacketBuffer then text else text[..PacketBuffer]
  }

  // ---------------------------------------------------------------------
  // The receiver's side
  // ---------------------------------------------------------------------

  /** The reply text (src/network/PeerDiscovery.java:179). */
  function EncodeReply(deviceName: string, listeningPort: int): (r: string)
    ensures ResponsePrefix <= r
    ensures r[|ResponsePrefix|..] == deviceName + "|" + ToDecimal(listeningPort)
  {
    var r := ResponsePrefix + deviceName + "|" + ToDecimal(listeningPort);
    assert r == ResponsePrefix + (deviceName + "|" + ToDecimal(listeningPort));
    r
  }

  /** One received datagram (src/network/PeerDiscovery.java:162-188): the
      request text exactly, and nothing else, is answered, to the endpoint
      it came from. */
  function Respond(deviceName: string, listeningPort: int, request: Datagram): (r: Option<Datagram>)
    ensures r.Some? <==> request.text == DiscoveryRequest
    ensures r.Some? ==> r.value == Datagram(request.peer, EncodeReply(deviceName, listeningPort))
  {
    RequestMatchIsExact(request.text);
    if Received(request.text) == DiscoveryRequest then
      Some(Datagram(request.peer, EncodeReply(deviceName, listeningPort)))
    else None
  }

  /** Cutting to the buffer cannot turn a longer datagram into the request:
      the comparison is exact. */
  lemma RequestMatchIsExact(text: string)
    ensures Received(text) == DiscoveryRequest <==> text == DiscoveryRequest
  {
    assert |DiscoveryRequest| == 18;
  }

  /** The answers, in order, to the datagrams one responder receives. */
  function Responses(deviceName: string, listeningPort: int, requests: seq<Datagram>): seq<Datagram> {
    if |requests| == 0 then []
    else
      var last := requests[|requests| - 1];
      Responses(deviceName, listeningPort, requests[..|requests| - 1])
        + match Respond(deviceName, listeningPort, last)
          case Some(reply) => [reply]
          case None => []
  }

  /** The responder loop (src/network/PeerDiscovery.java:152-202), over the
      datagrams it receives before it is cancelled. */
  method ServeRequests(deviceName: string, listeningPort: int, requests: seq<Datagram>)
    returns (replies: seq<Datagram>)
    ensures replies == Responses(deviceName, listeningPort, requests)
    ensures |replies| <= |requests|
    ensures forall i :: 0 <= i < |replies| ==> replies[i].text == EncodeReply(deviceName, listeningPort)
  {
    replies := [];
    var i := 0;
    while i < |requests|
      invariant 0 <= i <= |requests|
      invariant replies == Responses(deviceName, listeningPort, requests[..i])
      invariant |replies| <= i
      invariant forall k :: 0 <= k < |replies| ==> replies[k].text == EncodeReply(deviceName, listeningPort)
    {
      assert requests[..i + 1][..i] == requests[..i];
      match Respond(deviceName, listeningPort, requests[i]) {
        case Some(reply) => replies := replies + [reply];
        case None =>
      }
      i := i + 1;
    }
    assert requests[..i] == requests;
  }

  /** Every answer goes back to an endpoint that asked with the exact request
      text, and every such request is answered. */
  lemma {:induction false} ResponsesAnswerRequests(deviceName: string, listeningPort: int, requests: seq<Datagram>)
    ensures forall r :: r in Responses(deviceName, listeningPort, requests) ==>
      Datagram(r.peer, DiscoveryRequest) in requests
    ensures forall q :: q in requests && q.text == DiscoveryRequest ==>
      Datagram(q.peer, EncodeReply(deviceName, listeningPort)) in Responses(deviceName, listeningPort, requests)
    decreases |requests|
  {
    if |requests| > 0 {
      var init := requests[..|requests| - 1];
      ResponsesAnswerRequests(deviceName, listeningPort, init);
      assert requests == init + [requests[|requests| - 1]];
    }
  }

  // ---------------------------------------------------------------------
  // The sender's side
  // ---------------------------------------------------------------------

  /** The port field: `Integer.parseInt`, or the default port when it does
      not parse. No range check follows. */
  function PortOrDefault(field: string): (r: int)
    ensures ParseInt(field).Some? ==> r == ParseInt(field).value
    ensures ParseInt(field).None? ==> r == DefaultPort
  {
    match ParseInt(field)
    case Some(p) => p
    case None => DefaultPort
  }

  /** One reply as the sender reads it (src/network/PeerDiscovery.java:256-274,
      src/backup/FileSender.java:364-382): it must start with the prefix and
      split into at least three '|'-fields, trailing empty fields dropped.
      The address comes from the datagram, not from the text. */
  function ParseReply(source: string, text: string): (r: Option<Device>)
    ensures r.Some? ==> ResponsePrefix <= text && r.value.ipAddress == source
    ensures !(ResponsePrefix <= text) ==> r.None?
  {
    if !(ResponsePrefix <= text) then None
    else
      var parts := Split(text, '|');
      if |parts| < 3 then None
      else Some(Device(parts[1], source, PortOrDefault(parts[2])))
  }

  lemma NoPipeInDecimal(n: int)
    ensures '|' !in ToDecimal(n)
  {
    var s := ToDecimal(n);
    if n < 0 {
      assert s[1..] == Digits(-n);
      forall i | 1 <= i < |s|
        ensures s[i] != '|'
      {
        assert s[i] == s[1..][i - 1];
      }
    }
  }

  /** The reply text is the three fields joined with '|'. */
  lemma ReplyIsJoin(deviceName: string, listeningPort: int)
    ensures EncodeReply(deviceName, listeningPort) == Join([ResponseTag, deviceName, ToDecimal(listeningPort)], '|')
  {
    JoinOfThree(ResponseTag, deviceName, ToDecimal(listeningPort), '|');
  }

  /** Round trip: the sender reads back the name and port the receiver put in
      its reply, for any `int` port, including ports no socket accepts, and
      any name without '|', the empty name included, as long as the reply
      fits the buffer. */
  lemma ReplyRoundTrip(source: string, deviceName: string, listeningPort: int)
    requires '|' !in deviceName
    requires InInt(listeningPort)
    requires |EncodeReply(deviceName, listeningPort)| <= PacketBuffer
    ensures ParseReply(source, Received(EncodeReply(deviceName, listeningPort)))
      == Some(Device(deviceName, source, listeningPort))
  {
    var dec := ToDecimal(listeningPort);
    var fields := [ResponseTag, deviceName, dec];
    ReplyIsJoin(deviceName, listeningPort);
    NoPipeInDecimal(listeningPort);
    assert '|' !in ResponseTag;
    SplitOfJoin(fields, '|');
    ParseOfToDecimal(listeningPort, IntMin, IntMax);
  }

  /** A '|' in the host name breaks the round trip: "a|b" comes back as the
      name "a", and the port field "b" becomes the default port. */
  lemma PipeInNameBreaksRoundTrip(source: string)
    ensures EncodeReply("a|b", 6000) == Join([ResponseTag, "a", "b", "6000"], '|')
    ensures ParseReply(source, EncodeReply("a|b", 6000)) == Some(Device("a", source, DefaultPort))
  {
    var fields := [ResponseTag, "a", "b", "6000"];
    EncodePipeName();
    assert '|' !in ResponseTag;
    SplitOfJoin(fields, '|');
    LetterIsNoPort();
  }

  lemma EncodePipeName()
    ensures EncodeReply("a|b", 6000) == Join([ResponseTag, "a", "b", "6000"], '|')
  {
    assert ToDecimal(6000) == "6000";
    JoinOfFour(ResponseTag, "a", "b", "6000", '|');
    assert EncodeReply("a|b", 6000) == ResponseTag + "|" + "a|b" + "|" + "6000";
  }

  lemma LetterIsNoPort()
    ensures PortOrDefault("b") == DefaultPort
  {
    assert ParseInt("b").None?;
  }

  /** A port field that is not a decimal `int` does not reject the reply: the
      device gets the default port. */
  lemma NonNumericPortDefaults(source: string, deviceName: string, field: string)
    requires '|' !in deviceName && '|' !in field && field != ""
    requires ParseInt(field).None?
    ensures ParseReply(source, ResponsePrefix + deviceName + "|" + field) == Some(Device(deviceName, source, DefaultPort))
  {
    var fields := [ResponseTag, deviceName, field];
    JoinOfThree(ResponseTag, deviceName, field, '|');
    assert '|' !in ResponseTag;
    SplitOfJoin(fields, '|');
  }

  /** An empty port field is dropped with the trailing empty fields, which
      leaves too few fields: the reply is ignored. */
  lemma EmptyPortFieldIgnored(source: string, deviceName: string)
    requires '|' !in deviceName
    ensures ParseReply(source, ResponsePrefix + deviceName + "|") == None
  {
    var text := ResponsePrefix + deviceName + "|";
    JoinOfThree(ResponseTag, deviceName, "", '|');
    assert '|' !in ResponseTag;
    SplitAllOfJoin([ResponseTag, deviceName, ""], '|');
    assert '|' in text by {
      assert text[|ResponseTag|] == '|';
    }
    var all := SplitAll(text, '|');
    assert text == Join([ResponseTag, deviceName, ""], '|');
    assert all == [ResponseTag, deviceName, ""];
    assert all[..2] == [ResponseTag, deviceName];
    var parts := Split(text, '|');
    if deviceName == "" {
      assert all[..1] == [ResponseTag];
      assert |parts| <= 1;
    } else {
      assert parts == [ResponseTag, deviceName];
    }
  }

  /** The devices the accepted replies describe, in arrival order. */
  function Accepted(replies: seq<Datagram>): seq<Device> {
    if |replies| == 0 then []
    else
      var last := replies[|replies| - 1];
      Accepted(replies[..|replies| - 1])
        + match ParseReply(last.peer.host, Received(last.text))
          case Some(d) => [d]
          case None => []
  }

  /** `searchDevices` with its worker (src/network/PeerDiscovery.java:130-139,
      223-305): the previous list is cleared; when the datagram socket can
      be created and the request sent (`socketOk`), the request goes once to
      the broadcast address and every accepted reply adds one device;
      otherwise the `IOException` skips all of that. `replies` are the
      datagrams received before the window closes or a receive fails. The
      callback gets the list as it stands at the end. */
  method SearchDevices(previous: seq<Device>, socketOk: bool, replies: seq<Datagram>)
    returns (probe: Option<Datagram>, found: seq<Device>, delivered: seq<Device>)
    ensures socketOk ==> probe == Some(Datagram(Endpoint(BroadcastAddress, DiscoveryPort), DiscoveryRequest))
    ensures socketOk ==> found == Accepted(replies)
    ensures !socketOk ==> probe.None? && found == []
    ensures delivered == found
    ensures |found| <= |replies|
  {
    if !socketOk {
      return None, [], [];
    }
    probe := Some(Datagram(Endpoint(BroadcastAddress, DiscoveryPort), DiscoveryRequest));
    found := [];
    var i := 0;
    while i < |replies|
      invariant 0 <= i <= |replies|
      invariant found == Accepted(replies[..i])
      invariant |found| <= i
    {
      assert replies[..i + 1][..i] == replies[..i];
      var reply := replies[i];
      match ParseReply(reply.peer.host, Received(reply.text)) {
        case Some(d) => found := found + [d];
        case None =>
      }
      i := i + 1;
    }
    assert replies[..i] == replies;
    delivered := found;
  }

  /** Replies are handled one after the other: the devices of a longer
      listening window extend those of a shorter one. */
  lemma {:induction false} AcceptedAppend(a: seq<Datagram>, b: seq<Datagram>)
    ensures Accepted(a + b) == Accepted(a) + Accepted(b)
    decreases |b|
  {
    if |b| == 0 {
      assert a + b == a;
    } else {
      var init := b[..|b| - 1];
      assert (a + b)[..|a + b| - 1] == a + init;
      AcceptedAppend(a, init);
    }
  }

  /** No deduplication: the same receiver answering twice is listed twice. */
  lemma RepeatedReplyListedTwice(reply: Datagram)
    requires ParseReply(reply.peer.host, Received(reply.text)).Some?
    ensures |Accepted([reply, reply])| == 2
    ensures Accepted([reply, reply])[0] == Accepted([reply, reply])[1]
  {
    var d := ParseReply(reply.peer.host, Received(reply.text)).value;
    assert [reply, reply][..1] == [reply];
    assert [reply][..0] == [];
    assert Accepted([reply]) == [d];
    assert Accepted([reply, reply]) == [d, d];
  }

  // ---------------------------------------------------------------------
  // The responder's life cycle
  // ---------------------------------------------------------------------

  /** Whether a discovery socket is open, whether the most recent responder
      worker (the only one `stop` can reach) still runs, and how many older
      responders still run. Every responder reads the same `socket` field, so
      an older one keeps serving whatever socket is there, or reports errors
      in a loop once it is closed. */
  datatype Service = Service(socketOpen: bool, latestRunning: bool, orphans: nat)

  const Idle: Service := Service(false, false, 0)

  /** The number of responders still running. */
  function Running(s: Service): nat {
    s.orphans + (if s.latestRunning then 1 else 0)
  }

  /** What the life-cycle calls do, in order. */
  datatype Action = CloseSocket | BindSocket(port: int) | LaunchWorker(listeningPort: int) | CancelWorker

  datatype Transition = Transition(next: Service, started: bool, actions: seq<Action>)

  /** `startReceiver(port)` (src/network/PeerDiscovery.java:91-108): any open
      socket is closed first; then the discovery port is bound and, when that
      succeeds, a responder is launched. An earlier responder is not
      cancelled: it keeps running beside the new one. */
  function StartReceiver(s: Service, listeningPort: int, bindOk: bool): (t: Transition)
    ensures t.started == bindOk
    ensures |t.actions| >= 2 || (!s.socketOpen && !bindOk && |t.actions| == 1)
    ensures s.socketOpen ==> t.actions[0] == CloseSocket && t.actions[1] == BindSocket(DiscoveryPort)
    ensures !s.socketOpen ==> t.actions[0] == BindSocket(DiscoveryPort)
    ensures bindOk ==>
      t.next.socketOpen && t.next.latestRunning && Running(t.next) == Running(s) + 1
      && LaunchWorker(listeningPort) in t.actions
    ensures !bindOk ==> t.next == s.(socketOpen := false) && LaunchWorker(listeningPort) !in t.actions
    ensures CancelWorker !in t.actions
  {
    var close := if s.socketOpen then [CloseSocket] else [];
    if bindOk then
      Transition(Service(true, true, Running(s)), true, close + [BindSocket(DiscoveryPort), LaunchWorker(listeningPort)])
    else
      Transition(s.(socketOpen := false), false, close + [BindSocket(DiscoveryPort)])
  }

  /** `stop()` (src/network/PeerDiscovery.java:113-123): cancels the most
      recent responder if it runs and closes an open socket, and does nothing
      else. Older responders are out of its reach. */
  function Stop(s: Service): (t: Transition)
    ensures !t.next.socketOpen && !t.next.latestRunning
    ensures Running(t.next) == Running(s) - (if s.latestRunning then 1 else 0)
    ensures t.next == Idle <==> s.orphans == 0
    ensures CancelWorker in t.actions <==> s.latestRunning
    ensures CloseSocket in t.actions <==> s.socketOpen
    ensures |t.actions| <= 2
  {
    Transition(Service(false, false, s.orphans),
      false,
      (if s.latestRunning then [CancelWorker] else []) + (if s.socketOpen then [CloseSocket] else []))
  }

  /** `stop` is harmless when nothing was started and when repeated. */
  lemma StopIsSafe(s: Service)
    ensures Stop(Idle).actions == []
    ensures Stop(Stop(s).next) == Transition(Stop(s).next, false, [])
  {
  }

  /** One start and one stop leave nothing running; two starts and one stop
      leave the first responder looping on a closed socket. */
  lemma DoubleStartOutlivesStop(listeningPort: int)
    ensures Stop(StartReceiver(Idle, listeningPort, true).next).next == Idle
    ensures var twice := StartReceiver(StartReceiver(Idle, listeningPort, true).next, listeningPort, true).next;
      Running(twice) == 2 && Stop(twice).next == Service(false, false, 1) && Running(Stop(twice).next) == 1
  {
  }
}
