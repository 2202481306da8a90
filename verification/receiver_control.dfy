/** The receiver's `isRunning` flag (src/network/FileReceiver.java:47-100,
    137-138, 236) as an event machine. `start` only launches a worker; the
    flag turns true when that worker has bound its server socket, and false
    when the worker ends, fails to bind, or `stop` runs while it is true.
    `workers` counts the worker threads that have been launched and have not
    yet ended, and `socketOpen` says whether the `serverSocket` field holds
    an open socket. Every worker reads that one field, and a worker's
    `finally` closes whatever socket it holds. */
module ReceiverControl {

  datatype Control = Control(running: bool, workers: nat, socketOpen: bool)

  const Init: Control := Control(false, 0, false)

  datatype Event =
    | Start       // start(port) called
    | BindOk      // a worker's `new ServerSocket(port)` succeeded
    | BindFail    // a worker's `new ServerSocket(port)` threw
    | Stop        // stop() called
    | WorkerExit  // a bound worker left its loop and ran its `finally`

  /** What the call answers: `start` returns true (`StartedWorker`) or false
      (`AlreadyRunning`); `stop` logs "Receiver is not running." or stops. */
  datatype Reply = StartedWorker | AlreadyRunning | NotRunning | StoppedNow | NoReply

  datatype Outcome = Outcome(state: Control, reply: Reply)

  /** One event. Worker events with no worker alive cannot happen and change
      nothing. */
  function Apply(c: Control, e: Event): (r: Outcome)
    ensures e == Start ==> (r.reply == StartedWorker <==> !c.running)
    ensures e == Start ==> !r.state.running || r.state == c
    ensures r.state.running && !c.running ==> e == BindOk
    ensures e == Stop ==> !r.state.running && (r.reply == NotRunning <==> !c.running)
    ensures e == Stop && !c.running ==> r.state == c
    ensures r.state.socketOpen && !c.socketOpen ==> e == BindOk
    ensures (e == BindFail || e == WorkerExit) && c.workers > 0 ==>
      !r.state.running && !r.state.socketOpen && r.state.workers == c.workers - 1
  {
    match e
    case Start =>
      if c.running then Outcome(c, AlreadyRunning)
      else Outcome(c.(workers := c.workers + 1), StartedWorker)
    case BindOk =>
      if c.workers > 0 then Outcome(Control(true, c.workers, true), NoReply) else Outcome(c, NoReply)
    case BindFail =>
      if c.workers > 0 then Outcome(Control(false, c.workers - 1, false), NoReply) else Outcome(c, NoReply)
    case WorkerExit =>
      if c.workers > 0 then Outcome(Control(false, c.workers - 1, false), NoReply) else Outcome(c, NoReply)
    case Stop =>
      if !c.running then Outcome(c, NotRunning) else Outcome(Control(false, c.workers, false), StoppedNow)
  }

  function Run(c: Control, events: seq<Event>): Control
    decreases |events|
  {
    if |events| == 0 then c else Run(Apply(c, events[0]).state, events[1..])
  }

  /** The flag is never set by anything but a successful bind. */
  lemma {:induction false} RunningOnlyAfterBind(c: Control, events: seq<Event>)
    ensures Run(c, events).running ==> c.running || BindOk in events
    decreases |events|
  {
    if |events| > 0 {
      RunningOnlyAfterBind(Apply(c, events[0]).state, events[1..]);
      assert events == [events[0]] + events[1..];
    }
  }

  /** `stop` twice is `stop` once. */
  lemma StopIdempotent(c: Control)
    ensures Apply(Apply(c, Stop).state, Stop).state == Apply(c, Stop).state
    ensures Apply(Apply(c, Stop).state, Stop).reply == NotRunning
  {
  }

  /** A `stop` between `start` and the bind is lost: it finds the flag false,
      only logs, and the worker binds and runs on. */
  lemma StopBeforeBindIsLost()
    ensures Apply(Apply(Init, Start).state, Stop).reply == NotRunning
    ensures Run(Init, [Start, Stop, BindOk]) == Control(true, 1, true)
  {
    var events := [Start, Stop, BindOk];
    assert events[1..] == [Stop, BindOk] && events[1..][1..] == [BindOk];
    assert events[1..][1..][1..] == [];
  }

  /** Two starts before the first bind launch two workers. The second
      worker's bind fails, and its `finally` closes the first worker's socket
      and clears the flag. The first worker lives on, its accepts failing on
      the closed socket, and a third start is accepted. */
  lemma FlagLiesAfterDoubleStart()
    ensures Run(Init, [Start, Start, BindOk, BindFail]) == Control(false, 1, false)
    ensures Apply(Run(Init, [Start, Start, BindOk, BindFail]), Start).reply == StartedWorker
  {
    var events := [Start, Start, BindOk, BindFail];
    assert events[1..] == [Start, BindOk, BindFail];
    assert events[1..][1..] == [BindOk, BindFail];
    assert events[1..][1..][1..] == [BindFail];
    assert events[1..][1..][1..][1..] == [];
  }
}
