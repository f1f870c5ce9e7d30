/** The generic UDP client (syfala_network/src/udp/client/generic/mod.rs): per-server IO states,
    the deadline queue, and the two handlers that drive them.

    The application's answers (`connect`, `poll_start_io`, `poll_stop_io`) and whether a socket
    call succeeds are inputs of a handler. Sent messages and callbacks are recorded in a trace
    per connected server, which starts when the server is entered in the map. */
module Client {
  import opened Common

  type Addr = nat
  /** Instants and durations in nanoseconds. */
  type Time = int

  const CONN_TIMEOUT: Time := 600_000_000
  const REQUEST_POLL_PERIOD: Time := 10_000_000

  datatype IO = Inactive | PendingStart | Active | PendingStop

  datatype Answer = Success | Failure | Refusal

  /** What a connected server reports, and the requests a client sends it. */
  datatype Report = StartResult(answer: Answer) | StopResult(answer: Answer) | Heartbeat | Audio
  datatype Request = StartIO | StopIO

  datatype Message = Connect | Connected(report: Report) | Disconnect

  datatype Callback =
    | PollStart(wanted: bool) | Started | StartFailed | StartRefused
    | PollStop(wanted: bool) | Stopped | StopFailed | StopRefused
    | OnAudio

  datatype Event = Received(report: Report) | Called(callback: Callback) | Sent(request: Request)

  /** Line 337 announces a stop request with `START_IO`; the retry at lines 133-136 sends
      `STOP_IO`. The results below cover the code as written and the repaired one. */
  datatype Build = AsWritten | Repaired

  function StopAnnouncement(build: Build): (r: Request) {
    if build.AsWritten? then StartIO else StopIO
  }

  // ----- One server

  datatype Reaction = Reaction(io: IO, callback: Option<Callback>, request: Option<Request>)

  /** `ServerIOState::on_msg`. */
  function React(io: IO, report: Report): (r: Reaction) {
    match report
    case StartResult(answer) =>
      if io != PendingStart then Reaction(io, None, None)
      else (match answer
            case Success => Reaction(Active, Some(Started), None)
            case Failure => Reaction(PendingStart, Some(StartFailed), Some(StartIO))
            case Refusal => Reaction(Inactive, Some(StartRefused), None))
    case StopResult(answer) =>
      if io != PendingStop then Reaction(io, None, None)
      else (match answer
            case Success => Reaction(Inactive, Some(Stopped), None)
            case Failure => Reaction(PendingStop, Some(StopFailed), Some(StopIO))
            case Refusal => Reaction(Active, Some(StopRefused), None))
    case Heartbeat => Reaction(io, None, None)
    case Audio => Reaction(io, if io == Active then Some(OnAudio) else None, None)
  }

  /** The body of the poll loop in `on_timeout`. */
  function Poll(io: IO, wanted: bool, build: Build): (r: Reaction) {
    match io
    case Inactive =>
      if wanted then Reaction(PendingStart, Some(PollStart(true)), Some(StartIO))
      else Reaction(Inactive, Some(PollStart(false)), None)
    case Active =>
      if wanted then Reaction(PendingStop, Some(PollStop(true)), Some(StopAnnouncement(build)))
      else Reaction(Active, Some(PollStop(false)), None)
    case _ => Reaction(io, None, None)
  }

  function Events(r: Reaction): (events: seq<Event>) {
    (if r.callback.Some? then [Called(r.callback.value)] else [])
    + (if r.request.Some? then [Sent(r.request.value)] else [])
  }

  // ----- All servers

  datatype State = State(servers: map<Addr, IO>, deadlines: map<Addr, Time>, trace: map<Addr, seq<Event>>)

  datatype Input =
    | Datagram(addr: Addr, time: Time, msg: Option<Message>, answer: Answer)
    | Timeout(now: Time, wants: set<Addr>)

  /** One decoded message, every socket call succeeding. */
  function Deliver(s: State, addr: Addr, time: Time, msg: Message, answer: Answer): (s': State) {
    match msg
    case Connect =>
      if addr in s.servers then s.(deadlines := s.deadlines[addr := time + CONN_TIMEOUT])
      else if answer.Success? then
        State(s.servers[addr := Inactive], s.deadlines[addr := time + CONN_TIMEOUT], s.trace[addr := []])
      else s
    case Connected(report) =>
      if addr in s.servers && addr in s.trace then
        var r := React(s.servers[addr], report);
        State(s.servers[addr := r.io], s.deadlines[addr := time + CONN_TIMEOUT],
              s.trace[addr := s.trace[addr] + [Received(report)] + Events(r)])
      else s
    case Disconnect =>
      if addr in s.servers then State(s.servers - {addr}, s.deadlines - {addr}, s.trace - {addr}) else s
  }

  /** The servers a plain filter over all deadlines keeps. */
  ghost predicate Alive(s: State, now: Time, addr: Addr) {
    addr in s.servers && !(addr in s.deadlines && s.deadlines[addr] <= now)
  }

  ghost function AfterTimeout(s: State, now: Time, wants: set<Addr>, build: Build): (s': State) {
    State(map a | a in s.servers && Alive(s, now, a) :: Poll(s.servers[a], a in wants, build).io,
          map a | a in s.deadlines && s.deadlines[a] > now :: s.deadlines[a],
          map a | a in s.trace && a in s.servers && Alive(s, now, a) ::
            s.trace[a] + Events(Poll(s.servers[a], a in wants, build)))
  }

  ghost function Handle(s: State, input: Input, build: Build): (s': State) {
    match input
    case Datagram(addr, time, msg, answer) =>
      if msg.Some? then Deliver(s, addr, time, msg.value, answer) else s
    case Timeout(now, wants) => AfterTimeout(s, now, wants, build)
  }

  const EMPTY := State(map[], map[], map[])

  ghost function Run(log: seq<Input>, build: Build): (s: State) {
    if log == [] then EMPTY
    else Handle(Run(log[..|log| - 1], build), log[|log| - 1], build)
  }

  lemma LogSnoc(log: seq<Input>, input: Input, build: Build)
    ensures Run(log + [input], build) == Handle(Run(log, build), input, build)
  {
    assert (log + [input])[..|log|] == log;
  }

  // ----- What the trace of a connected server must look like

  /** A reading of a trace that knows nothing of the client: the IO state it leads to, the
      request that must be sent next, the last report, and what was sent and failed since that
      state was entered. */
  datatype Ledger = Ledger(io: IO, owed: Option<Request>, heard: Option<Report>,
                           starts: nat, stops: nat, failures: nat)

  function Enter(io: IO, owed: Option<Request>): (l: Ledger) {
    Ledger(io, owed, None, 0, 0, 0)
  }

  /** The edges of the documented graph: Inactive <-> StartPending -> Active <-> StopPending,
      StopPending -> Inactive (syfala_network/README.md:38-40). Nothing may happen while a
      request is owed, a transition out of a pending state needs the report that causes it,
      and audio is handed over only while Active. */
  function Follow(l: Ledger, e: Event, build: Build): (l': Option<Ledger>) {
    match e
    case Sent(r) =>
      if l.owed != Some(r) then None
      else Some(l.(owed := None, starts := l.starts + (if r == StartIO then 1 else 0),
                   stops := l.stops + (if r == StopIO then 1 else 0)))
    case Received(report) => if l.owed.Some? then None else Some(l.(heard := Some(report)))
    case Called(callback) =>
      if l.owed.Some? then None
      else match callback
        case PollStart(wanted) =>
          if l.io != Inactive then None else if wanted then Some(Enter(PendingStart, Some(StartIO))) else Some(l)
        case Started =>
          if l.io == PendingStart && l.heard == Some(StartResult(Success)) then Some(Enter(Active, None)) else None
        case StartFailed =>
          if l.io == PendingStart && l.heard == Some(StartResult(Failure))
          then Some(l.(owed := Some(StartIO), heard := None, failures := l.failures + 1)) else None
        case StartRefused =>
          if l.io == PendingStart && l.heard == Some(StartResult(Refusal)) then Some(Enter(Inactive, None)) else None
        case PollStop(wanted) =>
          if l.io != Active then None
          else if wanted then Some(Enter(PendingStop, Some(StopAnnouncement(build)))) else Some(l)
        case Stopped =>
          if l.io == PendingStop && l.heard == Some(StopResult(Success)) then Some(Enter(Inactive, None)) else None
        case StopFailed =>
          if l.io == PendingStop && l.heard == Some(StopResult(Failure))
          then Some(l.(owed := Some(StopIO), heard := None, failures := l.failures + 1)) else None
        case StopRefused =>
          if l.io == PendingStop && l.heard == Some(StopResult(Refusal)) then Some(Enter(Active, None)) else None
        case OnAudio =>
          if l.io == Active && l.heard == Some(Audio) then Some(l) else None
  }

  ghost function Read(trace: seq<Event>, build: Build): (l: Option<Ledger>) {
    if trace == [] then Some(Enter(Inactive, None))
    else
      var before := Read(trace[..|trace| - 1], build);
      if before.None? then None else Follow(before.value, trace[|trace| - 1], build)
  }

  /** Requests sent since the state was entered: one when it was entered, one per failure. */
  ghost predicate Balanced(l: Ledger, build: Build) {
    && l.owed == None
    && (l.io == PendingStart ==> l.starts == 1 + l.failures && l.stops == 0)
    && (l.io == PendingStop ==>
          if build == Repaired then l.stops == 1 + l.failures && l.starts == 0
          else l.stops == l.failures && l.starts == 1)
    && (l.io == Inactive || l.io == Active ==> l.starts == l.stops == l.failures == 0)
  }

  /** The trace is a path of the graph that leads to `io`, its requests accounted for. */
  ghost predicate Explains(trace: seq<Event>, io: IO, build: Build) {
    var l := Read(trace, build);
    l.Some? && l.value.io == io && Balanced(l.value, build)
  }

  lemma {:induction false} ReadAppend(trace: seq<Event>, e: Event, build: Build)
    ensures Read(trace + [e], build)
         == if Read(trace, build).None? then None else Follow(Read(trace, build).value, e, build)
  {
    assert (trace + [e])[..|trace|] == trace;
  }

  /** Handling a report extends the path by what the graph allows. */
  lemma ReactExplained(trace: seq<Event>, io: IO, report: Report, build: Build)
    requires Explains(trace, io, build)
    ensures Explains(trace + [Received(report)] + Events(React(io, report)), React(io, report).io, build)
  {
    hide Read;
    var r := React(io, report);
    ReadAppend(trace, Received(report), build);
    EventsExplained(trace + [Received(report)], r, build);
  }

  lemma PollExplained(trace: seq<Event>, io: IO, wanted: bool, build: Build)
    requires Explains(trace, io, build)
    ensures Explains(trace + Events(Poll(io, wanted, build)), Poll(io, wanted, build).io, build)
  {
    hide Read;
    EventsExplained(trace, Poll(io, wanted, build), build);
  }

  /** Reading a reaction's events one after the other. */
  lemma EventsExplained(trace: seq<Event>, r: Reaction, build: Build)
    ensures var l := Read(trace, build);
            var called := if l.Some? && r.callback.Some? then Follow(l.value, Called(r.callback.value), build) else l;
            var sent := if called.Some? && r.request.Some? then Follow(called.value, Sent(r.request.value), build) else called;
            Read(trace + Events(r), build) == sent
  {
    hide Follow;
    if r.callback.Some? {
      ReadAppend(trace, Called(r.callback.value), build);
      var more := trace + [Called(r.callback.value)];
      if r.request.Some? {
        ReadAppend(more, Sent(r.request.value), build);
        assert trace + Events(r) == more + [Sent(r.request.value)];
      } else {
        assert trace + Events(r) == more;
      }
    } else if r.request.Some? {
      ReadAppend(trace, Sent(r.request.value), build);
      assert trace + Events(r) == trace + [Sent(r.request.value)];
    } else {
      assert trace + Events(r) == trace;
    }
  }

  /** A ledger that has just heard `report` in state `io`. */
  function Hearing(io: IO, report: Report): (l: Ledger) {
    Ledger(io, None, Some(report), 0, 0, 0)
  }

  /** Handling a report calls back exactly when the graph has an edge for it, with that edge's
      callback; the state and the request are those the edge leads to and owes. */
  lemma ReactIsTheEdge(io: IO, report: Report, callback: Callback, build: Build)
    requires !callback.PollStart? && !callback.PollStop?
    ensures var r, l := React(io, report), Follow(Hearing(io, report), Called(callback), build);
            && (r.callback == Some(callback) <==> l.Some?)
            && (l.Some? ==> r.io == l.value.io && r.request == l.value.owed)
            && (r.callback == None ==> r.io == io && r.request == None)
  {
  }

  /** Polling asks in exactly the two settled states, and moves exactly when the application
      wants to. */
  lemma PollIsTheEdge(io: IO, wanted: bool, build: Build)
    ensures var r := Poll(io, wanted, build);
            && (r.callback.Some? <==> io == Inactive || io == Active)
            && (r.callback.Some? ==>
                  var l := Follow(Enter(io, None), Called(r.callback.value), build);
                  l.Some? && r.io == l.value.io && r.request == l.value.owed)
            && (r.io != io <==> r.callback.Some? && wanted)
  {
  }

  // ----- What every successful handler keeps

  ghost predicate Agree(s: State) {
    s.servers.Keys == s.deadlines.Keys == s.trace.Keys
  }

  ghost predicate AllExplained(s: State, build: Build)
    requires Agree(s)
  {
    forall a :: a in s.servers ==> Explains(s.trace[a], s.servers[a], build)
  }

  /** When the last decodable message from `a` was handled. */
  ghost function LastHeard(log: seq<Input>, a: Addr): (t: Option<Time>) {
    if log == [] then None
    else
      var last := log[|log| - 1];
      if last.Datagram? && last.addr == a && last.msg.Some? then Some(last.time)
      else LastHeard(log[..|log| - 1], a)
  }

  ghost predicate Timed(s: State, log: seq<Input>) {
    forall a :: a in s.deadlines ==>
      LastHeard(log, a).Some? && s.deadlines[a] == LastHeard(log, a).value + CONN_TIMEOUT
  }

  lemma DeliverKeeps(s: State, addr: Addr, time: Time, msg: Message, answer: Answer, build: Build)
    requires Agree(s) && AllExplained(s, build)
    ensures Agree(Deliver(s, addr, time, msg, answer))
    ensures AllExplained(Deliver(s, addr, time, msg, answer), build)
  {
    hide Explains, React, Events;
    if msg.Connected? && addr in s.servers {
      ReactExplained(s.trace[addr], s.servers[addr], msg.report, build);
    }
    NewServerExplained(build);
  }

  lemma NewServerExplained(build: Build)
    ensures Explains([], Inactive, build)
  {
  }

  lemma TimeoutKeeps(s: State, now: Time, wants: set<Addr>, build: Build)
    requires Agree(s) && AllExplained(s, build)
    ensures Agree(AfterTimeout(s, now, wants, build))
    ensures AllExplained(AfterTimeout(s, now, wants, build), build)
  {
    hide Explains, Poll, Events;
    var s' := AfterTimeout(s, now, wants, build);
    forall a | a in s'.servers ensures Explains(s'.trace[a], s'.servers[a], build) {
      PollExplained(s.trace[a], s.servers[a], a in wants, build);
    }
  }

  lemma HandleTimed(log: seq<Input>, input: Input, s: State, build: Build)
    requires Agree(s) && Timed(s, log)
    ensures Timed(Handle(s, input, build), log + [input])
  {
    hide React, Poll, Events;
    assert (log + [input])[..|log|] == log;
  }

  /** Map and queue agree after every run of successful handlers; every connected server's trace
      is a path of the documented graph leading to its state, with its requests accounted for;
      every deadline is the last handled message plus the timeout. */
  lemma {:induction false} RunKeeps(log: seq<Input>, build: Build)
    ensures Agree(Run(log, build)) && AllExplained(Run(log, build), build) && Timed(Run(log, build), log)
  {
    if log != [] {
      hide Deliver, AfterTimeout, AllExplained, Timed;
      var n := |log| - 1;
      var s, input := Run(log[..n], build), log[n];
      RunKeeps(log[..n], build);
      assert log[..n] + [input] == log;
      HandleTimed(log[..n], input, s, build);
      match input
      case Datagram(addr, time, msg, answer) =>
        if msg.Some? {
          DeliverKeeps(s, addr, time, msg.value, answer, build);
        }
      case Timeout(now, wants) => TimeoutKeeps(s, now, wants, build);
    }
  }

  /** Whether a server is connected, read off the log alone: accepted, not disconnected since,
      and heard from within the timeout at every timeout since. */
  ghost predicate Online(log: seq<Input>, a: Addr) {
    log != [] &&
    var n := |log| - 1;
    match log[n]
    case Datagram(addr, _, msg, answer) =>
      if addr != a || msg.None? then Online(log[..n], a)
      else (match msg.value
            case Connect => Online(log[..n], a) || answer.Success?
            case Connected(_) => Online(log[..n], a)
            case Disconnect => false)
    case Timeout(now, _) =>
      && Online(log[..n], a)
      && LastHeard(log[..n], a).Some? && now < LastHeard(log[..n], a).value + CONN_TIMEOUT
  }

  /** Expiry and connection are exact: after every run of successful handlers the server map
      holds precisely the servers that the log says are online. In particular a timeout
      removes precisely those whose last handled message is at least CONN_TIMEOUT old. */
  lemma {:induction false} ServersOnline(log: seq<Input>, build: Build, a: Addr)
    ensures a in Run(log, build).servers <==> Online(log, a)
  {
    if log != [] {
      hide Handle, AllExplained, Explains;
      var n := |log| - 1;
      ServersOnline(log[..n], build, a);
      RunKeeps(log[..n], build);
      HandledOnline(log[..n], log[n], Run(log[..n], build), build, a);
      assert log[..n] + [log[n]] == log;
    }
  }

  /** One more input: who is connected afterwards. */
  lemma HandledOnline(log: seq<Input>, input: Input, s: State, build: Build, a: Addr)
    requires Agree(s) && Timed(s, log) && (a in s.servers <==> Online(log, a))
    ensures a in Handle(s, input, build).servers <==> Online(log + [input], a)
  {
    hide React, Poll, Events;
    assert (log + [input])[..|log|] == log && (log + [input])[|log|] == input;
  }

  // ----- What being on a path means

  /** Audio is handed over, and an IO session begins, only as the graph says: at the point of the
      callback the trace so far leads to the state and the report that allow it. */
  lemma {:induction false} CallbackAllowed(trace: seq<Event>, i: nat, build: Build)
    requires Read(trace, build).Some? && i < |trace| && trace[i].Called?
    ensures var l := Read(trace[..i], build);
            && l.Some? && l.value.owed == None
            && (trace[i].callback == OnAudio ==> l.value.io == Active && l.value.heard == Some(Audio))
            && (trace[i].callback == Started ==>
                  l.value.io == PendingStart && l.value.heard == Some(StartResult(Success)))
  {
    var n := |trace| - 1;
    if i < n {
      CallbackAllowed(trace[..n], i, build);
      assert trace[..n][..i] == trace[..i];
    }
  }

  ghost predicate PendingAt(trace: seq<Event>, j: nat, build: Build)
    requires j <= |trace|
  {
    var l := Read(trace[..j], build);
    l.Some? && l.value.io == PendingStart
  }

  /** A report arrived while the start was pending, after a start request was sent. */
  ghost predicate Answered(trace: seq<Event>, i: nat, j: nat, report: Report, build: Build) {
    && i < j < |trace| && trace[i] == Sent(StartIO) && trace[j] == Received(report)
    && PendingAt(trace, j, build)
  }

  ghost predicate SomeAnswered(trace: seq<Event>, report: Report, build: Build) {
    exists i: nat, j: nat :: Answered(trace, i, j, report, build)
  }

  lemma AnsweredKept(trace: seq<Event>, e: Event, report: Report, build: Build)
    requires SomeAnswered(trace, report, build)
    ensures SomeAnswered(trace + [e], report, build)
  {
    var i: nat, j: nat :| Answered(trace, i, j, report, build);
    assert (trace + [e])[..j] == trace[..j];
    assert Answered(trace + [e], i, j, report, build);
  }

  ghost predicate Founded(trace: seq<Event>, l: Ledger, build: Build) {
    && (l.io == PendingStart ==> l.owed == Some(StartIO) || (l.owed == None && Sent(StartIO) in trace))
    && (l.io == PendingStart && l.heard.Some? ==> SomeAnswered(trace, l.heard.value, build))
    && (l.io == Active || l.io == PendingStop ==> SomeAnswered(trace, StartResult(Success), build))
  }

  lemma FoundedStep(trace: seq<Event>, e: Event, build: Build)
    requires Read(trace, build).Some? && Founded(trace, Read(trace, build).value, build)
    requires Follow(Read(trace, build).value, e, build).Some?
    ensures Founded(trace + [e], Follow(Read(trace, build).value, e, build).value, build)
  {
    hide SomeAnswered, Read;
    var l, more := Read(trace, build).value, trace + [e];
    if SomeAnswered(trace, StartResult(Success), build) {
      AnsweredKept(trace, e, StartResult(Success), build);
    }
    if l.heard.Some? && SomeAnswered(trace, l.heard.value, build) {
      AnsweredKept(trace, e, l.heard.value, build);
    }
    if e.Received? && l.io == PendingStart && l.owed == None {
      NewAnswer(trace, e.report, build);
    }
    assert forall x :: x in trace ==> x in more;
    assert e in more;
  }

  lemma NewAnswer(trace: seq<Event>, report: Report, build: Build)
    requires Read(trace, build).Some? && Read(trace, build).value.io == PendingStart && Sent(StartIO) in trace
    ensures SomeAnswered(trace + [Received(report)], report, build)
  {
    var more := trace + [Received(report)];
    var i: nat :| i < |trace| && trace[i] == Sent(StartIO);
    assert more[..|trace|] == trace;
    assert Answered(more, i, |trace|, report, build);
  }

  lemma {:induction false} ReadFounded(trace: seq<Event>, build: Build)
    requires Read(trace, build).Some?
    ensures Founded(trace, Read(trace, build).value, build)
  {
    if trace != [] {
      var n := |trace| - 1;
      ReadFounded(trace[..n], build);
      assert trace[..n] + [trace[n]] == trace;
      FoundedStep(trace[..n], trace[n], build);
    }
  }

  /** IO lifecycle over whole runs: whenever a connected server is Active or PendingStop, a start
      request was sent to it since it connected, and after that a start success arrived while
      the start was pending. */
  lemma ActiveWasStarted(log: seq<Input>, build: Build, a: Addr)
    requires a in Run(log, build).servers
    requires Run(log, build).servers[a] in {Active, PendingStop}
    ensures a in Run(log, build).trace
    ensures SomeAnswered(Run(log, build).trace[a], StartResult(Success), build)
  {
    hide SomeAnswered, Read, Timed;
    RunKeeps(log, build);
    ReadFounded(Run(log, build).trace[a], build);
  }

  /** Request accounting: while a start is pending, one start request was sent when it was asked
      for and one per failure since. The same holds of stop requests while a stop is pending
      exactly for the repaired code; as written, a stop request goes out only after a failure. */
  lemma RequestAccounting(log: seq<Input>, build: Build, a: Addr)
    requires a in Run(log, build).servers
    ensures a in Run(log, build).trace && Read(Run(log, build).trace[a], build).Some?
    ensures var io, l := Run(log, build).servers[a], Read(Run(log, build).trace[a], build).value;
            && l.io == io
            && (io == PendingStart ==> l.starts == 1 + l.failures)
            && (io == PendingStop ==>
                  && (l.stops == 1 + l.failures <==> build == Repaired)
                  && (build == AsWritten ==> l.stops == l.failures))
  {
    hide Read, Timed;
    RunKeeps(log, build);
    assert Explains(Run(log, build).trace[a], Run(log, build).servers[a], build);
  }

  /** A run of the code as written in which the stop is announced by a start request and no stop
      request is ever sent. */
  lemma StopNeverRequested(a: Addr)
    ensures var log := [Datagram(a, 0, Some(Connect), Success), Timeout(1, {a}),
                        Datagram(a, 2, Some(Connected(StartResult(Success))), Success), Timeout(3, {a})];
            var trace := [Called(PollStart(true)), Sent(StartIO)] + [Received(StartResult(Success)), Called(Started)]
                         + [Called(PollStop(true)), Sent(StartIO)];
            Run(log, AsWritten) == State(map[a := PendingStop], map[a := 2 + CONN_TIMEOUT], map[a := trace])
  {
    var connect, poll := Datagram(a, 0, Some(Connect), Success), Timeout(1, {a});
    var report, again := Datagram(a, 2, Some(Connected(StartResult(Success))), Success), Timeout(3, {a});
    LogSnoc([], connect, AsWritten);
    LogSnoc([connect], poll, AsWritten);
    LogSnoc([connect, poll], report, AsWritten);
    LogSnoc([connect, poll, report], again, AsWritten);
    assert [connect] == [] + [connect] && [connect] + [poll] == [connect, poll];
    assert [connect, poll] + [report] == [connect, poll, report];
    assert [connect, poll, report] + [again] == [connect, poll, report, again];
    StopStates(a, [Called(PollStart(true)), Sent(StartIO)]);
  }

  /** A client with one server. */
  function One(a: Addr, io: IO, deadline: Time, trace: seq<Event>): (s: State) {
    State(map[a := io], map[a := deadline], map[a := trace])
  }

  /** The states that run goes through. */
  lemma StopStates(a: Addr, asked: seq<Event>)
    requires asked == [Called(PollStart(true)), Sent(StartIO)]
    ensures var started := asked + [Received(StartResult(Success)), Called(Started)];
            && Deliver(EMPTY, a, 0, Connect, Success) == One(a, Inactive, CONN_TIMEOUT, [])
            && AfterTimeout(One(a, Inactive, CONN_TIMEOUT, []), 1, {a}, AsWritten)
               == One(a, PendingStart, CONN_TIMEOUT, asked)
            && Deliver(One(a, PendingStart, CONN_TIMEOUT, asked), a, 2, Connected(StartResult(Success)), Success)
               == One(a, Active, 2 + CONN_TIMEOUT, started)
            && AfterTimeout(One(a, Active, 2 + CONN_TIMEOUT, started), 3, {a}, AsWritten)
               == One(a, PendingStop, 2 + CONN_TIMEOUT, started + [Called(PollStop(true)), Sent(StartIO)])
  {
    var started := asked + [Received(StartResult(Success)), Called(Started)];
    PollsOnly(a, Inactive, CONN_TIMEOUT, [], 1);
    PollsOnly(a, Active, 2 + CONN_TIMEOUT, started, 3);
    hide AfterTimeout;
    assert [] + Events(Poll(Inactive, true, AsWritten)) == asked;
    assert asked + [Received(StartResult(Success))] + Events(React(PendingStart, StartResult(Success))) == started;
    assert Events(Poll(Active, true, AsWritten)) == [Called(PollStop(true)), Sent(StartIO)];
  }

  /** A timeout of a client with one server, which is alive and wants to go on. */
  lemma PollsOnly(a: Addr, io: IO, deadline: Time, trace: seq<Event>, now: Time)
    requires now < deadline
    ensures var r := Poll(io, true, AsWritten);
            AfterTimeout(One(a, io, deadline, trace), now, {a}, AsWritten) == One(a, r.io, deadline, trace + Events(r))
  {
    hide Poll, Events;
    var r := Poll(io, true, AsWritten);
    var s' := AfterTimeout(One(a, io, deadline, trace), now, {a}, AsWritten);
    assert s'.servers == map[a := r.io];
    assert s'.deadlines == map[a := deadline];
    assert s'.trace == map[a := trace + Events(r)];
  }
}
