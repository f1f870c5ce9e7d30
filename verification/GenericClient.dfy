/** The client object itself: the same handlers, updating the server map and the deadline queue
    in place, and failing where a socket call fails. */
module GenericClient {
  import opened Common
  import opened Client
  import ClientStory

  /** A handler returns, propagates a socket error, or panics on an `unwrap`. */
  datatype Outcome = Done | Failed | Panicked

  /** The handler has to send something for this message. */
  predicate Sends(s: State, addr: Addr, msg: Message) {
    match msg
    case Connect => addr !in s.servers
    case Connected(report) => addr in s.servers && React(s.servers[addr], report).request.Some?
    case Disconnect => false
  }

  lemma RunAgrees(log: seq<Input>, build: Build)
    ensures Agree(Run(log, build))
  {
    RunKeeps(log, build);
  }

  /** The poll loop has to send something to this server. */
  ghost predicate Requests(s: State, now: Time, wants: set<Addr>, build: Build, a: Addr) {
    Alive(s, now, a) && Poll(s.servers[a], a in wants, build).request.Some?
  }

  /** A plain filter: the servers still alive, as they were. */
  ghost function Survivors(s: State, now: Time): (s': State) {
    State(map a | a in s.servers && Alive(s, now, a) :: s.servers[a],
          map a | a in s.deadlines && s.deadlines[a] > now :: s.deadlines[a],
          map a | a in s.trace && Alive(s, now, a) :: s.trace[a])
  }

  /** The queue's head was popped `|popped|` times, each time an elapsed deadline. */
  ghost predicate Popped(s: State, s': State, popped: set<Addr>, now: Time) {
    && popped <= s.deadlines.Keys <= s.servers.Keys == s.trace.Keys
    && s' == State(s.servers - popped, s.deadlines - popped, s.trace - popped)
    && forall a :: a in popped ==> s.deadlines[a] <= now
  }

  lemma PoppedNone(s: State, now: Time)
    requires s.deadlines.Keys <= s.servers.Keys == s.trace.Keys
    ensures Popped(s, s, {}, now)
  {
    assert s.servers - {} == s.servers && s.deadlines - {} == s.deadlines && s.trace - {} == s.trace;
  }

  lemma PopOne(s: State, s': State, popped: set<Addr>, now: Time, a: Addr)
    requires Popped(s, s', popped, now) && a in s'.deadlines && s'.deadlines[a] <= now
    ensures Popped(s, State(s'.servers - {a}, s'.deadlines - {a}, s'.trace - {a}), popped + {a}, now)
    ensures a in s'.servers && |s'.deadlines - {a}| < |s'.deadlines|
  {
    assert s'.servers - {a} == s.servers - (popped + {a});
    assert s'.deadlines - {a} == s.deadlines - (popped + {a});
    assert s'.trace - {a} == s.trace - (popped + {a});
    assert (s'.deadlines - {a}).Keys == s'.deadlines.Keys - {a};
  }

  lemma PoppedAreExpired(s: State, s': State, popped: set<Addr>, now: Time)
    requires Popped(s, s', popped, now) && forall a :: a in s'.deadlines ==> s'.deadlines[a] > now
    ensures s' == Survivors(s, now)
  {
    var f := Survivors(s, now);
    forall a | a in s.deadlines && a !in popped ensures s.deadlines[a] > now {
      assert a in s'.deadlines;
    }
    assert forall a :: a in s.servers ==> (a in popped <==> !Alive(s, now, a));
    assert s'.servers == f.servers;
    assert s'.deadlines == f.deadlines;
    assert s'.trace == f.trace;
  }

  lemma SurvivorsValid(s: State, now: Time)
    requires s.deadlines.Keys <= s.servers.Keys == s.trace.Keys
    ensures var f := Survivors(s, now);
            && f.deadlines.Keys <= f.servers.Keys == f.trace.Keys
            && (Agree(s) ==> f.deadlines.Keys == f.servers.Keys)
  {
  }

  lemma SurvivorsAre(s: State, now: Time)
    ensures var f := Survivors(s, now);
            && f.deadlines == (map a | a in s.deadlines && s.deadlines[a] > now :: s.deadlines[a])
            && (forall a :: a in f.deadlines ==> f.deadlines[a] > now)
            && forall a :: a in f.servers <==> Alive(s, now, a)
  {
  }

  /** Every server outside `todo` has been polled once, the others not yet. */
  ghost predicate AllPolled(s: State, s': State, todo: set<Addr>, wants: set<Addr>, build: Build) {
    && s'.servers.Keys == s.servers.Keys == s'.trace.Keys == s.trace.Keys
    && (forall a :: a in s.servers && a in todo ==> s'.servers[a] == s.servers[a] && s'.trace[a] == s.trace[a])
    && forall a :: a in s.servers && a !in todo ==>
         && s'.servers[a] == Poll(s.servers[a], a in wants, build).io
         && s'.trace[a] == s.trace[a] + Events(Poll(s.servers[a], a in wants, build))
  }

  lemma PollOne(s: State, s': State, todo: set<Addr>, a: Addr, wants: set<Addr>, build: Build)
    requires AllPolled(s, s', todo, wants, build) && a in todo && a in s.servers
    ensures a in s'.servers && s'.servers[a] == s.servers[a] && a in s'.trace
    ensures var r := Poll(s.servers[a], a in wants, build);
            var s2 := s'.(servers := s'.servers[a := r.io], trace := s'.trace[a := s'.trace[a] + Events(r)]);
            AllPolled(s, s2, todo - {a}, wants, build)
  {
    hide Poll, Events;
  }

  /** No server outside `todo` needs a request that its socket call refuses. */
  ghost predicate NoneRefused(s: State, todo: set<Addr>, wants: set<Addr>, failing: set<Addr>, build: Build) {
    forall a :: a in s.servers && a !in todo && Poll(s.servers[a], a in wants, build).request.Some? ==> a !in failing
  }

  lemma NonePolled(s: State, wants: set<Addr>, failing: set<Addr>, build: Build)
    requires s.servers.Keys == s.trace.Keys
    ensures AllPolled(s, s, s.servers.Keys, wants, build)
    ensures NoneRefused(s, s.servers.Keys, wants, failing, build)
  {
  }

  lemma RefusedOne(s: State, todo: set<Addr>, a: Addr, wants: set<Addr>, failing: set<Addr>, build: Build)
    requires NoneRefused(s, todo, wants, failing, build) && a in todo && a in s.servers
    ensures if Poll(s.servers[a], a in wants, build).request.Some? && a in failing
            then !NoneRefused(s, {}, wants, failing, build)
            else NoneRefused(s, todo - {a}, wants, failing, build)
  {
    hide Poll;
  }

  /** What a poll loop that stops at a refused request leaves. */
  ghost predicate StoppedEarly(was: map<Addr, IO>, now: map<Addr, IO>, wants: set<Addr>, failing: set<Addr>, build: Build) {
    && now.Keys == was.Keys
    && (forall a :: a in was && now[a] != was[a] ==> now[a] == Poll(was[a], a in wants, build).io)
    && exists a :: a in was && a in failing && RefusedAt(was[a], now[a], a in wants, build)
  }

  /** The server was polled, and needed a request. */
  predicate RefusedAt(was: IO, now: IO, wanted: bool, build: Build) {
    var r := Poll(was, wanted, build);
    r.request.Some? && now == r.io
  }

  lemma StopsEarly(s: State, s': State, servers: map<Addr, IO>, todo: set<Addr>, a: Addr,
                   wants: set<Addr>, failing: set<Addr>, build: Build)
    requires AllPolled(s, s', todo, wants, build) && a in s.servers && a in failing
    requires servers == s'.servers[a := Poll(s.servers[a], a in wants, build).io]
    requires Poll(s.servers[a], a in wants, build).request.Some?
    ensures StoppedEarly(s.servers, servers, wants, failing, build)
  {
    hide Poll;
    assert RefusedAt(s.servers[a], servers[a], a in wants, build);
  }

  lemma SameRequests(s: State, now: Time, wants: set<Addr>, failing: set<Addr>, build: Build)
    ensures NoneRefused(Survivors(s, now), {}, wants, failing, build)
            <==> forall a :: Requests(s, now, wants, build, a) ==> a !in failing
  {
    hide Poll;
    var f := Survivors(s, now);
    assert forall a :: Alive(s, now, a) <==> a in f.servers;
    assert forall a :: a in f.servers ==> f.servers[a] == s.servers[a];
    if !NoneRefused(f, {}, wants, failing, build) {
      var a :| a in f.servers && Poll(f.servers[a], a in wants, build).request.Some? && a in failing;
      assert Requests(s, now, wants, build, a);
    }
  }

  /** Expiring, then polling every survivor, is the handler's effect. */
  lemma ExpireThenPoll(s: State, s': State, now: Time, wants: set<Addr>, build: Build)
    requires s.deadlines.Keys <= s.servers.Keys == s.trace.Keys
    requires AllPolled(Survivors(s, now), s', {}, wants, build) && s'.deadlines == Survivors(s, now).deadlines
    ensures s' == AfterTimeout(s, now, wants, build)
  {
    hide Poll, Events, Alive;
    var g := AfterTimeout(s, now, wants, build);
    assert s'.servers == g.servers;
    assert s'.deadlines == g.deadlines;
    assert s'.trace == g.trace;
  }

  class GenericClient {
    const build: Build
    var servers: map<Addr, IO>
    /** The priority queue: each server's deadline, the earliest one at its head. */
    var deadlines: map<Addr, Time>
    var recvTimeout: Option<Time>
    ghost var trace: map<Addr, seq<Event>>
    /** The inputs of the handlers that returned normally, and whether all handlers did. */
    ghost var log: seq<Input>
    ghost var clean: bool

    ghost function View(): (s: State)
      reads this
    {
      State(servers, deadlines, trace)
    }

    /** What even a failed handler leaves: no deadline without a server. */
    ghost predicate Valid()
      reads this
    {
      deadlines.Keys <= servers.Keys == trace.Keys
    }

    /** As long as no handler failed, the client is where its log leads. */
    ghost predicate Logged()
      reads this
    {
      clean ==> View() == Run(log, build)
    }

    constructor (build: Build)
      ensures Valid() && Logged() && View() == EMPTY && this.build == build
      ensures log == [] && clean
    {
      this.build, servers, deadlines, recvTimeout, trace := build, map[], map[], None, map[];
      log, clean := [], true;
    }

    /** `on_server_connect_request`: a connection is answered even when it is rejected. */
    method OnConnectRequest(addr: Addr, answer: Answer, sendOk: bool) returns (ok: bool)
      requires Valid()
      modifies this`servers, this`trace
      ensures ok == (sendOk || addr in old(servers))
      ensures if addr !in old(servers) && answer.Success?
              then servers == old(servers)[addr := Inactive] && trace == old(trace)[addr := []]
              else servers == old(servers) && trace == old(trace)
    {
      ok := true;
      if addr !in servers {
        if answer.Success? {
          servers, trace := servers[addr := Inactive], trace[addr := []];
        }
        ok := sendOk;
      }
    }

    /** `ServerIOState::on_msg` on the entry of `addr`. */
    method OnReport(addr: Addr, report: Report, sendOk: bool) returns (ok: bool)
      requires Valid() && addr in servers
      modifies this`servers, this`trace
      ensures var r := React(old(servers)[addr], report);
              && servers == old(servers)[addr := r.io]
              && ok == (sendOk || r.request.None?)
              && trace.Keys == old(trace).Keys
              && (ok ==> trace == old(trace)[addr := old(trace)[addr] + [Received(report)] + Events(r)])
    {
      var io := servers[addr];
      ghost var before := trace[addr] + [Received(report)];
      ok := true;
      ghost var events := [];
      match report {
        case StartResult(answer) =>
          if io == PendingStart {
            match answer {
              case Success =>
                io, events := Active, [Called(Started)];
              case Failure =>
                ok, events := sendOk, [Called(StartFailed), Sent(StartIO)];
              case Refusal =>
                io, events := Inactive, [Called(StartRefused)];
            }
          }
        case StopResult(answer) =>
          if io == PendingStop {
            match answer {
              case Success =>
                io, events := Inactive, [Called(Stopped)];
              case Failure =>
                ok, events := sendOk, [Called(StopFailed), Sent(StopIO)];
              case Refusal =>
                io, events := Active, [Called(StopRefused)];
            }
          }
        case Heartbeat =>
        case Audio =>
          if io == Active {
            events := [Called(OnAudio)];
          }
      }
      assert events == Events(React(servers[addr], report));
      servers := servers[addr := io];
      trace := trace[addr := before + (if ok then events else events[..1])];
    }

    /** `on_message` and `on_decoded_message`. The `unwrap` on disconnect fails exactly for a
        server without a deadline, which only a failed connection reply leaves behind. A handler
        that fails has moved the state all the same. */
    method OnMessage(addr: Addr, time: Time, msg: Option<Message>, answer: Answer, sendOk: bool)
      returns (outcome: Outcome)
      requires Valid()
      modifies this`servers, this`deadlines, this`trace
      ensures Valid()
      ensures outcome == Panicked <==> msg == Some(Disconnect) && addr in old(servers) && addr !in old(deadlines)
      ensures outcome == Failed <==> !sendOk && msg.Some? && Sends(old(View()), addr, msg.value)
      ensures outcome == Done ==> View() == Handle(old(View()), Datagram(addr, time, msg, answer), build)
      ensures outcome == Failed ==>
                && deadlines == old(deadlines)
                && servers == if msg.value == Connect && answer.Success? then old(servers)[addr := Inactive] else old(servers)
      ensures outcome == Panicked ==> servers == old(servers) - {addr} && deadlines == old(deadlines)
    {
      if msg.None? {
        return Done;
      }
      var ok := true;
      match msg.value {
        case Connect =>
          ok := OnConnectRequest(addr, answer, sendOk);
        case Connected(report) =>
          if addr in servers {
            ok := OnReport(addr, report, sendOk);
          }
        case Disconnect =>
          if addr in servers {
            servers, trace := servers - {addr}, trace - {addr};
            if addr !in deadlines {
              return Panicked;
            }
            deadlines := deadlines - {addr};
          }
      }
      if !ok {
        return Failed;
      }
      if addr in servers {
        deadlines := deadlines[addr := time + CONN_TIMEOUT];
      }
      outcome := Done;
    }

    /** The head of the queue. */
    method Peek() returns (head: Option<Addr>)
      ensures head.None? <==> deadlines == map[]
      ensures head.Some? ==>
                && head.value in deadlines
                && forall a :: a in deadlines ==> deadlines[head.value] <= deadlines[a]
    {
      head := None;
      var todo := deadlines.Keys;
      while todo != {}
        invariant todo <= deadlines.Keys
        invariant head.None? ==> todo == deadlines.Keys
        invariant head.Some? ==>
                    && head.value in deadlines
                    && forall a :: a in deadlines && a !in todo ==> deadlines[head.value] <= deadlines[a]
        decreases |todo|
      {
        var a :| a in todo;
        if head.None? || deadlines[a] < deadlines[head.value] {
          head := Some(a);
        }
        todo := todo - {a};
      }
    }

    /** The expiry loop: popping the head of the queue amounts to a filter over all servers, and
        the `unwrap` on removing the popped server never fails. */
    method Expire(now: Time) returns (panicked: bool)
      requires Valid()
      modifies this`servers, this`deadlines, this`trace
      ensures !panicked
      ensures Valid() && View() == Survivors(old(View()), now)
    {
      ghost var s, popped: set<Addr> := View(), {};
      hide Popped, Survivors;
      PoppedNone(s, now);
      var going := true;
      while going
        invariant Popped(s, View(), popped, now)
        invariant !going ==> forall a :: a in deadlines ==> deadlines[a] > now
        decreases going, |deadlines|
      {
        var head := Peek();
        if head.None? || deadlines[head.value] > now {
          going := false;
        } else {
          var a := head.value;
          PopOne(s, View(), popped, now, a);
          deadlines := deadlines - {a};
          if a !in servers {
            return true;
          }
          servers, trace, popped := servers - {a}, trace - {a}, popped + {a};
        }
      }
      PoppedAreExpired(s, View(), popped, now);
      SurvivorsValid(s, now);
      panicked := false;
    }

    /** The loop over all servers, in an arbitrary order. When it stops early, at a server whose
        request is refused, that server has already moved, and any other one has moved or not. */
    method PollAll(wants: set<Addr>, failing: set<Addr>) returns (ok: bool)
      requires Valid()
      modifies this`servers, this`trace
      ensures Valid() && servers.Keys == old(servers).Keys
      ensures ok <==> NoneRefused(old(View()), {}, wants, failing, build)
      ensures ok ==> AllPolled(old(View()), View(), {}, wants, build)
      ensures !ok ==> StoppedEarly(old(servers), servers, wants, failing, build)
    {
      ghost var s := View();
      var todo := servers.Keys;
      hide Poll, Events, AllPolled, NoneRefused;
      NonePolled(s, wants, failing, build);
      while todo != {}
        invariant todo <= servers.Keys == s.servers.Keys == trace.Keys
        invariant AllPolled(s, View(), todo, wants, build)
        invariant NoneRefused(s, todo, wants, failing, build)
        decreases |todo|
      {
        var a :| a in todo;
        PollOne(s, View(), todo, a, wants, build);
        ghost var s1 := View();
        var r := Poll(servers[a], a in wants, build);
        servers := servers[a := r.io];
        RefusedOne(s, todo, a, wants, failing, build);
        if r.request.Some? && a in failing {
          StopsEarly(s, s1, servers, todo, a, wants, failing, build);
          return false;
        }
        trace := trace[a := trace[a] + Events(r)];
        todo := todo - {a};
      }
      ok := true;
    }

    /** `on_timeout`. Its `unwrap` cannot fail, even after handlers that did. The receive timeout
        it sets is none exactly when no deadline is left, which is when no server is connected
        unless a connection reply failed before; otherwise it is positive, no longer than the
        poll period, and does not pass the earliest deadline. */
    method OnTimeout(now: Time, wants: set<Addr>, failing: set<Addr>, timeoutOk: bool) returns (outcome: Outcome)
      requires Valid()
      modifies this`servers, this`deadlines, this`trace, this`recvTimeout
      ensures Valid() && outcome != Panicked
      ensures deadlines == map a | a in old(deadlines) && old(deadlines)[a] > now :: old(deadlines)[a]
      ensures forall a :: a in servers <==> Alive(old(View()), now, a)
      ensures outcome == Done <==>
                timeoutOk && forall a :: Requests(old(View()), now, wants, build, a) ==> a !in failing
      ensures outcome == Done ==> View() == Handle(old(View()), Timeout(now, wants), build)
      ensures outcome == Failed ==>
                && recvTimeout == old(recvTimeout)
                && if forall a :: Requests(old(View()), now, wants, build, a) ==> a !in failing
                   then View() == Handle(old(View()), Timeout(now, wants), build)
                   else StoppedEarly(Survivors(old(View()), now).servers, servers, wants, failing, build)
      ensures outcome == Done ==> (recvTimeout.None? <==> deadlines == map[])
      ensures outcome == Done && Agree(old(View())) ==> (recvTimeout.None? <==> servers == map[])
      ensures outcome == Done && recvTimeout.Some? ==>
                && 0 < recvTimeout.value <= REQUEST_POLL_PERIOD
                && (forall a :: a in deadlines ==> now + recvTimeout.value <= deadlines[a])
                && (recvTimeout.value == REQUEST_POLL_PERIOD || now + recvTimeout.value in deadlines.Values)
    {
      hide Poll, Events, AllPolled, NoneRefused, AfterTimeout, Requests, Survivors, Alive, StoppedEarly;
      SurvivorsValid(View(), now);
      SurvivorsAre(View(), now);
      var panicked := Expire(now);
      if panicked {
        return Panicked;
      }
      SameRequests(old(View()), now, wants, failing, build);
      var ok := PollAll(wants, failing);
      if !ok {
        return Failed;
      }
      ExpireThenPoll(old(View()), View(), now, wants, build);
      ok := SetRecvTimeout(now, timeoutOk);
      if !ok {
        return Failed;
      }
      outcome := Done;
    }

    method SetRecvTimeout(now: Time, timeoutOk: bool) returns (ok: bool)
      requires forall a :: a in deadlines ==> now < deadlines[a]
      modifies this`recvTimeout
      ensures ok == timeoutOk && (!ok ==> recvTimeout == old(recvTimeout))
      ensures ok ==> (recvTimeout.None? <==> deadlines == map[])
      ensures ok && recvTimeout.Some? ==>
                && 0 < recvTimeout.value <= REQUEST_POLL_PERIOD
                && (forall a :: a in deadlines ==> now + recvTimeout.value <= deadlines[a])
                && (recvTimeout.value == REQUEST_POLL_PERIOD || now + recvTimeout.value in deadlines.Values)
    {
      var head := Peek();
      var timeout := None;
      if head.Some? {
        var next := deadlines[head.value];
        var left := if next < now then 0 else next - now;
        left := if left < REQUEST_POLL_PERIOD then left else REQUEST_POLL_PERIOD;
        left := if left < CONN_TIMEOUT then left else CONN_TIMEOUT;
        timeout := Some(left);
      }
      if timeoutOk {
        recvTimeout := timeout;
      }
      ok := timeoutOk;
    }

    /** The handler that the receive loop calls in one turn. As long as no handler has failed,
        neither `unwrap` can fail, and after a timeout the receive timeout is none exactly when
        no server is connected. */
    method TakeTurn(turn: Turn) returns (outcome: Outcome)
      requires Valid() && Logged()
      modifies this
      ensures Valid() && Logged()
      ensures clean == (old(clean) && outcome == Done)
      ensures log == old(log) + (if outcome == Done then [InputOf(turn)] else [])
      ensures outcome == Done ==> View() == Handle(old(View()), InputOf(turn), build)
      ensures old(clean) ==> outcome != Panicked
      ensures clean && turn.TimedOut? ==> (recvTimeout.None? <==> servers == map[])
    {
      hide Handle, Client.Run, Alive, Requests, Sends;
      RunAgrees(log, build);
      LogSnoc(log, InputOf(turn), build);
      match turn {
        case Arrived(addr, time, msg, answer, sendOk) =>
          outcome := OnMessage(addr, time, msg, answer, sendOk);
        case TimedOut(now, wants, failing, timeoutOk) =>
          outcome := OnTimeout(now, wants, failing, timeoutOk);
      }
      if outcome == Done {
        log := log + [InputOf(turn)];
      } else {
        clean := false;
      }
    }

    /** `start`: the loop returns at the first handler that fails. On a client none of whose
        handlers has failed yet it never panics, whatever arrives and whichever calls fail. */
    method Start(turns: seq<Turn>) returns (outcome: Outcome, handled: nat)
      requires Valid() && Logged()
      modifies this
      ensures Valid() && Logged()
      ensures handled <= |turns| && (outcome == Done <==> handled == |turns|)
      ensures log == old(log) + Inputs(turns[..handled])
      ensures clean == (old(clean) && outcome == Done)
      ensures old(clean) ==> outcome != Panicked
      ensures clean ==> forall a :: a in servers <==> Online(log, a)
      ensures clean ==> forall a :: a in servers ==> a in trace && trace[a] == ClientStory.Story(log, a, build)
    {
      outcome, handled := Done, 0;
      while handled < |turns|
        invariant handled <= |turns| && Valid() && Logged() && clean == old(clean)
        invariant log == old(log) + Inputs(turns[..handled])
      {
        outcome := TakeTurn(turns[handled]);
        if outcome != Done {
          return;
        }
        assert turns[..handled + 1] == turns[..handled] + [turns[handled]];
        handled := handled + 1;
      }
      outcome := Done;
      if clean {
        forall a ensures a in servers <==> Online(log, a) {
          ServersOnline(log, build, a);
        }
        forall a | a in servers ensures a in trace && trace[a] == ClientStory.Story(log, a, build) {
          ClientStory.StoryExact(log, build, a);
        }
      }
    }
  }

  /** One turn of the receive loop: a datagram and whether a reply could be sent, or a timeout
      with the servers whose socket calls fail. */
  datatype Turn =
    | Arrived(addr: Addr, time: Time, msg: Option<Message>, answer: Answer, sendOk: bool)
    | TimedOut(now: Time, wants: set<Addr>, failing: set<Addr>, timeoutOk: bool)

  function InputOf(turn: Turn): (input: Input) {
    match turn
    case Arrived(addr, time, msg, answer, _) => Datagram(addr, time, msg, answer)
    case TimedOut(now, wants, _, _) => Timeout(now, wants)
  }

  function Inputs(turns: seq<Turn>): (log: seq<Input>) {
    seq(|turns|, i requires 0 <= i < |turns| => InputOf(turns[i]))
  }

  /** A connection accepted but not answered leaves a server without a deadline; its disconnect
      message then panics. */
  method UnansweredConnectThenDisconnect(build: Build, addr: Addr, time: Time)
    returns (first: Outcome, second: Outcome)
    ensures first == Failed && second == Panicked
  {
    var c := new GenericClient(build);
    first := c.OnMessage(addr, time, Some(Connect), Success, false);
    second := c.OnMessage(addr, time, Some(Disconnect), Success, true);
  }
}
