/** What must happen, not only what may: the trace of every connected server, told from the log of
    inputs and the documented graph alone. Nothing here mentions how the handlers work. */
module ClientStory {
  import opened Common
  import opened Client

  /** A callback of the first set for which the graph has an edge. */
  ghost predicate Edge(l: Ledger, callbacks: set<Callback>, c: Callback, build: Build) {
    c in callbacks && Follow(l, Called(c), build).Some?
  }

  /** What the graph demands next: the callback it has an edge for, and the request that edge owes. */
  ghost function Demanded(l: Ledger, callbacks: set<Callback>, build: Build): (events: seq<Event>) {
    if c :| Edge(l, callbacks, c, build) then
      var owed := Follow(l, Called(c), build).value.owed;
      [Called(c)] + (if owed.Some? then [Sent(owed.value)] else [])
    else []
  }

  const ANSWERS := {Started, StartFailed, StartRefused, Stopped, StopFailed, StopRefused, OnAudio}

  function Polls(wanted: bool): (callbacks: set<Callback>) {
    {PollStart(wanted), PollStop(wanted)}
  }

  ghost function GoOn(told: seq<Event>, callbacks: set<Callback>, build: Build): (story: seq<Event>) {
    var l := Read(told, build);
    if l.None? then told else told + Demanded(l.value, callbacks, build)
  }

  /** How one input continues the story of a server: each report it sends while online is heard and
      answered as the graph demands, and at each timeout it survives it is polled as the graph
      demands. Nothing else happens. */
  ghost function Continued(told: seq<Event>, online: bool, input: Input, a: Addr, build: Build): (story: seq<Event>) {
    match input
    case Datagram(addr, _, msg, _) =>
      if addr != a || msg.None? then told
      else (match msg.value
            case Connect => if online then told else []
            case Connected(report) => if online then GoOn(told + [Received(report)], ANSWERS, build) else told
            case Disconnect => [])
    case Timeout(_, wants) => GoOn(told, Polls(a in wants), build)
  }

  /** The story of a server since it connected. */
  ghost function Story(log: seq<Input>, a: Addr, build: Build): (story: seq<Event>) {
    if log == [] then []
    else
      var n := |log| - 1;
      Continued(Story(log[..n], a, build), Online(log[..n], a), log[n], a, build)
  }

  // ----- The handlers do what the graph demands

  /** Which edges there are does not depend on what was counted. */
  lemma EdgeIgnoresCounts(l: Ledger, io: IO, report: Report, c: Callback, build: Build)
    requires l.io == io && l.owed == None && l.heard == Some(report)
    ensures var e, h := Follow(l, Called(c), build), Follow(Hearing(io, report), Called(c), build);
            && (e.Some? <==> h.Some?) && (e.Some? ==> e.value.owed == h.value.owed && e.value.io == h.value.io)
  {
  }

  lemma ReactIsDemanded(l: Ledger, io: IO, report: Report, build: Build)
    requires l.io == io && l.owed == None && l.heard == Some(report)
    ensures Demanded(l, ANSWERS, build) == Events(React(io, report))
  {
    var r := React(io, report);
    forall c | c in ANSWERS
      ensures Edge(l, ANSWERS, c, build) <==> r.callback == Some(c)
      ensures r.callback == Some(c) ==> Follow(l, Called(c), build).value.owed == r.request
    {
      ReactIsTheEdge(io, report, c, build);
      EdgeIgnoresCounts(l, io, report, c, build);
    }
    AnswersAll(io, report);
    hide React, Follow;
  }

  lemma AnswersAll(io: IO, report: Report)
    ensures var r := React(io, report);
            (r.callback.Some? ==> r.callback.value in ANSWERS) && (r.callback.None? ==> r.request.None?)
  {
  }

  lemma PollIsDemanded(l: Ledger, io: IO, wanted: bool, build: Build)
    requires l.io == io && l.owed == None
    ensures Demanded(l, Polls(wanted), build) == Events(Poll(io, wanted, build))
  {
    var r := Poll(io, wanted, build);
    forall c | c in Polls(wanted)
      ensures Edge(l, Polls(wanted), c, build) <==> r.callback == Some(c)
      ensures r.callback == Some(c) ==> Follow(l, Called(c), build).value.owed == r.request
    {
    }
    assert r.callback.Some? ==> r.callback.value in Polls(wanted);
    hide Poll, Follow;
  }

  lemma HeardAndAnswered(told: seq<Event>, io: IO, report: Report, build: Build)
    requires Explains(told, io, build)
    ensures GoOn(told + [Received(report)], ANSWERS, build) == told + [Received(report)] + Events(React(io, report))
  {
    hide Read, React, Events;
    ReadAppend(told, Received(report), build);
    ReactIsDemanded(Read(told + [Received(report)], build).value, io, report, build);
  }

  lemma PolledAndAnswered(told: seq<Event>, io: IO, wanted: bool, build: Build)
    requires Explains(told, io, build)
    ensures GoOn(told, Polls(wanted), build) == told + Events(Poll(io, wanted, build))
  {
    hide Read, Poll, Events;
    PollIsDemanded(Read(told, build).value, io, wanted, build);
  }

  /** One input. */
  lemma HandledStory(s: State, input: Input, told: seq<Event>, build: Build, a: Addr)
    requires Agree(s) && AllExplained(s, build) && a in s.servers && s.trace[a] == told
    requires a in Handle(s, input, build).servers
    ensures a in Handle(s, input, build).trace
    ensures Handle(s, input, build).trace[a] == Continued(told, true, input, a, build)
  {
    hide Explains, React, Poll, Events, GoOn;
    match input
    case Datagram(addr, time, msg, answer) =>
      if addr == a && msg.Some? && msg.value.Connected? {
        HeardAndAnswered(told, s.servers[a], msg.value.report, build);
      }
    case Timeout(now, wants) => PolledAndAnswered(told, s.servers[a], a in wants, build);
  }

  lemma NewStory(s: State, input: Input, build: Build, a: Addr)
    requires Agree(s) && a !in s.servers && a in Handle(s, input, build).servers
    ensures a in Handle(s, input, build).trace && Handle(s, input, build).trace[a] == []
    ensures forall told :: Continued(told, false, input, a, build) == []
  {
    hide React, Poll, Events, GoOn;
  }

  /** The client's traces are the stories: for every run of successful handlers, each connected
      server's trace is what the log and the graph say must have happened since it connected,
      event by event, and its IO state is where that leads. */
  lemma {:induction false} StoryExact(log: seq<Input>, build: Build, a: Addr)
    requires Online(log, a)
    ensures var s, story := Run(log, build), Story(log, a, build);
            && a in s.servers && a in s.trace && s.trace[a] == story
            && Read(story, build).Some? && Read(story, build).value.io == s.servers[a]
  {
    ServersOnline(log, build, a);
    RunKeeps(log, build);
    var n := |log| - 1;
    var s, input := Run(log[..n], build), log[n];
    RunKeeps(log[..n], build);
    ServersOnline(log[..n], build, a);
    assert Run(log, build) == Handle(s, input, build);
    hide Handle, Online, Continued, Explains, Timed;
    if Online(log[..n], a) {
      StoryExact(log[..n], build, a);
      HandledStory(s, input, Story(log[..n], a, build), build, a);
    } else {
      NewStory(s, input, build, a);
    }
    assert Explains(Run(log, build).trace[a], Run(log, build).servers[a], build);
    ExplainsMeans(Run(log, build).trace[a], Run(log, build).servers[a], build);
  }

  lemma ExplainsMeans(trace: seq<Event>, io: IO, build: Build)
    requires Explains(trace, io, build)
    ensures Read(trace, build).Some? && Read(trace, build).value.io == io
  {
  }

  // ----- What that means

  /** The reports in a trace, and those the log has for a server since it connected. */
  ghost function Reports(trace: seq<Event>): (reports: seq<Report>) {
    if trace == [] then []
    else
      var n := |trace| - 1;
      Reports(trace[..n]) + (if trace[n].Received? then [trace[n].report] else [])
  }

  ghost function Heard(log: seq<Input>, a: Addr): (reports: seq<Report>) {
    if log == [] then []
    else
      var n := |log| - 1;
      var before, online := Heard(log[..n], a), Online(log[..n], a);
      if !log[n].Datagram? || log[n].addr != a || log[n].msg.None? then before
      else match log[n].msg.value
        case Connect => if online then before else []
        case Connected(report) => if online then before + [report] else before
        case Disconnect => []
  }

  lemma ReportsSnoc(trace: seq<Event>, e: Event)
    ensures Reports(trace + [e]) == Reports(trace) + (if e.Received? then [e.report] else [])
  {
    assert (trace + [e])[..|trace|] == trace;
  }

  lemma GoOnHearsNothing(told: seq<Event>, callbacks: set<Callback>, build: Build)
    ensures told <= GoOn(told, callbacks, build) && Reports(GoOn(told, callbacks, build)) == Reports(told)
    ensures forall i :: |told| <= i < |GoOn(told, callbacks, build)| ==> !GoOn(told, callbacks, build)[i].Received?
  {
    hide Read, Follow, Reports;
    var l := Read(told, build);
    if l.Some? {
      var more := Demanded(l.value, callbacks, build);
      if |more| > 0 {
        ReportsSnoc(told, more[0]);
        assert told + more[..1] == told + [more[0]];
        if |more| == 2 {
          ReportsSnoc(told + [more[0]], more[1]);
          assert told + more == told + [more[0]] + [more[1]];
        } else {
          assert told + more == told + [more[0]];
        }
      } else {
        assert told + more == told;
      }
    }
  }

  /** Every report is heard: in order, the reports in a server's story are those that the log has
      from it while it was online. */
  lemma {:induction false} HeardAll(log: seq<Input>, a: Addr, build: Build)
    ensures Reports(Story(log, a, build)) == Heard(log, a)
  {
    if log != [] {
      var n := |log| - 1;
      var told := Story(log[..n], a, build);
      hide GoOn, Online, Reports;
      HeardAll(log[..n], a, build);
      NoReports();
      match log[n]
      case Datagram(addr, _, msg, _) =>
        if addr == a && msg.Some? && msg.value.Connected? {
          ReportsSnoc(told, Received(msg.value.report));
          GoOnHearsNothing(told + [Received(msg.value.report)], ANSWERS, build);
        }
      case Timeout(_, wants) => GoOnHearsNothing(told, Polls(a in wants), build);
    }
  }

  lemma NoReports()
    ensures Reports([]) == []
  {
  }

  /** What follows the event at `i` begins with what the graph demands. */
  ghost predicate AnsweredAt(story: seq<Event>, i: nat, build: Build)
    requires i < |story|
  {
    GoOn(story[..i + 1], ANSWERS, build) <= story
  }

  lemma AnsweredLonger(told: seq<Event>, story: seq<Event>, i: nat, build: Build)
    requires i < |told| && told <= story && AnsweredAt(told, i, build)
    ensures AnsweredAt(story, i, build)
  {
    hide GoOn;
    assert story[..i + 1] == told[..i + 1];
  }

  /** A story that went on from `told`. */
  lemma GoOnAnswers(told: seq<Event>, callbacks: set<Callback>, build: Build, i: nat)
    requires i < |GoOn(told, callbacks, build)| && GoOn(told, callbacks, build)[i].Received?
    ensures i < |told| && told <= GoOn(told, callbacks, build) && GoOn(told, callbacks, build)[i] == told[i]
  {
    hide GoOn;
    GoOnHearsNothing(told, callbacks, build);
  }

  lemma ContinuedAnswers(told: seq<Event>, online: bool, input: Input, a: Addr, build: Build, i: nat)
    requires i < |told| && told[i].Received? ==> AnsweredAt(told, i, build)
    requires i < |Continued(told, online, input, a, build)| && Continued(told, online, input, a, build)[i].Received?
    ensures AnsweredAt(Continued(told, online, input, a, build), i, build)
  {
    hide GoOn, AnsweredAt;
    var story := Continued(told, online, input, a, build);
    if input.Timeout? {
      GoOnAnswers(told, Polls(a in input.wants), build, i);
      AnsweredLonger(told, story, i, build);
    } else if input.addr == a && input.msg.Some? && input.msg.value.Connected? && online {
      var more := told + [Received(input.msg.value.report)];
      GoOnAnswers(more, ANSWERS, build, i);
      if i < |told| {
        AnsweredLonger(told, story, i, build);
      } else {
        LastAnswered(more, build);
      }
    }
  }

  lemma LastAnswered(told: seq<Event>, build: Build)
    requires told != [] && |told| <= |GoOn(told, ANSWERS, build)| && told <= GoOn(told, ANSWERS, build)
    ensures AnsweredAt(GoOn(told, ANSWERS, build), |told| - 1, build)
  {
    hide GoOn;
    assert GoOn(told, ANSWERS, build)[..|told|] == told;
  }

  /** Every report is answered at once: what follows it in the story is what the graph demands. */
  lemma {:induction false} AnsweredAtOnce(log: seq<Input>, a: Addr, build: Build, i: nat)
    requires i < |Story(log, a, build)| && Story(log, a, build)[i].Received?
    ensures AnsweredAt(Story(log, a, build), i, build)
  {
    hide AnsweredAt, Continued, Online;
    var n := |log| - 1;
    var told := Story(log[..n], a, build);
    if i < |told| && told[i].Received? {
      AnsweredAtOnce(log[..n], a, build, i);
    }
    ContinuedAnswers(told, Online(log[..n], a), log[n], a, build, i);
  }

  lemma {:induction false} ReadPrefix(trace: seq<Event>, k: nat, build: Build)
    requires Read(trace, build).Some? && k <= |trace|
    ensures Read(trace[..k], build).Some?
  {
    if k < |trace| {
      ReadPrefix(trace[..|trace| - 1], k, build);
      assert trace[..|trace| - 1][..k] == trace[..k];
    } else {
      assert trace[..k] == trace;
    }
  }

  /** No audio is withheld: each audio message received while the server is Active is handed to the
      application at once. */
  lemma AudioHandedOver(log: seq<Input>, build: Build, a: Addr, i: nat)
    requires Online(log, a) && i < |Story(log, a, build)|
    requires Story(log, a, build)[i] == Received(Audio)
    requires var l := Read(Story(log, a, build)[..i], build); l.Some? && l.value.io == Active
    ensures i + 1 < |Story(log, a, build)| && Story(log, a, build)[i + 1] == Called(OnAudio)
  {
    hide Read, Story, Online;
    var story := Story(log, a, build);
    StoryExact(log, build, a);
    AnsweredAtOnce(log, a, build, i);
    ReadPrefix(story, i + 1, build);
    assert story[..i + 1] == story[..i] + [Received(Audio)];
    ReadAppend(story[..i], Received(Audio), build);
    ReactIsDemanded(Read(story[..i + 1], build).value, Active, Audio, build);
    assert Events(React(Active, Audio)) == [Called(OnAudio)];
  }

  /** A message concerns its sender alone, and a repeated connection request not even its state. */
  lemma OthersUntouched(s: State, addr: Addr, time: Time, msg: Message, answer: Answer, b: Addr)
    ensures var s' := Deliver(s, addr, time, msg, answer);
            && (b != addr ==>
                  && (b in s'.servers <==> b in s.servers) && (b in s.servers ==> s'.servers[b] == s.servers[b])
                  && (b in s'.deadlines <==> b in s.deadlines) && (b in s.deadlines ==> s'.deadlines[b] == s.deadlines[b])
                  && (b in s'.trace <==> b in s.trace) && (b in s.trace ==> s'.trace[b] == s.trace[b]))
            && (msg == Connect && addr in s.servers ==> s'.servers == s.servers && s'.trace == s.trace)
  {
  }
}
