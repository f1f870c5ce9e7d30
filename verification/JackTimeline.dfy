/** What the JACK process callback does to the timelines of its rings, over whole runs
    (syfala_jack/src/lib.rs:106-127). */
module JackTimeline {
  import DivMod
  import opened Common
  import opened IndexedQueue
  import opened Interleaver

  /** The timeline position of a port at a frame: `frame * P + port` (see PositionIs). */
  ghost function Position(frame: nat, port: nat, P: nat): (p: nat) {
    DivMod.Boundary(frame, P) + port
  }

  lemma PositionIs(frame: nat, port: nat, P: nat)
    requires port < P
    ensures Position(frame, port, P) == frame * P + port
    ensures Position(frame, port, P) / P == frame && Position(frame, port, P) % P == port
  {
    DivMod.BoundaryIsMul(frame, P);
    DivMod.InBlock(Position(frame, port, P), P, frame);
  }

  // ----- Capture: input ports to a ring

  /** One process cycle as a sender sees it: the frame time, its ports' buffers, and the room
      it found in the ring. */
  datatype Cycle<T> = Cycle(time: nat, ports: seq<seq<T>>, frames: nat, room: nat)

  /** A cycle, or a step of the thread at the other end of the ring. */
  datatype CaptureStep<T> = Capture(cycle: Cycle<T>) | Net(step: Step<T>)

  ghost predicate CycleOk<T>(c: Cycle<T>, first: nat, P: nat) {
    first <= c.time && |c.ports| == P && Buffers(c.ports, c.frames)
  }

  ghost predicate CapturesOk<T>(run: seq<CaptureStep<T>>, first: nat, P: nat) {
    forall i :: 0 <= i < |run| ==>
      if run[i].Capture? then CycleOk(run[i].cycle, first, P) else !run[i].step.Send?
  }

  /** The callback sends the interleaved cycle at `(time - first) * P`. */
  ghost function RingStep<T>(s: CaptureStep<T>, first: nat, P: nat): (step: Step<T>)
    requires s.Capture? ==> CycleOk(s.cycle, first, P)
  {
    match s
    case Capture(c) =>
      Send(DivMod.Boundary(c.time - first, P), Interleave(c.ports, c.frames, c.frames), c.room)
    case Net(step) => step
  }

  ghost function RingSteps<T>(run: seq<CaptureStep<T>>, first: nat, P: nat): (steps: seq<Step<T>>)
    requires CapturesOk(run, first, P)
    ensures |steps| == |run|
    ensures forall i :: 0 <= i < |run| ==> steps[i] == RingStep(run[i], first, P)
  {
    seq(|run|, i requires 0 <= i < |run| => RingStep(run[i], first, P))
  }

  /** The cycle recorded `v` on `port` at absolute frame `frame`. */
  ghost predicate Recorded<T>(c: Cycle<T>, port: nat, frame: nat, v: T) {
    && port < |c.ports| && c.time <= frame < c.time + c.frames
    && frame - c.time < |c.ports[port]| && c.ports[port][frame - c.time] == v
  }

  ghost predicate SomeCycleRecorded<T>(run: seq<CaptureStep<T>>, port: nat, frame: nat, v: T) {
    exists i :: 0 <= i < |run| && run[i].Capture? && Recorded(run[i].cycle, port, frame, v)
  }

  /** A value that a cycle submits for the position of a port at a frame is what it recorded on
      that port at that frame. */
  lemma OfferIsRecorded<T>(c: Cycle<T>, first: nat, P: nat, frame: nat, port: nat, v: T)
    requires port < P && CycleOk(c, first, P)
    requires Offers(RingStep(Capture(c), first, P), Position(frame, port, P), v)
    ensures Recorded(c, port, first + frame, v)
  {
    hide Interleave;
    var start := c.time - first;
    DivMod.BoundaryLe(if frame < start then frame else start, if frame < start then start else frame, P);
    DivMod.BoundaryAdd(start, frame - start, P);
    if start + c.frames <= frame {
      DivMod.BoundaryLe(c.frames, frame - start, P);
    }
    InterleaveAt(c.ports, c.frames, c.frames, port, frame - start);
  }

  /** What a cycle leaves for a port at a frame: padding if the cycle started after that frame, and
      otherwise what it recorded. */
  ghost predicate CapturedAs<T>(c: Cycle<T>, port: nat, frame: nat, pad: T, v: T) {
    if frame < c.time then v == pad else Recorded(c, port, frame, v)
  }

  lemma PutIsCaptured<T>(c: Cycle<T>, first: nat, P: nat, frame: nat, port: nat, pad: T, v: T)
    requires port < P && CycleOk(c, first, P)
    requires Puts(RingStep(Capture(c), first, P), Position(frame, port, P), pad, v)
    ensures CapturedAs(c, port, first + frame, pad, v)
  {
    hide Interleave;
    var start := c.time - first;
    if Position(frame, port, P) < DivMod.Boundary(start, P) {
      if start <= frame {
        DivMod.BoundaryLe(start, frame, P);
      }
    } else {
      OfferIsRecorded(c, first, P, frame, port, v);
    }
  }

  /** The captured timeline, exactly: the position of a port at a frame was filled by one cycle `i`
      (see `FilledOnce`). It holds what that cycle recorded on that port at that frame, and
      padding exactly when the cycle only started after it, the frame having been skipped. */
  lemma CapturedBy<T>(run: seq<CaptureStep<T>>, first: nat, P: nat, capacity: nat, pad: T, frame: nat, port: nat)
    returns (i: nat)
    requires port < P && CapturesOk(run, first, P)
    requires Legal(RingSteps(run, first, P), 0, capacity, pad)
    requires Position(frame, port, P) < |Run(RingSteps(run, first, P), 0, pad).history|
    ensures i < |run| && run[i].Capture? && Fills(RingSteps(run, first, P), i, Position(frame, port, P), 0, pad)
    ensures CapturedAs(run[i].cycle, port, first + frame, pad,
                       Run(RingSteps(run, first, P), 0, pad).history[Position(frame, port, P)])
  {
    hide IndexedQueue.Run, Legal, Puts, CapturedAs, Position;
    var steps := RingSteps(run, first, P);
    CountsHistory(steps, 0, capacity, pad);
    i := FilledBy(steps, 0, capacity, pad, Position(frame, port, P));
    assert run[i].Capture?;
    PutIsCaptured(run[i].cycle, first, P, frame, port, pad, Run(steps, 0, pad).history[Position(frame, port, P)]);
  }

  /** Capture timeline: over every run of process cycles, skipped cycles and full rings
      included, the ring position of a port at a frame holds a sample that some cycle recorded
      on that port at frame `first + frame`, or padding. */
  lemma CaptureTimeline<T>(run: seq<CaptureStep<T>>, first: nat, P: nat, capacity: nat, pad: T, frame: nat, port: nat)
    requires port < P && CapturesOk(run, first, P)
    requires Legal(RingSteps(run, first, P), 0, capacity, pad)
    requires Position(frame, port, P) < |Run(RingSteps(run, first, P), 0, pad).history|
    ensures var v := Run(RingSteps(run, first, P), 0, pad).history[Position(frame, port, P)];
            v == pad || SomeCycleRecorded(run, port, first + frame, v)
  {
    hide IndexedQueue.Run, Legal, RingSteps, Recorded, Position, CapturesOk;
    var i := CapturedBy(run, first, P, capacity, pad, frame, port);
  }

  lemma SubmittedIsRecorded<T>(run: seq<CaptureStep<T>>, first: nat, P: nat, frame: nat, port: nat, v: T)
    requires port < P && CapturesOk(run, first, P)
    requires Submitted(RingSteps(run, first, P), Position(frame, port, P), v)
    ensures SomeCycleRecorded(run, port, first + frame, v)
  {
    hide Recorded;
    var steps := RingSteps(run, first, P);
    var i :| 0 <= i < |steps| && Offers(steps[i], Position(frame, port, P), v);
    OfferIsRecorded(run[i].cycle, first, P, frame, port, v);
  }

  /** The frame after the last captured cycle. */
  ghost function EndTime<T>(run: seq<CaptureStep<T>>, first: nat): (t: nat) {
    if run == [] then first
    else
      var n := |run| - 1;
      if run[n].Capture? then run[n].cycle.time + run[n].cycle.frames else EndTime(run[..n], first)
  }

  /** No cycle is skipped or repeated, and the ring always has room for it. */
  ghost predicate Steady<T>(run: seq<CaptureStep<T>>, first: nat, P: nat) {
    run == [] ||
    var n := |run| - 1;
    && Steady(run[..n], first, P)
    && (run[n].Capture? ==>
          run[n].cycle.time == EndTime(run[..n], first) && DivMod.Boundary(run[n].cycle.frames, P) <= run[n].cycle.room)
  }

  /** Every element was submitted for its position: no padding. */
  ghost predicate AllSubmitted<T>(history: seq<T>, steps: seq<Step<T>>) {
    forall i: nat :: i < |history| ==> Submitted(steps, i, history[i])
  }

  /** The ring has taken all frames up to `end` and nothing else. */
  ghost predicate SteadyAt<T>(s: State<T>, steps: seq<Step<T>>, first: nat, end: nat, P: nat) {
    && first <= end && s.tx == |s.history| == DivMod.Boundary(end - first, P)
    && AllSubmitted(s.history, steps)
  }

  lemma {:induction false} SteadySubmits<T>(run: seq<CaptureStep<T>>, first: nat, P: nat, capacity: nat, pad: T)
    requires CapturesOk(run, first, P) && Steady(run, first, P)
    requires Legal(RingSteps(run, first, P), 0, capacity, pad)
    ensures SteadyAt(Run(RingSteps(run, first, P), 0, pad), RingSteps(run, first, P), first, EndTime(run, first), P)
  {
    if run != [] {
      var n := |run| - 1;
      var before, step := RingStepsSnoc(run, first, P);
      hide Apply, SteadyAt, CycleOk, CapturesOk, RingSteps, RingStep, IndexedQueue.Run, Legal;
      RunSnoc(before, step, 0, capacity, pad);
      SteadySubmits(run[..n], first, P, capacity, pad);
      SteadyStep(Run(before, 0, pad), before, run[n], first, P, EndTime(run[..n], first), pad);
    }
  }

  lemma RingStepsSnoc<T>(run: seq<CaptureStep<T>>, first: nat, P: nat) returns (before: seq<Step<T>>, step: Step<T>)
    requires run != [] && CapturesOk(run, first, P)
    ensures CapturesOk(run[..|run| - 1], first, P) && before == RingSteps(run[..|run| - 1], first, P)
    ensures var last := run[|run| - 1]; if last.Capture? then CycleOk(last.cycle, first, P) else !last.step.Send?
    ensures step == RingStep(run[|run| - 1], first, P) && RingSteps(run, first, P) == before + [step]
  {
    hide RingStep, CycleOk;
    before, step := RingSteps(run[..|run| - 1], first, P), RingStep(run[|run| - 1], first, P);
  }

  lemma RunSnoc<T>(steps: seq<Step<T>>, step: Step<T>, base: nat, capacity: nat, pad: T)
    ensures Run(steps + [step], base, pad) == Apply(Run(steps, base, pad), step, pad)
    ensures Legal(steps + [step], base, capacity, pad) ==> Legal(steps, base, capacity, pad)
  {
    hide Apply, Enabled;
    assert (steps + [step])[..|steps|] == steps;
  }

  lemma SteadyStep<T>(s: State<T>, before: seq<Step<T>>, last: CaptureStep<T>, first: nat, P: nat, end: nat, pad: T)
    requires SteadyAt(s, before, first, end, P)
    requires if last.Capture? then CycleOk(last.cycle, first, P) else !last.step.Send?
    requires last.Capture? ==> last.cycle.time == end && DivMod.Boundary(last.cycle.frames, P) <= last.cycle.room
    ensures SteadyAt(Apply(s, RingStep(last, first, P), pad), before + [RingStep(last, first, P)], first,
                     if last.Capture? then end + last.cycle.frames else end, P)
  {
    hide Apply;
    var step := RingStep(last, first, P);
    var more := before + [step];
    forall i: nat | i < |s.history| ensures Submitted(more, i, s.history[i]) {
      assert Submitted(before, i, s.history[i]);
      var k :| 0 <= k < |before| && Offers(before[k], i, s.history[i]);
      assert more[k] == before[k];
    }
    if last.Capture? {
      var pushed := SendFills(s, step.idx, step.values, step.room, pad);
      forall i: nat | i < |pushed| ensures Submitted(more, s.tx + i, pushed[i]) {
        assert Offers(more[|before|], s.tx + i, pushed[i]);
      }
      DivMod.BoundaryAdd(end - first, last.cycle.frames, P);
    } else {
      NetKeepsHistory(s, last.step, pad);
    }
  }

  lemma NetKeepsHistory<T>(s: State<T>, step: Step<T>, pad: T)
    requires !step.Send?
    ensures Apply(s, step, pad).history == s.history && Apply(s, step, pad).tx == s.tx
  {
  }

  /** A steady capture puts on the ring, at each position, exactly what was recorded for it. */
  lemma SteadyCapture<T>(run: seq<CaptureStep<T>>, first: nat, P: nat, capacity: nat, pad: T, frame: nat, port: nat)
    requires port < P && CapturesOk(run, first, P) && Steady(run, first, P)
    requires Legal(RingSteps(run, first, P), 0, capacity, pad)
    requires Position(frame, port, P) < |Run(RingSteps(run, first, P), 0, pad).history|
    ensures SomeCycleRecorded(run, port, first + frame,
                              Run(RingSteps(run, first, P), 0, pad).history[Position(frame, port, P)])
  {
    hide IndexedQueue.Run, Legal, RingStep, Recorded, Submitted, Steady;
    SteadySubmits(run, first, P, capacity, pad);
    SubmittedIsRecorded(run, first, P, frame, port,
                        Run(RingSteps(run, first, P), 0, pad).history[Position(frame, port, P)]);
  }

  // ----- Playback: a ring to output ports

  /** One process cycle as a receiver sees it: sends of the other thread before it, then the
      receive at `frame`, whose pops (at most one per output sample) may interleave with
      further sends. */
  datatype PlayCycle<T> = PlayCycle(frame: nat, frames: nat, before: seq<Step<T>>, during: seq<Step<T>>)

  ghost predicate Only<T>(steps: seq<Step<T>>, pops: bool) {
    forall i :: 0 <= i < |steps| ==> steps[i].Send? || (pops && steps[i].Pop?)
  }

  ghost function PopCount<T>(steps: seq<Step<T>>): (n: nat) {
    if steps == [] then 0
    else PopCount(steps[..|steps| - 1]) + (if steps[|steps| - 1].Pop? then 1 else 0)
  }

  ghost function Began<T>(s: State<T>, c: PlayCycle<T>, P: nat, pad: T): (s': State<T>) {
    Apply(RunFrom(s, c.before, pad), Begin(DivMod.Boundary(c.frame, P)), pad)
  }

  ghost function Pulled<T>(s: State<T>, c: PlayCycle<T>, P: nat, pad: T): (s': State<T>) {
    RunFrom(Began(s, c, P, pad), c.during, pad)
  }

  ghost predicate CycleLegal<T>(s: State<T>, c: PlayCycle<T>, P: nat, capacity: nat, pad: T) {
    && Only(c.before, false) && LegalFrom(s, c.before, capacity, pad)
    && Only(c.during, true) && LegalFrom(Began(s, c, P, pad), c.during, capacity, pad)
    && PopCount(c.during) <= DivMod.Boundary(c.frames, P)
  }

  lemma {:induction false} SendsKeepRx<T>(s: State<T>, steps: seq<Step<T>>, pad: T)
    requires Only(steps, false)
    ensures RunFrom(s, steps, pad).rx == s.rx && RunFrom(s, steps, pad).recv == s.recv
  {
    if steps != [] {
      SendsKeepRx(s, steps[..|steps| - 1], pad);
    }
  }

  /** Every pull yields one element until what the receive offered is used up. */
  lemma {:induction false} PullsYield<T>(s: State<T>, steps: seq<Step<T>>, pad: T)
    requires Only(steps, true) && s.recv.Receiving? && s.recv.chunk <= |s.slots|
    ensures var s' := RunFrom(s, steps, pad);
            && s'.rx == s.rx && s'.recv.Receiving? && s'.recv.idx == s.recv.idx
            && s'.recv.chunk == s.recv.chunk <= |s'.slots|
            && |s'.recv.yielded| == |s.recv.yielded| + Min(PopCount(steps), Offered(s.recv))
            && Offered(s'.recv) == Offered(s.recv) - Min(PopCount(steps), Offered(s.recv))
  {
    if steps != [] {
      PullsYield(s, steps[..|steps| - 1], pad);
    }
  }

  /** How many elements of the chunk `n` pulls iterate over, of a receive at `idx` whose counter
      stands at `rx`: none while they yield padding, and those skipped together with the first. */
  ghost function Iterated(rx: nat, idx: nat, chunk: nat, n: nat): (taken: nat) {
    if n == 0 || idx + n <= rx then 0 else Min(chunk, idx + n - rx)
  }

  /** A receive just opened at `idx`. */
  ghost predicate Opened<T>(s: State<T>, idx: nat) {
    && s.recv.Receiving? && s.recv.idx == idx && s.recv.chunk <= |s.slots| && s.recv.taken == 0
    && s.recv.pads == (if idx < s.rx then s.rx - idx else 0)
    && s.recv.skip == (if s.rx < idx then idx - s.rx else 0)
  }

  lemma {:induction false} PullsIterate<T>(s: State<T>, steps: seq<Step<T>>, idx: nat, pad: T)
    requires Only(steps, true) && Opened(s, idx)
    ensures var s', n := RunFrom(s, steps, pad), PopCount(steps);
            && s'.rx == s.rx && s'.recv.Receiving? && s'.recv.chunk == s.recv.chunk <= |s'.slots|
            && s'.recv.taken == Iterated(s.rx, idx, s.recv.chunk, n)
            && s'.recv.pads == (if idx + n < s.rx then s.rx - idx - n else 0)
            && s'.recv.skip == (if n == 0 && s.rx < idx then idx - s.rx else 0)
  {
    if steps != [] {
      PullsIterate(s, steps[..|steps| - 1], idx, pad);
    }
  }

  /** Everything yielded to the cycle is the timeline itself from `idx` on: no front padding. */
  ghost predicate OnTimeline<T>(s: State<T>, idx: nat) {
    && s.recv.Receiving?
    && (s.recv.yielded == [] || idx + |s.recv.yielded| <= |s.history|)
    && forall j :: 0 <= j < |s.recv.yielded| ==> s.recv.yielded[j] == s.history[idx + j]
  }

  /** No receive is under way. */
  ghost predicate Resting<T>(s: State<T>, capacity: nat, pad: T) {
    Inv(s, 0, capacity, pad) && s.recv.Idle?
  }

  /** Nor has one gone past the start of `frame`. */
  ghost predicate Ready<T>(s: State<T>, frame: nat, P: nat, capacity: nat, pad: T) {
    Resting(s, capacity, pad) && s.rx <= DivMod.Boundary(frame, P)
  }

  /** An iterator asked for no position before the receive counter, then dropped. */
  lemma NoFrontPadding<T>(s: State<T>, frame: nat, frames: nat, P: nat, capacity: nat, pad: T)
    requires Inv(s, 0, capacity, pad) && s.recv.Receiving?
    requires s.rx <= s.recv.idx == DivMod.Boundary(frame, P)
    requires |s.recv.yielded| <= DivMod.Boundary(frames, P)
    ensures OnTimeline(s, DivMod.Boundary(frame, P))
    ensures Ready(Apply(s, Commit, pad), frame + frames, P, capacity, pad)
  {
    StepKeeps(s, Commit, 0, capacity, pad);
    DivMod.BoundaryAdd(frame, frames, P);
    YieldsBelowTx(s, 0, capacity, pad);
  }

  lemma CycleKeeps<T>(s: State<T>, c: PlayCycle<T>, P: nat, capacity: nat, pad: T)
    requires Resting(s, capacity, pad) && CycleLegal(s, c, P, capacity, pad)
    ensures var s1 := Pulled(s, c, P, pad);
            && Inv(s1, 0, capacity, pad) && s1.rx == s.rx
            && s1.recv.Receiving? && s1.recv.idx == DivMod.Boundary(c.frame, P)
            && |s1.recv.yielded| <= DivMod.Boundary(c.frames, P)
  {
    var s0 := RunFrom(s, c.before, pad);
    RunKeeps(s, c.before, 0, capacity, pad);
    SendsKeepRx(s, c.before, pad);
    StepKeeps(s0, Begin(DivMod.Boundary(c.frame, P)), 0, capacity, pad);
    RunKeeps(Began(s, c, P, pad), c.during, 0, capacity, pad);
    PullsYield(Began(s, c, P, pad), c.during, pad);
  }

  /** Where the counter stands after `n` pulls of a receive at `idx` from a timeline filled up to
      `tx`: right after the last position asked for, but neither before where it stood nor after
      what there was; and unmoved if nothing was asked for. */
  ghost function Reached(rx: nat, tx: nat, idx: nat, n: nat): (rx': nat) {
    if n == 0 || Min(tx, idx + n) < rx then rx else Min(tx, idx + n)
  }

  /** What a cycle consumes: the counter moves to where its pulls reached, exactly the elements
      before that leave the ring, and every position the cycle was given lies before it. */
  lemma CycleConsumes<T>(s: State<T>, c: PlayCycle<T>, P: nat, capacity: nat, pad: T)
    requires Resting(s, capacity, pad) && CycleLegal(s, c, P, capacity, pad)
    ensures var s1 := Pulled(s, c, P, pad);
            var idx, after := DivMod.Boundary(c.frame, P), Apply(s1, Commit, pad);
            && s1.recv.Receiving?
            && after.rx == Reached(s.rx, RunFrom(s, c.before, pad).tx, idx, PopCount(c.during))
            && after.history == s1.history && after.rx <= |after.history| && after.slots == after.history[after.rx..]
            && (s1.recv.yielded != [] ==> idx + |s1.recv.yielded| <= after.rx)
  {
    var idx, s0, s1 := DivMod.Boundary(c.frame, P), RunFrom(s, c.before, pad), Pulled(s, c, P, pad);
    RunKeeps(s, c.before, 0, capacity, pad);
    SendsKeepRx(s, c.before, pad);
    PullsIterate(Began(s, c, P, pad), c.during, idx, pad);
    PullsYield(Began(s, c, P, pad), c.during, pad);
    hide CycleLegal, RunFrom, LegalFrom, Only, PopCount;
    CycleKeeps(s, c, P, capacity, pad);
    StepKeeps(s1, Commit, 0, capacity, pad);
  }

  /** The value at timeline position `p` as a receive sees it whose counter stands at `rx`: padding
      if that position was consumed before, the timeline element otherwise. */
  ghost predicate SeenAt<T>(p: nat, rx: nat, history: seq<T>, pad: T, v: T) {
    if p < rx then v == pad else p < |history| && v == history[p]
  }

  /** What any cycle gets, wherever it starts: element `j` is the timeline's at `j` positions after
      the start of the cycle, or padding where the timeline was consumed before. */
  lemma AnyCyclePlays<T>(s: State<T>, c: PlayCycle<T>, P: nat, capacity: nat, pad: T, j: nat)
    requires Resting(s, capacity, pad) && CycleLegal(s, c, P, capacity, pad)
    ensures var s1 := Pulled(s, c, P, pad);
            && s1.recv.Receiving? && Resting(Apply(s1, Commit, pad), capacity, pad)
            && (j < |s1.recv.yielded| ==>
                  SeenAt(DivMod.Boundary(c.frame, P) + j, s.rx, s1.history, pad, s1.recv.yielded[j]))
  {
    hide CycleLegal, Pulled;
    var s1 := Pulled(s, c, P, pad);
    CycleKeeps(s, c, P, capacity, pad);
    StepKeeps(s1, Commit, 0, capacity, pad);
    YieldsBelowTx(s1, 0, capacity, pad);
  }

  /** A cycle that asks for no position before the receive counter gets the timeline itself,
      without front padding, and leaves the counter no later than its own end. */
  lemma CyclePlays<T>(s: State<T>, c: PlayCycle<T>, frame: nat, P: nat, capacity: nat, pad: T)
    requires Ready(s, frame, P, capacity, pad) && frame <= c.frame
    requires CycleLegal(s, c, P, capacity, pad)
    ensures OnTimeline(Pulled(s, c, P, pad), DivMod.Boundary(c.frame, P))
    ensures Ready(Apply(Pulled(s, c, P, pad), Commit, pad), c.frame + c.frames, P, capacity, pad)
  {
    hide CycleLegal, Pulled, Apply, OnTimeline;
    DivMod.BoundaryLe(frame, c.frame, P);
    CycleKeeps(s, c, P, capacity, pad);
    NoFrontPadding(Pulled(s, c, P, pad), c.frame, c.frames, P, capacity, pad);
  }

  // ----- Whole runs of playback cycles

  ghost function Played<T>(cycles: seq<PlayCycle<T>>, P: nat, pad: T): (s: State<T>) {
    if cycles == [] then Start(0)
    else
      var n := |cycles| - 1;
      Apply(Pulled(Played(cycles[..n], P, pad), cycles[n], P, pad), Commit, pad)
  }

  /** Every cycle found the room its sends needed. The cycles may start anywhere. */
  ghost predicate AllLegal<T>(cycles: seq<PlayCycle<T>>, P: nat, capacity: nat, pad: T) {
    cycles == [] ||
    var n := |cycles| - 1;
    AllLegal(cycles[..n], P, capacity, pad) && CycleLegal(Played(cycles[..n], P, pad), cycles[n], P, capacity, pad)
  }

  lemma OneCycle<T>(c: PlayCycle<T>, P: nat, capacity: nat, pad: T)
    ensures Played([c], P, pad) == Apply(Pulled(Start(0), c, P, pad), Commit, pad)
    ensures AllLegal([c], P, capacity, pad) <==> CycleLegal(Start(0), c, P, capacity, pad)
  {
    hide Apply, Pulled, CycleLegal;
    assert [c][..0] == [];
  }

  lemma {:induction false} PlayedRests<T>(cycles: seq<PlayCycle<T>>, P: nat, capacity: nat, pad: T)
    requires AllLegal(cycles, P, capacity, pad)
    ensures Resting(Played(cycles, P, pad), capacity, pad)
  {
    if cycles != [] {
      hide CycleLegal, Pulled, Apply, Resting;
      var before, c := cycles[..|cycles| - 1], cycles[|cycles| - 1];
      PlayedRests(before, P, capacity, pad);
      AnyCyclePlays(Played(before, P, pad), c, P, capacity, pad, 0);
    }
  }

  /** Playback law: in every run of cycles, whether they advance, repeat or jump back, what the next
      one writes to port `port` at in-cycle frame `f` is padding if that port and frame were
      consumed before, and otherwise their timeline element. */
  lemma PlaybackLaw<T>(cycles: seq<PlayCycle<T>>, c: PlayCycle<T>, P: nat, capacity: nat, pad: T, port: nat, f: nat)
    requires AllLegal(cycles, P, capacity, pad) && CycleLegal(Played(cycles, P, pad), c, P, capacity, pad)
    ensures var s0, s := Played(cycles, P, pad), Pulled(Played(cycles, P, pad), c, P, pad);
            && s.recv.Receiving?
            && (Position(f, port, P) < |s.recv.yielded| ==>
                  SeenAt(Position(c.frame + f, port, P), s0.rx, s.history, pad, s.recv.yielded[Position(f, port, P)]))
  {
    hide CycleLegal, Pulled, Played, AllLegal, Resting, Apply, SeenAt;
    PlayedRests(cycles, P, capacity, pad);
    DivMod.BoundaryAdd(c.frame, f, P);
    AnyCyclePlays(Played(cycles, P, pad), c, P, capacity, pad, Position(f, port, P));
  }

  /** Where the counter stands after a run of cycles, read off the cycles: cycle by cycle, where its
      pulls reached. */
  ghost function Eaten<T>(cycles: seq<PlayCycle<T>>, P: nat, pad: T): (rx: nat) {
    if cycles == [] then 0
    else
      var n := |cycles| - 1;
      var c := cycles[n];
      Reached(Eaten(cycles[..n], P, pad), RunFrom(Played(cycles[..n], P, pad), c.before, pad).tx,
              DivMod.Boundary(c.frame, P), PopCount(c.during))
  }

  lemma {:induction false} RunConsumes<T>(cycles: seq<PlayCycle<T>>, P: nat, capacity: nat, pad: T)
    requires AllLegal(cycles, P, capacity, pad)
    ensures var s := Played(cycles, P, pad);
            s.rx == Eaten(cycles, P, pad) <= |s.history| && s.slots == s.history[s.rx..]
  {
    if cycles != [] {
      hide CycleLegal, Pulled, Apply, Resting, RunFrom, PopCount, Reached;
      var before, c := cycles[..|cycles| - 1], cycles[|cycles| - 1];
      RunConsumes(before, P, capacity, pad);
      PlayedRests(before, P, capacity, pad);
      CycleConsumes(Played(before, P, pad), c, P, capacity, pad);
    }
  }

  /** Some cycle of the run was given the element of position `p`. */
  ghost predicate GivenBefore<T>(cycles: seq<PlayCycle<T>>, p: nat, P: nat, pad: T) {
    cycles != [] &&
    var n := |cycles| - 1;
    var r := Pulled(Played(cycles[..n], P, pad), cycles[n], P, pad).recv;
    || GivenBefore(cycles[..n], p, P, pad)
    || (r.Receiving? && DivMod.Boundary(cycles[n].frame, P) <= p < DivMod.Boundary(cycles[n].frame, P) + |r.yielded|)
  }

  lemma {:induction false} GivenIsConsumed<T>(cycles: seq<PlayCycle<T>>, p: nat, P: nat, capacity: nat, pad: T)
    requires AllLegal(cycles, P, capacity, pad) && GivenBefore(cycles, p, P, pad)
    ensures p < Played(cycles, P, pad).rx
  {
    hide CycleLegal, Pulled, Apply, Resting, RunFrom, PopCount;
    var before, c := cycles[..|cycles| - 1], cycles[|cycles| - 1];
    PlayedRests(before, P, capacity, pad);
    CycleConsumes(Played(before, P, pad), c, P, capacity, pad);
    if GivenBefore(before, p, P, pad) {
      GivenIsConsumed(before, p, P, capacity, pad);
    }
  }

  /** Nothing is played twice: what some cycle was given for a port at a frame is padding for every
      later cycle. */
  lemma PlayedOnce<T>(cycles: seq<PlayCycle<T>>, c: PlayCycle<T>, P: nat, capacity: nat, pad: T, port: nat, f: nat)
    requires AllLegal(cycles, P, capacity, pad) && CycleLegal(Played(cycles, P, pad), c, P, capacity, pad)
    requires GivenBefore(cycles, Position(c.frame + f, port, P), P, pad)
    ensures var r := Pulled(Played(cycles, P, pad), c, P, pad).recv;
            r.Receiving? && (Position(f, port, P) < |r.yielded| ==> r.yielded[Position(f, port, P)] == pad)
  {
    hide CycleLegal, Pulled, Played, AllLegal, Apply, GivenBefore, Position;
    GivenIsConsumed(cycles, Position(c.frame + f, port, P), P, capacity, pad);
    PlaybackLaw(cycles, c, P, capacity, pad, port, f);
  }

  /** The frame after the last cycle. */
  ghost function EndFrame<T>(cycles: seq<PlayCycle<T>>): (f: nat) {
    if cycles == [] then 0 else cycles[|cycles| - 1].frame + cycles[|cycles| - 1].frames
  }

  /** A run in which each cycle starts no earlier than the end of the one before it. */
  ghost predicate Advancing<T>(cycles: seq<PlayCycle<T>>, P: nat, capacity: nat, pad: T) {
    cycles == [] ||
    var n := |cycles| - 1;
    && Advancing(cycles[..n], P, capacity, pad)
    && EndFrame(cycles[..n]) <= cycles[n].frame
    && CycleLegal(Played(cycles[..n], P, pad), cycles[n], P, capacity, pad)
  }

  lemma {:induction false} PlayedKeeps<T>(cycles: seq<PlayCycle<T>>, P: nat, capacity: nat, pad: T)
    requires Advancing(cycles, P, capacity, pad)
    ensures Ready(Played(cycles, P, pad), EndFrame(cycles), P, capacity, pad)
  {
    if cycles != [] {
      LastCycle(cycles, P, capacity, pad);
      hide CycleLegal, Pulled, Apply, Ready, Advancing, Played, EndFrame;
      var before, c := cycles[..|cycles| - 1], cycles[|cycles| - 1];
      PlayedKeeps(before, P, capacity, pad);
      CyclePlays(Played(before, P, pad), c, EndFrame(before), P, capacity, pad);
    }
  }

  lemma LastCycle<T>(cycles: seq<PlayCycle<T>>, P: nat, capacity: nat, pad: T)
    requires cycles != [] && Advancing(cycles, P, capacity, pad)
    ensures var before, c := cycles[..|cycles| - 1], cycles[|cycles| - 1];
            && Advancing(before, P, capacity, pad) && EndFrame(before) <= c.frame
            && CycleLegal(Played(before, P, pad), c, P, capacity, pad)
            && Played(cycles, P, pad) == Apply(Pulled(Played(before, P, pad), c, P, pad), Commit, pad)
            && EndFrame(cycles) == c.frame + c.frames
  {
    hide CycleLegal, Pulled, Apply;
  }

  lemma {:induction false} AdvancingLegal<T>(cycles: seq<PlayCycle<T>>, P: nat, capacity: nat, pad: T)
    requires Advancing(cycles, P, capacity, pad)
    ensures AllLegal(cycles, P, capacity, pad)
  {
    if cycles != [] {
      hide CycleLegal, Played, EndFrame;
      AdvancingLegal(cycles[..|cycles| - 1], P, capacity, pad);
    }
  }

  /** Playback timeline: when the cycles advance nothing is asked for twice, and what the next cycle
      writes to port `port` at in-cycle frame `f` is the timeline element of that port at frame
      `frame + f`. */
  lemma PlaybackTimeline<T>(cycles: seq<PlayCycle<T>>, c: PlayCycle<T>, P: nat, capacity: nat, pad: T,
                            port: nat, f: nat)
    requires Advancing(cycles, P, capacity, pad) && EndFrame(cycles) <= c.frame
    requires CycleLegal(Played(cycles, P, pad), c, P, capacity, pad)
    ensures Played(cycles, P, pad).rx <= Position(c.frame + f, port, P)
    ensures var s := Pulled(Played(cycles, P, pad), c, P, pad);
            && s.recv.Receiving?
            && (Position(f, port, P) < |s.recv.yielded| ==>
                  && Position(c.frame + f, port, P) < |s.history|
                  && s.recv.yielded[Position(f, port, P)] == s.history[Position(c.frame + f, port, P)])
  {
    hide CycleLegal, Pulled, Advancing, Played, AllLegal, EndFrame, Resting;
    AdvancingLegal(cycles, P, capacity, pad);
    PlayedKeeps(cycles, P, capacity, pad);
    PlaybackLaw(cycles, c, P, capacity, pad, port, f);
    DivMod.BoundaryLe(EndFrame(cycles), c.frame + f, P);
  }
}
