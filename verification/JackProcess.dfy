/** The JACK process callback itself (syfala_jack/src/lib.rs:76-128): the frame index of the
    cycle, the send loop and the receive loop. */
module JackProcess {
  import opened Common
  import DivMod
  import opened IndexedQueue
  import opened Interleaver
  import opened JackTimeline

  /** What the other thread sends to a ring around one receive: before it begins, and right
      before each of its pulls. */
  datatype Traffic<T> = Traffic(before: seq<Step<T>>, between: seq<seq<Step<T>>>)

  predicate OnlySends<T>(t: Traffic<T>) {
    && (forall i :: 0 <= i < |t.before| ==> t.before[i].Send?)
    && forall k, i :: 0 <= k < |t.between| && 0 <= i < |t.between[k]| ==> t.between[k][i].Send?
  }

  function Sends<T>(between: seq<seq<Step<T>>>, k: nat): (steps: seq<Step<T>>) {
    if k < |between| then between[k] else []
  }

  /** The first `n` pulls, and the sends that come before each. */
  ghost function Weave<T>(between: seq<seq<Step<T>>>, n: nat): (steps: seq<Step<T>>) {
    if n == 0 then [] else Weave(between, n - 1) + Sends(between, n - 1) + [Pop]
  }

  lemma {:induction false} WeaveOnly<T>(t: Traffic<T>, n: nat)
    requires OnlySends(t)
    ensures Only(t.before, false) && Only(Weave(t.between, n), true) && PopCount(Weave(t.between, n)) == n
  {
    if n > 0 {
      WeaveOnly(t, n - 1);
      var woven, sends := Weave(t.between, n - 1), Sends(t.between, n - 1);
      assert Only(sends, false);
      hide OnlySends, Only, PopCount;
      SendsPopNothing(woven, sends);
      OnePop(woven, sends);
    }
  }

  lemma OnePop<T>(woven: seq<Step<T>>, sends: seq<Step<T>>)
    requires Only(woven, true) && Only(sends, false)
    ensures Only(woven + sends + [Pop], true)
    ensures PopCount(woven + sends + [Pop]) == PopCount(woven + sends) + 1
  {
    assert (woven + sends + [Pop])[..|woven + sends|] == woven + sends;
  }

  lemma {:induction false} SendsPopNothing<T>(steps: seq<Step<T>>, sends: seq<Step<T>>)
    requires Only(sends, false)
    ensures PopCount(steps + sends) == PopCount(steps)
  {
    if sends == [] {
      assert steps + sends == steps;
    } else {
      var n := |sends| - 1;
      SendsPopNothing(steps, sends[..n]);
      assert (steps + sends)[..|steps| + n] == steps + sends[..n];
    }
  }

  lemma {:induction false} RunFromAppend<T>(s: State<T>, a: seq<Step<T>>, b: seq<Step<T>>, pad: T)
    ensures RunFrom(s, a + b, pad) == RunFrom(RunFrom(s, a, pad), b, pad)
    decreases |b|
  {
    if b == [] {
      assert a + b == a;
    } else {
      hide Apply, RunFrom;
      var init, last := b[..|b| - 1], b[|b| - 1];
      assert b == init + [last] && a + b == a + init + [last];
      RunFromAppend(s, a, init, pad);
      RunFromSnoc(s, a + init, last, pad);
      RunFromSnoc(RunFrom(s, a, pad), init, last, pad);
    }
  }

  ghost function Woven<T>(s: State<T>, between: seq<seq<Step<T>>>, n: nat, pad: T): (s': State<T>) {
    RunFrom(s, Weave(between, n), pad)
  }

  lemma WovenStep<T>(s: State<T>, between: seq<seq<Step<T>>>, n: nat, pad: T)
    ensures Woven(s, between, 0, pad) == s
    ensures Woven(s, between, n + 1, pad)
         == Apply(RunFrom(Woven(s, between, n, pad), Sends(between, n), pad), Pop, pad)
  {
    hide Apply;
    var woven, sends := Weave(between, n), Sends(between, n);
    RunFromAppend(s, woven, sends, pad);
    RunFromSnoc(s, woven + sends, Pop, pad);
  }

  /** After `n` pulls, all of what was offered has been yielded, or one element per pull. */
  lemma WovenYields<T>(s: State<T>, t: Traffic<T>, n: nat, pad: T)
    requires OnlySends(t) && s.recv.Receiving? && s.recv.chunk <= |s.slots| && s.recv.yielded == []
    ensures var s' := Woven(s, t.between, n, pad);
            s'.recv.Receiving? && |s'.recv.yielded| == Min(n, Offered(s.recv))
  {
    hide RunFrom, Weave;
    WeaveOnly(t, n);
    PullsYield(s, Weave(t.between, n), pad);
  }

  /** How often a receive is pulled: until the buffers are full or a pull yields nothing. */
  function PullCount<T>(r: Recv<T>, cells: nat): (n: nat)
    requires r.Receiving?
  {
    Min(cells, Offered(r) + 1)
  }

  /** The cycle of a receiver whose ring sees the given traffic. */
  ghost function CycleOf<T>(ring: State<T>, frame: nat, frames: nat, P: nat, t: Traffic<T>, pad: T): (c: PlayCycle<T>) {
    var begun := Apply(RunFrom(ring, t.before, pad), Begin(DivMod.Boundary(frame, P)), pad);
    PlayCycle(frame, frames, t.before, Weave(t.between, PullCount(begun.recv, DivMod.Boundary(frames, P))))
  }

  lemma {:induction false} PopsLegal<T>(s: State<T>, n: nat, capacity: nat, pad: T)
    requires s.recv.Receiving? && s.recv.chunk <= |s.slots|
    ensures LegalFrom(s, Weave([], n), capacity, pad)
  {
    if n > 0 {
      hide Apply, RunFrom, LegalFrom, Weave, Offered;
      PopsLegal(s, n - 1, capacity, pad);
      OnlyPops<T>(n - 1);
      PullsYield(s, Weave([], n - 1), pad);
      LegalSnoc(s, Weave([], n - 1), Pop, capacity, pad);
    }
  }

  lemma OnlyPops<T>(n: nat)
    ensures Only(Weave<T>([], n), true) && Weave<T>([], n + 1) == Weave<T>([], n) + [Pop]
  {
    WeaveOnly<T>(Traffic([], []), n);
    assert Weave<T>([], n) + [] == Weave<T>([], n);
  }

  /** A cycle is one of those of a playback run: always when nothing is sent meanwhile, and in
      general when the sends find the room they need. */
  lemma QuietCycleLegal<T>(s: State<T>, frame: nat, frames: nat, P: nat, capacity: nat, pad: T)
    ensures CycleLegal(s, CycleOf(s, frame, frames, P, Traffic([], []), pad), P, capacity, pad)
  {
    hide Weave;
    var c := CycleOf(s, frame, frames, P, Traffic([], []), pad);
    var n := PullCount(Began(s, c, P, pad).recv, DivMod.Boundary(frames, P));
    PopsLegal(Began(s, c, P, pad), n, capacity, pad);
    WeaveOnly<T>(Traffic([], []), n);
  }

  lemma OnlyCell(port: nat, f: nat, P: nat, port': nat, f': nat)
    requires port < P && port' < P && Position(f, port, P) == Position(f', port', P)
    ensures port == port' && f == f'
  {
    PositionIs(f, port, P);
    PositionIs(f', port', P);
  }

  /** The contents of a group's output buffers, port by port. */
  ghost function Rows<T>(out: array2<T>): (rows: seq<seq<T>>)
    reads out
  {
    seq(out.Length0, port requires 0 <= port < out.Length0 reads out =>
      seq(out.Length1, f requires 0 <= f < out.Length1 reads out => out[port, f]))
  }

  /** Writing `y` over port buffers in frame-major order; cells beyond its end stay as they were. */
  ghost function Deinterleave<T>(was: seq<seq<T>>, y: seq<T>): (rows: seq<seq<T>>) {
    seq(|was|, port requires 0 <= port < |was| =>
      seq(|was[port]|, f requires 0 <= f < |was[port]| =>
        if Position(f, port, |was|) < |y| then y[Position(f, port, |was|)] else was[port][f]))
  }

  /** De-interleaving undoes interleaving. */
  lemma DeinterleaveInterleave<T>(was: seq<seq<T>>, ports: seq<seq<T>>, frames: nat)
    requires |was| == |ports| && Buffers(was, frames) && Buffers(ports, frames)
    ensures Deinterleave(was, Interleave(ports, frames, frames)) == ports
  {
    var y := Interleave(ports, frames, frames);
    forall port: nat, f: nat | port < |ports| && f < frames
      ensures Position(f, port, |ports|) < |y| && y[Position(f, port, |ports|)] == ports[port][f]
    {
      InterleaveAt(ports, frames, frames, port, f);
    }
    forall port | 0 <= port < |ports|
      ensures Deinterleave(was, y)[port] == ports[port]
    {
    }
  }

  /** The receive loop of one port group: the cursor over the output ports is paired with the
      receive iterator, and each pair is written in place, while the other thread goes on
      sending. Cells for which the ring had nothing keep what they held. */
  method Play<T>(ring: State<T>, frame: nat, nPorts: nat, nFrames: nat, t: Traffic<T>, out: array2<T>, pad: T)
    returns (ring': State<T>)
    requires nPorts > 0 && ring.recv.Idle? && OnlySends(t)
    requires out.Length0 == nPorts && out.Length1 == nFrames
    modifies out
    ensures var c := CycleOf(ring, frame, nFrames, nPorts, t, pad);
            var s := Pulled(ring, c, nPorts, pad);
            && ring' == Apply(s, Commit, pad) && s.recv.Receiving?
            && |s.recv.yielded| == Min(DivMod.Boundary(nFrames, nPorts), Offered(Began(ring, c, nPorts, pad).recv))
            && Rows(out) == Deinterleave(old(Rows(out)), s.recv.yielded)
  {
    DivMod.BoundaryIsMul(frame, nPorts);
    var s0 := Apply(RunFrom(ring, t.before, pad), Begin(frame * nPorts), pad);
    hide Weave, RunFrom, Deinterleave;
    var s := Zip(s0, nPorts, nFrames, t, out, pad);
    ring' := Apply(s, Commit, pad);
    assert s0 == Began(ring, CycleOf(ring, frame, nFrames, nPorts, t, pad), nPorts, pad);
  }

  ghost predicate Written<T>(now: seq<seq<T>>, was: seq<seq<T>>, y: seq<T>, nPorts: nat, nFrames: nat) {
    && |now| == |was| == nPorts && Buffers(now, nFrames) && Buffers(was, nFrames)
    && forall port: nat, f: nat :: port < nPorts && f < nFrames ==>
         now[port][f] == if Position(f, port, nPorts) < |y| then y[Position(f, port, nPorts)] else was[port][f]
  }

  lemma WrittenIs<T>(now: seq<seq<T>>, was: seq<seq<T>>, y: seq<T>, nPorts: nat, nFrames: nat)
    requires Written(now, was, y, nPorts, nFrames)
    ensures now == Deinterleave(was, y)
  {
    forall port | 0 <= port < nPorts
      ensures now[port] == Deinterleave(was, y)[port]
    {
    }
  }

  method Zip<T>(s0: State<T>, nPorts: nat, nFrames: nat, t: Traffic<T>, out: array2<T>, pad: T) returns (s: State<T>)
    requires nPorts > 0 && s0.recv.Receiving? && s0.recv.chunk <= |s0.slots| && s0.recv.yielded == []
    requires OnlySends(t) && out.Length0 == nPorts && out.Length1 == nFrames
    modifies out
    ensures var cells := DivMod.Boundary(nFrames, nPorts);
            && s == Woven(s0, t.between, PullCount(s0.recv, cells), pad)
            && s.recv.Receiving? && |s.recv.yielded| == Min(cells, Offered(s0.recv))
            && Rows(out) == Deinterleave(old(Rows(out)), s.recv.yielded)
  {
    hide Woven, Apply, RunFrom, Deinterleave, OnlySends;
    s := s0;
    var it := new Interleaved(nPorts, nFrames);
    WovenStep(s0, t.between, 0, pad);
    var going, k := true, 0;
    while going
      invariant going ==> k == it.yielded
      invariant it.Valid() && fresh(it) && fresh(it.offsets) && it.nPorts == nPorts && it.nFrames == nFrames
      invariant s.recv.Receiving? && it.yielded <= DivMod.Boundary(nFrames, nPorts)
      invariant going ==> s == Woven(s0, t.between, it.yielded, pad) && |s.recv.yielded| == it.yielded <= Offered(s0.recv)
      invariant !going ==> s == Woven(s0, t.between, PullCount(s0.recv, DivMod.Boundary(nFrames, nPorts)), pad)
      invariant !going ==> |s.recv.yielded| == Min(DivMod.Boundary(nFrames, nPorts), Offered(s0.recv))
      invariant Written(Rows(out), old(Rows(out)), s.recv.yielded, nPorts, nFrames)
      decreases going, DivMod.Boundary(nFrames, nPorts) - it.yielded
    {
      var slot := it.Next();
      match slot {
        case None =>
          going := false;
        case Some(at) =>
          WovenStep(s0, t.between, k, pad);
          WovenYields(s0, t, k + 1, pad);
          SendsKeep(s, t, k, pad);
          s := RunFrom(s, Sends(t.between, k), pad);
          var s' := Apply(s, Pop, pad);
          PopYields(s, pad);
          if |s'.recv.yielded| > |s.recv.yielded| {
            forall port: nat, f: nat | port < nPorts && f < nFrames && Position(f, port, nPorts) == k
              ensures port == at.port && f == at.frame
            {
              OnlyCell(port, f, nPorts, at.port, at.frame);
            }
            out[at.port, at.frame] := s'.recv.yielded[|s'.recv.yielded| - 1];
          } else {
            going := false;
          }
          s, k := s', k + 1;
      }
    }
    WrittenIs(Rows(out), old(Rows(out)), s.recv.yielded, nPorts, nFrames);
  }

  /** Sends do not disturb a receive. */
  lemma SendsKeep<T>(s: State<T>, t: Traffic<T>, k: nat, pad: T)
    requires OnlySends(t)
    ensures RunFrom(s, Sends(t.between, k), pad).recv == s.recv
  {
    SendsKeepRx(s, Sends(t.between, k), pad);
  }

  /** A pull yields one more element, or none. */
  lemma PopYields<T>(s: State<T>, pad: T)
    requires s.recv.Receiving?
    ensures var s' := Apply(s, Pop, pad);
            s'.recv.Receiving? && s.recv.yielded <= s'.recv.yielded &&
            |s'.recv.yielded| <= |s.recv.yielded| + 1
  {
  }

  /** A group of ports and the ring it is connected to: `JackTx` or `JackRx`. */
  datatype Group<T> = Group(nPorts: nat, ring: State<T>)

  /** What one cycle does to a sender's ring. */
  ghost function Captured<T>(g: Group<T>, time: nat, first: nat, ports: seq<seq<T>>, nFrames: nat, room: nat, pad: T): (ring: State<T>)
    requires first <= time && |ports| == g.nPorts && Buffers(ports, nFrames)
  {
    Apply(g.ring, RingStep(Capture(Cycle(time, ports, nFrames, room)), first, g.nPorts), pad)
  }

  /** What one cycle pulls from a receiver's ring. */
  ghost function CyclePulled<T>(g: Group<T>, frame: nat, nFrames: nat, t: Traffic<T>, pad: T): (ring: State<T>) {
    Pulled(g.ring, CycleOf(g.ring, frame, nFrames, g.nPorts, t, pad), g.nPorts, pad)
  }

  /** The output buffers of a group went from `was` to `now` in one cycle. */
  ghost predicate BuffersPlayed<T>(g: Group<T>, frame: nat, nFrames: nat, t: Traffic<T>, pad: T,
                                   was: seq<seq<T>>, now: seq<seq<T>>)
  {
    var r := CyclePulled(g, frame, nFrames, t, pad).recv;
    && r.Receiving? && now == Deinterleave(was, r.yielded)
    && |r.yielded| == Min(DivMod.Boundary(nFrames, g.nPorts), Available(g, frame, nFrames, t, pad))
  }

  /** How many elements the receive of a cycle offers. */
  ghost function Available<T>(g: Group<T>, frame: nat, nFrames: nat, t: Traffic<T>, pad: T): (n: nat) {
    Offered(Began(g.ring, CycleOf(g.ring, frame, nFrames, g.nPorts, t, pad), g.nPorts, pad).recv)
  }

  /** What a cycle writes, on the timeline, wherever it starts: every cell for which something was
      offered gets the timeline element of that port at that frame, or padding if that was
      consumed before, whatever is sent meanwhile; the other cells are untouched. A cycle that
      starts after everything consumed leaves the ring ready for any that starts after its end.
      The counter moves as if every cell had been asked for. */
  lemma WritesTimeline<T>(g: Group<T>, ready: nat, frame: nat, nFrames: nat, t: Traffic<T>, capacity: nat, pad: T,
                          was: seq<seq<T>>, now: seq<seq<T>>, port: nat, f: nat)
    requires Resting(g.ring, capacity, pad)
    requires CycleLegal(g.ring, CycleOf(g.ring, frame, nFrames, g.nPorts, t, pad), g.nPorts, capacity, pad)
    requires |was| == g.nPorts && Buffers(was, nFrames) && BuffersPlayed(g, frame, nFrames, t, pad, was, now)
    requires port < g.nPorts && f < nFrames
    ensures var after := Apply(CyclePulled(g, frame, nFrames, t, pad), Commit, pad);
            && Resting(after, capacity, pad)
            && (OnlySends(t) ==>
                  after.rx == Reached(g.ring.rx, RunFrom(g.ring, t.before, pad).tx, DivMod.Boundary(frame, g.nPorts),
                                      DivMod.Boundary(nFrames, g.nPorts)))
            && (Ready(g.ring, ready, g.nPorts, capacity, pad) && ready <= frame ==>
                  Ready(after, frame + nFrames, g.nPorts, capacity, pad))
    ensures |now| == g.nPorts && |now[port]| == nFrames
    ensures var s, p := CyclePulled(g, frame, nFrames, t, pad), Position(frame + f, port, g.nPorts);
            if Position(f, port, g.nPorts) < Available(g, frame, nFrames, t, pad)
            then SeenAt(p, g.ring.rx, s.history, pad, now[port][f])
            else now[port][f] == was[port][f]
  {
    hide Pulled, Apply, CycleLegal, Ready, Resting, OnTimeline, CycleOf, Available, SeenAt, Reached, RunFrom, OnlySends;
    if OnlySends(t) {
      CycleEats(g.ring, frame, nFrames, g.nPorts, t, capacity, pad);
    }
    var c := CycleOf(g.ring, frame, nFrames, g.nPorts, t, pad);
    CycleOfIs(g.ring, frame, nFrames, g.nPorts, t, pad);
    if Ready(g.ring, ready, g.nPorts, capacity, pad) && ready <= frame {
      CyclePlays(g.ring, c, ready, g.nPorts, capacity, pad);
    }
    AnyCyclePlays(g.ring, c, g.nPorts, capacity, pad, Position(f, port, g.nPorts));
    DivMod.BoundaryAdd(frame, f, g.nPorts);
    DivMod.BoundaryLe(f + 1, nFrames, g.nPorts);
  }

  /** Stopping at the first pull that yields nothing consumes as much as going on would. */
  lemma CycleEats<T>(ring: State<T>, frame: nat, nFrames: nat, P: nat, t: Traffic<T>, capacity: nat, pad: T)
    requires Resting(ring, capacity, pad) && OnlySends(t)
    requires CycleLegal(ring, CycleOf(ring, frame, nFrames, P, t, pad), P, capacity, pad)
    ensures Apply(Pulled(ring, CycleOf(ring, frame, nFrames, P, t, pad), P, pad), Commit, pad).rx
         == Reached(ring.rx, RunFrom(ring, t.before, pad).tx, DivMod.Boundary(frame, P), DivMod.Boundary(nFrames, P))
  {
    var c, idx, cells := CycleOf(ring, frame, nFrames, P, t, pad), DivMod.Boundary(frame, P), DivMod.Boundary(nFrames, P);
    var s0 := RunFrom(ring, t.before, pad);
    var offered := Offered(Began(ring, c, P, pad).recv);
    WeaveOnly(t, PullCount(Began(ring, c, P, pad).recv, cells));
    BeginOffers(s0, idx, pad);
    assert c.before == t.before && c.frame == frame && PopCount(c.during) == Min(cells, offered + 1);
    OffersUpTo(ring, t.before, capacity, pad, c, P);
    hide RunFrom, LegalFrom, Only, PopCount, Weave, OnlySends, CycleLegal, Pulled, Apply, Offered, Resting, CycleOf;
    CycleConsumes(ring, c, P, capacity, pad);
    ReachedEnough(ring.rx, s0.tx, idx, cells, offered);
  }

  lemma OffersUpTo<T>(ring: State<T>, before: seq<Step<T>>, capacity: nat, pad: T, c: PlayCycle<T>, P: nat)
    requires Resting(ring, capacity, pad) && CycleLegal(ring, c, P, capacity, pad) && c.before == before
    ensures var s0 := RunFrom(ring, before, pad); s0.rx == ring.rx && s0.rx + |s0.slots| == s0.tx
  {
    RunKeeps(ring, before, 0, capacity, pad);
    SendsKeepRx(ring, before, pad);
  }

  lemma ReachedEnough(rx: nat, tx: nat, idx: nat, cells: nat, offered: nat)
    requires rx <= tx && idx + offered == if tx < idx then idx else tx
    ensures Reached(rx, tx, idx, Min(cells, offered + 1)) == Reached(rx, tx, idx, cells)
  {
  }

  lemma CycleOfIs<T>(ring: State<T>, frame: nat, frames: nat, P: nat, t: Traffic<T>, pad: T)
    ensures CycleOf(ring, frame, frames, P, t, pad).frame == frame && CycleOf(ring, frame, frames, P, t, pad).frames == frames
  {
  }

  /** A cycle extends the runs that the timeline theorems are about: a sender's ring goes where one
      more captured cycle leads, and a receiver's where one more played cycle does. */
  lemma CapturedExtends<T>(run: seq<CaptureStep<T>>, g: Group<T>, time: nat, first: nat, ports: seq<seq<T>>, nFrames: nat,
                           room: nat, pad: T)
    requires CapturesOk(run, first, g.nPorts) && g.ring == Run(RingSteps(run, first, g.nPorts), 0, pad)
    requires first <= time && |ports| == g.nPorts && Buffers(ports, nFrames)
    ensures var more := run + [Capture(Cycle(time, ports, nFrames, room))];
            && CapturesOk(more, first, g.nPorts)
            && Captured(g, time, first, ports, nFrames, room, pad) == Run(RingSteps(more, first, g.nPorts), 0, pad)
  {
    hide Apply, IndexedQueue.Run, RingStep;
    var more := run + [Capture(Cycle(time, ports, nFrames, room))];
    assert more[..|run|] == run;
    var before, step := RingStepsSnoc(more, first, g.nPorts);
    RunSnoc(before, step, 0, 0, pad);
  }

  lemma PlayedExtends<T>(cycles: seq<PlayCycle<T>>, g: Group<T>, frame: nat, nFrames: nat, t: Traffic<T>, pad: T)
    requires g.ring == Played(cycles, g.nPorts, pad)
    ensures var more := cycles + [CycleOf(g.ring, frame, nFrames, g.nPorts, t, pad)];
            Apply(CyclePulled(g, frame, nFrames, t, pad), Commit, pad) == Played(more, g.nPorts, pad)
  {
    hide Apply, Pulled, CycleOf;
    var c := CycleOf(g.ring, frame, nFrames, g.nPorts, t, pad);
    assert (cycles + [c])[..|cycles|] == cycles;
  }

  /** `DuplexProcessHandler`. The rings are held as values; what other threads send to them
      around a cycle is a parameter of the cycle. */
  class DuplexProcessHandler<T> {
    const pad: T
    var txs: seq<Group<T>>
    var rxs: seq<Group<T>>
    var startFrameIdx: Option<nat>

    constructor (pad: T, inputs: seq<Group<T>>, outputs: seq<Group<T>>)
      ensures this.pad == pad && txs == inputs && rxs == outputs && startFrameIdx == None
    {
      this.pad, txs, rxs, startFrameIdx := pad, inputs, outputs, None;
    }

    /** The sender loop. */
    method SendAll(time: nat, first: nat, nFrames: nat, inputs: seq<seq<seq<T>>>, rooms: seq<nat>)
      requires first <= time && |inputs| == |rooms| == |txs|
      requires forall i :: 0 <= i < |txs| ==>
                 0 < txs[i].nPorts == |inputs[i]| && Buffers(inputs[i], nFrames)
      modifies this`txs
      ensures |txs| == |old(txs)|
      ensures forall i :: 0 <= i < |txs| ==>
                txs[i] == Group(old(txs)[i].nPorts, Captured(old(txs)[i], time, first, inputs[i], nFrames, rooms[i], pad))
    {
      var frameIdx := time - first;
      var i := 0;
      while i < |txs|
        invariant 0 <= i <= |txs| == |old(txs)|
        invariant forall j :: i <= j < |txs| ==> txs[j] == old(txs)[j]
        invariant forall j :: 0 <= j < i ==>
                    txs[j] == Group(old(txs)[j].nPorts, Captured(old(txs)[j], time, first, inputs[j], nFrames, rooms[j], pad))
      {
        var g := txs[i];
        DivMod.BoundaryIsMul(frameIdx, g.nPorts);
        var it := new Interleaved(g.nPorts, nFrames);
        var values := it.Collect(inputs[i]);
        var ring := Apply(g.ring, Send(frameIdx * g.nPorts, values, rooms[i]), pad);
        txs := txs[i := Group(g.nPorts, ring)];
        i := i + 1;
      }
    }

    /** The receiver loop. */
    method PlayAll(frameIdx: nat, nFrames: nat, outputs: seq<array2<T>>,
                   traffic: seq<Traffic<T>>)
      requires |outputs| == |traffic| == |rxs|
      requires forall i, j :: 0 <= i < j < |outputs| ==> outputs[i] != outputs[j]
      requires forall i :: 0 <= i < |rxs| ==>
                 && 0 < rxs[i].nPorts == outputs[i].Length0 && outputs[i].Length1 == nFrames
                 && rxs[i].ring.recv.Idle? && OnlySends(traffic[i])
      modifies this`rxs, outputs
      ensures |rxs| == |old(rxs)|
      ensures forall i :: 0 <= i < |rxs| ==>
                rxs[i] == Group(old(rxs)[i].nPorts, Apply(CyclePulled(old(rxs)[i], frameIdx, nFrames, traffic[i], pad), Commit, pad))
      ensures forall i :: 0 <= i < |rxs| ==>
                BuffersPlayed(old(rxs)[i], frameIdx, nFrames, traffic[i], pad, old(Rows(outputs[i])), Rows(outputs[i]))
    {
      hide Pulled, Apply, CycleOf, Deinterleave, Began, OnlySends;
      var i := 0;
      while i < |rxs|
        invariant 0 <= i <= |rxs| == |old(rxs)|
        invariant forall j :: i <= j < |rxs| ==> rxs[j] == old(rxs)[j]
        invariant forall j :: i <= j < |rxs| ==> Rows(outputs[j]) == old(Rows(outputs[j]))
        invariant forall j :: 0 <= j < i ==>
                    rxs[j] == Group(old(rxs)[j].nPorts, Apply(CyclePulled(old(rxs)[j], frameIdx, nFrames, traffic[j], pad), Commit, pad))
        invariant forall j :: 0 <= j < i ==>
                    BuffersPlayed(old(rxs)[j], frameIdx, nFrames, traffic[j], pad, old(Rows(outputs[j])), Rows(outputs[j]))
      {
        var g := rxs[i];
        var ring := Play(g.ring, frameIdx, g.nPorts, nFrames, traffic[i], outputs[i], pad);
        rxs := rxs[i := Group(g.nPorts, ring)];
        i := i + 1;
      }
    }

    /** `process`: the first cycle fixes the reference frame, every cycle is indexed from it. */
    method Process(time: nat, nFrames: nat, inputs: seq<seq<seq<T>>>, rooms: seq<nat>, outputs: seq<array2<T>>,
                   traffic: seq<Traffic<T>>)
      requires startFrameIdx.Some? ==> startFrameIdx.value <= time
      requires |inputs| == |rooms| == |txs| && |outputs| == |traffic| == |rxs|
      requires forall i :: 0 <= i < |txs| ==>
                 0 < txs[i].nPorts == |inputs[i]| && Buffers(inputs[i], nFrames)
      requires forall i, j :: 0 <= i < j < |outputs| ==> outputs[i] != outputs[j]
      requires forall i :: 0 <= i < |rxs| ==>
                 && 0 < rxs[i].nPorts == outputs[i].Length0 && outputs[i].Length1 == nFrames
                 && rxs[i].ring.recv.Idle? && OnlySends(traffic[i])
      modifies this, outputs
      ensures startFrameIdx == Some(if old(startFrameIdx).Some? then old(startFrameIdx).value else time)
      ensures |txs| == |old(txs)| && |rxs| == |old(rxs)|
      ensures forall i :: 0 <= i < |txs| ==>
                txs[i] == Group(old(txs)[i].nPorts,
                                Captured(old(txs)[i], time, startFrameIdx.value, inputs[i], nFrames, rooms[i], pad))
      ensures forall i :: 0 <= i < |rxs| ==>
                rxs[i] == Group(old(rxs)[i].nPorts,
                                Apply(CyclePulled(old(rxs)[i], time - startFrameIdx.value, nFrames, traffic[i], pad), Commit, pad))
      ensures forall i :: 0 <= i < |rxs| ==>
                BuffersPlayed(old(rxs)[i], time - startFrameIdx.value, nFrames, traffic[i], pad,
                              old(Rows(outputs[i])), Rows(outputs[i]))
    {
      hide Pulled, Apply, CycleOf, Deinterleave, Available, OnlySends;
      if startFrameIdx == None {
        startFrameIdx := Some(time);
      }
      var first := startFrameIdx.value;
      SendAll(time, first, nFrames, inputs, rooms);
      PlayAll(time - first, nFrames, outputs, traffic);
    }
  }
}
