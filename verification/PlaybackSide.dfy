/** The receiving machine as one system: packets are fed to the padder, which pushes what it
    rebuilds straight into the free slots of the playback ring, while playback cycles pull from
    the other end. The room the padder's sink has for a packet is the ring's. */
module PlaybackSide {
  import DivMod
  import opened ByteConsumer
  import opened LossyPath
  import opened RefusedPadding
  import IQ = IndexedQueue
  import Jack = JackTimeline

  /** A packet arrives, or a playback cycle pulls one element. A packet's `limit` is the number of
      free slots that the network thread saw. */
  datatype Turn = Arrive(d: Delivery) | Pull

  ghost function Arrivals(turns: seq<Turn>): (schedule: seq<Delivery>) {
    if turns == [] then []
    else
      var n := |turns| - 1;
      Arrivals(turns[..n]) + (if turns[n].Arrive? then [turns[n].d] else [])
  }

  /** What `consume_packet` pushes into the ring: the padder's output, as far as there is room. */
  ghost function Push(schedule: seq<Delivery>, d: Delivery, pad: nat, size: nat): (step: IQ.Step<nat>)
    requires size > 0
  {
    var s := Run(schedule, pad, size);
    IQ.Send(|s.out|, Feed(REPAIRED, s.padder, d.idx, d.bytes, d.limit, pad, size).out, d.limit)
  }

  ghost function Steps(schedule: seq<Delivery>, turns: seq<Turn>, pad: nat, size: nat): (steps: seq<IQ.Step<nat>>)
    requires size > 0
  {
    if turns == [] then []
    else
      var n := |turns| - 1;
      Steps(schedule, turns[..n], pad, size)
      + [if turns[n].Arrive? then Push(schedule + Arrivals(turns[..n]), turns[n].d, pad, size) else IQ.Pop]
  }

  lemma TurnsSnoc(schedule: seq<Delivery>, turns: seq<Turn>, t: Turn, pad: nat, size: nat)
    requires size > 0
    ensures Arrivals(turns + [t]) == Arrivals(turns) + (if t.Arrive? then [t.d] else [])
    ensures Steps(schedule, turns + [t], pad, size) == Steps(schedule, turns, pad, size)
              + [if t.Arrive? then Push(schedule + Arrivals(turns), t.d, pad, size) else IQ.Pop]
  {
    hide Push;
    assert (turns + [t])[..|turns|] == turns;
  }

  lemma OneTurn(schedule: seq<Delivery>, t: Turn, pad: nat, size: nat)
    requires size > 0
    ensures Arrivals([t]) == if t.Arrive? then [t.d] else []
    ensures Steps(schedule, [t], pad, size) == [if t.Arrive? then Push(schedule, t.d, pad, size) else IQ.Pop]
  {
    TurnsSnoc(schedule, [], t, pad, size);
    assert [] + [t] == [t] && schedule + Arrivals([]) == schedule;
  }

  /** The ring has been given exactly what the padder has emitted. */
  ghost predicate Follows(ring: IQ.State<nat>, schedule: seq<Delivery>, pad: nat, size: nat)
    requires size > 0
  {
    ring.history == Run(schedule, pad, size).out && ring.tx == |ring.history|
  }

  lemma PushKeeps(ring: IQ.State<nat>, schedule: seq<Delivery>, d: Delivery, pad: nat, size: nat)
    requires size > 0 && Follows(ring, schedule, pad, size)
    ensures Follows(IQ.Apply(ring, Push(schedule, d, pad, size), pad), schedule + [d], pad, size)
  {
    hide RunBy, Feed;
    RunSnoc(REPAIRED, schedule, d, pad, size);
    OutCount(REPAIRED, schedule, pad, size);
    RunCounted(REPAIRED, schedule, pad, size);
    FeedFits(Run(schedule, pad, size).padder, d.idx, d.bytes, d.limit, pad, size);
  }

  lemma {:induction false} TurnsKeep(ring: IQ.State<nat>, schedule: seq<Delivery>, turns: seq<Turn>, pad: nat, size: nat)
    requires size > 0 && Follows(ring, schedule, pad, size)
    ensures Follows(IQ.RunFrom(ring, Steps(schedule, turns, pad, size), pad), schedule + Arrivals(turns), pad, size)
  {
    if turns == [] {
      assert schedule + [] == schedule;
    } else {
      hide IQ.Apply, IQ.RunFrom, Run, Follows, Push;
      var init, last := turns[..|turns| - 1], turns[|turns| - 1];
      var steps, sofar := Steps(schedule, init, pad, size), schedule + Arrivals(init);
      var ring' := IQ.RunFrom(ring, steps, pad);
      TurnsKeep(ring, schedule, init, pad, size);
      if last.Arrive? {
        assert schedule + Arrivals(turns) == sofar + [last.d];
        hide Arrivals;
        PushKeeps(ring', sofar, last.d, pad, size);
        IQ.RunFromSnoc(ring, steps, Push(sofar, last.d, pad, size), pad);
      } else {
        assert schedule + Arrivals(turns) == sofar;
        hide Arrivals;
        ReadKeeps(ring', IQ.Pop, sofar, pad, size);
        IQ.RunFromSnoc(ring, steps, IQ.Pop, pad);
      }
    }
  }

  lemma ReadKeeps(ring: IQ.State<nat>, step: IQ.Step<nat>, schedule: seq<Delivery>, pad: nat, size: nat)
    requires size > 0 && !step.Send? && Follows(ring, schedule, pad, size)
    ensures Follows(IQ.Apply(ring, step, pad), schedule, pad, size)
  {
    hide Run;
    Jack.NetKeepsHistory(ring, step, pad);
  }

  // ----- Whole runs

  /** A playback cycle and the packets that arrive before and during it. */
  datatype JointCycle = JointCycle(frame: nat, frames: nat, before: seq<Turn>, during: seq<Turn>)

  ghost function AsPlayed(schedule: seq<Delivery>, j: JointCycle, pad: nat, size: nat): (c: Jack.PlayCycle<nat>)
    requires size > 0
  {
    Jack.PlayCycle(j.frame, j.frames, Steps(schedule, j.before, pad, size),
              Steps(schedule + Arrivals(j.before), j.during, pad, size))
  }

  /** Every packet of a run, in order of arrival. */
  ghost function Received(run: seq<JointCycle>): (schedule: seq<Delivery>) {
    if run == [] then []
    else
      var n := |run| - 1;
      Received(run[..n]) + Arrivals(run[n].before) + Arrivals(run[n].during)
  }

  /** The run as the playback ring sees it. */
  ghost function Cycles(run: seq<JointCycle>, pad: nat, size: nat): (cycles: seq<Jack.PlayCycle<nat>>)
    requires size > 0
  {
    if run == [] then []
    else
      var n := |run| - 1;
      Cycles(run[..n], pad, size) + [AsPlayed(Received(run[..n]), run[n], pad, size)]
  }

  lemma OneCycle(j: JointCycle, pad: nat, size: nat)
    requires size > 0
    ensures Received([j]) == Arrivals(j.before) + Arrivals(j.during)
    ensures Cycles([j], pad, size) == [AsPlayed([], j, pad, size)]
  {
    hide AsPlayed, Arrivals;
    assert [j][..0] == [];
    assert Received([]) == [] && Cycles([], pad, size) == [];
  }

  /** One cycle: the ring gets exactly what the padder emits for the packets of the cycle. */
  lemma CycleFollows(ring: IQ.State<nat>, schedule: seq<Delivery>, j: JointCycle, P: nat, pad: nat, size: nat)
    requires size > 0 && Follows(ring, schedule, pad, size)
    ensures var pulled := Jack.Pulled(ring, AsPlayed(schedule, j, pad, size), P, pad);
            var all := schedule + Arrivals(j.before) + Arrivals(j.during);
            Follows(pulled, all, pad, size) && Follows(IQ.Apply(pulled, IQ.Commit, pad), all, pad, size)
  {
    hide IQ.Apply, IQ.RunFrom, Follows, Steps, Arrivals;
    var sofar := schedule + Arrivals(j.before);
    var ring' := IQ.RunFrom(ring, Steps(schedule, j.before, pad, size), pad);
    TurnsKeep(ring, schedule, j.before, pad, size);
    var begin := IQ.Begin(DivMod.Boundary(j.frame, P));
    ReadKeeps(ring', begin, sofar, pad, size);
    TurnsKeep(IQ.Apply(ring', begin, pad), sofar, j.during, pad, size);
    ReadKeeps(Jack.Pulled(ring, AsPlayed(schedule, j, pad, size), P, pad), IQ.Commit, sofar + Arrivals(j.during), pad, size);
  }

  /** In every run of packets and cycles, whatever order they come in, the playback ring's
      timeline is the output of the padder for the packets so far. */
  lemma {:induction false} RingFollows(run: seq<JointCycle>, P: nat, pad: nat, size: nat)
    requires size > 0
    ensures Follows(Jack.Played(Cycles(run, pad, size), P, pad), Received(run), pad, size)
  {
    if run != [] {
      var init, j := run[..|run| - 1], run[|run| - 1];
      var cycles := Cycles(init, pad, size);
      var c := AsPlayed(Received(init), j, pad, size);
      hide IQ.Apply, Jack.Pulled, Follows, AsPlayed, Arrivals;
      RingFollows(init, P, pad, size);
      CycleFollows(Jack.Played(cycles, P, pad), Received(init), j, P, pad, size);
      assert (cycles + [c])[..|cycles|] == cycles;
    }
  }

  /** A full ring: the playback timeline is in step with the byte stream exactly when each packet
      found room for its own padding; otherwise it is behind by what did not fit. */
  lemma FullRing(run: seq<JointCycle>, P: nat, pad: nat, size: nat)
    requires size > 0
    ensures var ring, schedule := Jack.Played(Cycles(run, pad, size), P, pad), Received(run);
            var s := Run(schedule, pad, size);
            && |ring.history| + Refused(REPAIRED, schedule, pad, size) == s.padder.cur / size
            && (|ring.history| == s.padder.cur / size <==> AllPaddingTaken(schedule, pad, size))
  {
    hide Jack.Played, Cycles, Received, Refused, AllPaddingTaken, RunBy;
    RingFollows(run, P, pad, size);
    OutCount(REPAIRED, Received(run), pad, size);
    NoRefusalIff(Received(run), pad, size);
  }
}
