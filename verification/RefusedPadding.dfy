/** What a sink that refuses padding does to the timeline: the padder runs on as if the padding
    had been taken, and every later sample comes out early by exactly the samples refused. */
module RefusedPadding {
  import opened Common
  import opened SampleCodec
  import opened ByteConsumer
  import opened LossyPath
  import DivMod

  ghost predicate AllSlices(schedule: seq<Delivery>, stream: seq<Byte>) {
    forall i :: 0 <= i < |schedule| ==> SliceOf(schedule[i], stream)
  }

  /** The schedules of the end-to-end theorem are those cut out of the stream, none of whose
      padding is refused. */
  lemma {:induction false} AdmissibleIff(schedule: seq<Delivery>, samples: seq<nat>, pad: nat, size: nat)
    requires size > 0 && Fit(samples, size)
    ensures Admissible(schedule, samples, pad, size)
            <==> AllSlices(schedule, Encode(samples, size)) && Refused(REPAIRED, schedule, pad, size) == 0
  {
    if schedule != [] {
      var before, d := schedule[..|schedule| - 1], schedule[|schedule| - 1];
      hide RunBy, Encode, SliceOf, AllSlices, TakesPadding, Refusal;
      AdmissibleIff(before, samples, pad, size);
      AllSlicesSnoc(before, d, Encode(samples, size));
      assert before + [d] == schedule;
      NoneRefused(Run(before, pad, size), d, size);
    }
  }

  lemma AllSlicesSnoc(schedule: seq<Delivery>, d: Delivery, stream: seq<Byte>)
    ensures AllSlices(schedule + [d], stream) <==> AllSlices(schedule, stream) && SliceOf(d, stream)
  {
    hide SliceOf;
    var more := schedule + [d];
    assert more[|schedule|] == d;
    assert forall i :: 0 <= i < |schedule| ==> more[i] == schedule[i];
  }

  lemma NoneRefused(s: Path, d: Delivery, size: nat)
    requires size > 0
    ensures Refusal(s.padder.cur, d, size) == 0 <==> TakesPadding(s, d, size)
  {
  }

  /** For each packet the sink took all the padding. */
  ghost predicate AllPaddingTaken(schedule: seq<Delivery>, pad: nat, size: nat)
    requires size > 0
  {
    schedule == [] ||
    var n := |schedule| - 1;
    AllPaddingTaken(schedule[..n], pad, size) && TakesPadding(Run(schedule[..n], pad, size), schedule[n], size)
  }

  lemma {:induction false} NoRefusalIff(schedule: seq<Delivery>, pad: nat, size: nat)
    requires size > 0
    ensures Refused(REPAIRED, schedule, pad, size) == 0 <==> AllPaddingTaken(schedule, pad, size)
  {
    if schedule != [] {
      hide RunBy, TakesPadding, Refusal;
      var before, d := schedule[..|schedule| - 1], schedule[|schedule| - 1];
      NoRefusalIff(before, pad, size);
      NoneRefused(Run(before, pad, size), d, size);
    }
  }

  /** The same packets into a sink that always takes the padding. */
  ghost function Generous(schedule: seq<Delivery>, pad: nat, size: nat): (generous: seq<Delivery>)
    requires size > 0
  {
    if schedule == [] then []
    else
      var n := |schedule| - 1;
      var gap := Gap(Run(schedule[..n], pad, size).padder.cur, schedule[n].idx, size);
      Generous(schedule[..n], pad, size) + [Raise(schedule[n], gap)]
  }

  ghost function Raise(d: Delivery, gap: nat): (d': Delivery) {
    if d.limit < gap then d.(limit := gap) else d
  }

  /** Refused padding is missing from the output, and changes nothing else. */
  lemma RaiseEmits(plan: Plan, limit: nat, pad: nat, size: nat)
    requires size > 0 && (plan.gap > 0 ==> plan.carried == [])
    ensures var f := Emit(REPAIRED, plan, limit, pad, size);
            var g := Emit(REPAIRED, plan, if limit < plan.gap then plan.gap else limit, pad, size);
            && f.padder == g.padder && f.out <= g.out
            && |g.out| == |f.out| + (if limit < plan.gap then plan.gap - limit else 0)
  {
    if limit < plan.gap {
      assert plan.carried + plan.kept[..0] == [];
      assert Emit(REPAIRED, plan, limit, pad, size) == Fed(Padder(plan.from, []), Repeat(pad, limit), false);
    }
  }

  /** Two runs that differ only in refused padding. */
  ghost predicate Behind(s: Path, g: Path, refused: nat) {
    g.padder == s.padder && g.got == s.got && |g.out| == |s.out| + refused
  }

  lemma DeliverBehind(s: Path, g: Path, d: Delivery, refused: nat, pad: nat, size: nat)
    requires size > 0 && Behind(s, g, refused)
    ensures var s' := Deliver(s, d, pad, size);
            var g' := Deliver(g, Raise(d, Gap(s.padder.cur, d.idx, size)), pad, size);
            && Behind(s', g', refused + Refusal(s.padder.cur, d, size))
            && |s.out| <= |s'.out|
            && forall p: nat :: |s.out| <= p < |s'.out| ==> s'.out[p] == g'.out[p + refused]
  {
    RaiseEmits(PlanFor(REPAIRED, s.padder, d.idx, d.bytes, size), d.limit, pad, size);
  }

  lemma {:induction false} GenerousRun(schedule: seq<Delivery>, pad: nat, size: nat)
    requires size > 0
    ensures Behind(Run(schedule, pad, size), Run(Generous(schedule, pad, size), pad, size),
                   Refused(REPAIRED, schedule, pad, size))
  {
    if schedule != [] {
      var before, d := schedule[..|schedule| - 1], schedule[|schedule| - 1];
      hide DeliverBy, Behind, Raise, Refusal;
      GenerousRun(before, pad, size);
      var s, generous := Run(before, pad, size), Generous(before, pad, size);
      DeliverBehind(s, Run(generous, pad, size), d, Refused(REPAIRED, before, pad, size), pad, size);
      RunSnoc(REPAIRED, generous, Raise(d, Gap(s.padder.cur, d.idx, size)), pad, size);
    }
  }

  lemma RaiseTakes(g: Path, d: Delivery, gap: nat, stream: seq<Byte>, size: nat)
    requires size > 0 && SliceOf(d, stream) && gap == Gap(g.padder.cur, d.idx, size)
    ensures SliceOf(Raise(d, gap), stream) && TakesPadding(g, Raise(d, gap), size)
  {
  }

  lemma {:induction false} GenerousAdmissible(schedule: seq<Delivery>, samples: seq<nat>, pad: nat, size: nat)
    requires size > 0 && Fit(samples, size) && AllSlices(schedule, Encode(samples, size))
    ensures Admissible(Generous(schedule, pad, size), samples, pad, size)
  {
    if schedule != [] {
      var before, d := schedule[..|schedule| - 1], schedule[|schedule| - 1];
      hide RunBy, Encode, AllSlices, SliceOf, TakesPadding, Raise;
      assert before + [d] == schedule;
      AllSlicesSnoc(before, d, Encode(samples, size));
      GenerousAdmissible(before, samples, pad, size);
      GenerousRun(before, pad, size);
      var generous, gap := Generous(before, pad, size), Gap(Run(before, pad, size).padder.cur, d.idx, size);
      RaiseTakes(Run(generous, pad, size), d, gap, Encode(samples, size), size);
      assert (generous + [Raise(d, gap)])[..|generous|] == generous;
    }
  }

  /** The end-to-end theorem for every sink: what a packet adds to the output at position `p`
      belongs at position `p` plus the padding refused before that packet, and is the sample
      there or padding, exactly by whether its bytes were stored. */
  lemma RefusalShifts(schedule: seq<Delivery>, d: Delivery, samples: seq<nat>, pad: nat, size: nat, p: nat)
    requires size > 0 && Fit(samples, size) && AllSlices(schedule + [d], Encode(samples, size))
    requires |Run(schedule, pad, size).out| <= p < |Run(schedule + [d], pad, size).out|
    ensures var s', k := Run(schedule + [d], pad, size), p + Refused(REPAIRED, schedule, pad, size);
            && k < |samples|
            && s'.out[p] == if Covered(s'.got, k, size) then samples[k] else pad
  {
    hide DeliverBy, RunBy, Refused, Encode, Covered, Refusal, SliceOf;
    var more := schedule + [d];
    assert more[..|more| - 1] == schedule;
    var s, g := Run(schedule, pad, size), Run(Generous(schedule, pad, size), pad, size);
    GenerousRun(schedule, pad, size);
    DeliverBehind(s, g, d, Refused(REPAIRED, schedule, pad, size), pad, size);
    RunSnoc(REPAIRED, schedule, d, pad, size);
    RunSnoc(REPAIRED, Generous(schedule, pad, size), Raise(d, Gap(s.padder.cur, d.idx, size)), pad, size);
    GenerousAdmissible(more, samples, pad, size);
    EndToEnd(Generous(more, pad, size), samples, pad, size, p + Refused(REPAIRED, schedule, pad, size));
  }

  /** Packet `i` emitted the element at `p`. */
  ghost predicate EmittedIn(schedule: seq<Delivery>, i: nat, p: nat, pad: nat, size: nat)
    requires size > 0
  {
    i < |schedule| && |Run(schedule[..i], pad, size).out| <= p < |Run(schedule[..i + 1], pad, size).out|
  }

  lemma {:induction false} EmittedBy(schedule: seq<Delivery>, pad: nat, size: nat, p: nat) returns (i: nat)
    requires size > 0 && p < |Run(schedule, pad, size).out|
    ensures i < |schedule| && EmittedIn(schedule, i, p, pad, size)
    ensures p < |Run(schedule[..i + 1], pad, size).out|
    ensures Run(schedule, pad, size).out[p] == Run(schedule[..i + 1], pad, size).out[p]
  {
    var n := |schedule| - 1;
    var before := schedule[..n];
    OutputGrows(Run(before, pad, size), schedule[n], pad, size);
    assert Run(before, pad, size).out <= Run(schedule, pad, size).out;
    hide RunBy, DeliverBy;
    if |Run(before, pad, size).out| <= p {
      i := n;
      assert schedule[..n + 1] == schedule;
    } else {
      hide EmittedIn;
      i := EmittedBy(before, pad, size, p);
      EmittedLonger(schedule, n, i, p, pad, size);
    }
  }

  lemma EmittedLonger(schedule: seq<Delivery>, n: nat, i: nat, p: nat, pad: nat, size: nat)
    requires size > 0 && n <= |schedule| && EmittedIn(schedule[..n], i, p, pad, size)
    ensures EmittedIn(schedule, i, p, pad, size)
    ensures schedule[..n][..i + 1] == schedule[..i + 1]
  {
    hide RunBy;
    assert schedule[..n][..i] == schedule[..i] && schedule[..n][..i + 1] == schedule[..i + 1];
  }

  /** The same for a whole run: the element at `p` belongs later by the padding refused before the
      packet that emitted it. */
  lemma EverySink(schedule: seq<Delivery>, samples: seq<nat>, pad: nat, size: nat, p: nat) returns (i: nat)
    requires size > 0 && Fit(samples, size) && AllSlices(schedule, Encode(samples, size))
    requires p < |Run(schedule, pad, size).out|
    ensures EmittedIn(schedule, i, p, pad, size)
    ensures var k, v := p + Refused(REPAIRED, schedule[..i], pad, size), Run(schedule, pad, size).out[p];
            k < |samples| && v == if Covered(Run(schedule[..i + 1], pad, size).got, k, size) then samples[k] else pad
  {
    hide RunBy, Refused, Encode, Covered, SliceOf;
    i := EmittedBy(schedule, pad, size, p);
    assert schedule[..i] + [schedule[i]] == schedule[..i + 1];
    RefusalShifts(schedule[..i], schedule[i], samples, pad, size, p);
  }

  /** Of three missing samples the sink takes one and refuses two: sample 3 comes out at position
      1. */
  lemma RefusedTwo(b: Byte, pad: nat)
    ensures var d, e := Delivery(3, [b], 1), Delivery(3, [b], 1);
            && Refused(REPAIRED, [d], pad, 1) == 2 && !Aligned(Run([d], pad, 1), 1)
            && Run([d, e], pad, 1).out == [pad, b]
  {
    var d, start := Delivery(3, [b], 1), Path(FRESH, [], {});
    RunSnoc(REPAIRED, [], d, pad, 1);
    RunSnoc(REPAIRED, [d], d, pad, 1);
    assert [] + [d] == [d] && [d] + [d] == [d, d] && [d][..0] == [];
    assert Run([], pad, 1) == start;
    hide DeliverBy, RunBy;
    OneOfThree(start, d, pad, 1);
    NextByte(Run([d], pad, 1), d, b, pad, 1);
    OutCount(REPAIRED, [d], pad, 1);
    assert [pad] + [b as nat] == [pad, b];
  }

  lemma OneOfThree(s: Path, d: Delivery, pad: nat, size: nat)
    requires size == 1 && s == Path(FRESH, [], {}) && d.idx == 3 && d.limit == 1
    ensures Refusal(s.padder.cur, d, size) == 2
    ensures Deliver(s, d, pad, size).out == [pad] && Deliver(s, d, pad, size).padder == Padder(3, [])
  {
    DivMod.CeilDivBounds(d.idx, size);
    DivMod.BoundaryIsMul(3, size);
    var plan := PlanFor(REPAIRED, s.padder, d.idx, d.bytes, size);
    assert plan.gap == 3 && plan.from == 3;
    assert plan.carried + plan.kept[..0] == [];
    assert Repeat(pad, 1) == [pad];
  }

  lemma NextByte(s: Path, d: Delivery, b: Byte, pad: nat, size: nat)
    requires size == 1 && s.padder == Padder(d.idx, []) && d.bytes == [b] && d.limit == 1
    ensures Deliver(s, d, pad, size).out == s.out + [b]
  {
    assert DivMod.Boundary(1, size) == 1;
    var plan := PlanFor(REPAIRED, s.padder, d.idx, d.bytes, size);
    assert plan.carried + plan.kept[..1] == [b];
    assert FromBytes([b]) == b && Whole([b], size) == [b];
  }
}
