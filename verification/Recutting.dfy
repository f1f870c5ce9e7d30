/** The same packets cut out of another stream: their indices, lengths and sinks alone decide where
    the padder goes. */
module Recutting {
  import opened SampleCodec
  import opened ByteConsumer
  import opened LossyPath
  import opened SkipAsWritten

  ghost predicate Within(schedule: seq<Delivery>, stream: seq<Byte>) {
    forall i :: 0 <= i < |schedule| ==> schedule[i].idx + |schedule[i].bytes| <= |stream|
  }

  ghost function CutFrom(d: Delivery, stream: seq<Byte>): (d': Delivery)
    requires d.idx + |d.bytes| <= |stream|
    ensures SliceOf(d', stream)
  {
    d.(bytes := stream[d.idx..d.idx + |d.bytes|])
  }

  ghost function Recut(schedule: seq<Delivery>, stream: seq<Byte>): (recut: seq<Delivery>)
    requires Within(schedule, stream)
  {
    if schedule == [] then []
    else
      var n := |schedule| - 1;
      Recut(schedule[..n], stream) + [CutFrom(schedule[n], stream)]
  }

  /** One packet moves the padder the same way whatever bytes it carries. */
  lemma SameStep(s: Path, t: Path, d: Delivery, d': Delivery, refused: nat, refused': nat, pad: nat, size: nat)
    requires Counted(s, refused, size) && Counted(t, refused', size) && s.padder.cur == t.padder.cur
    requires d'.idx == d.idx && d'.limit == d.limit && |d'.bytes| == |d.bytes|
    ensures DeliverBy(SKIP_FROM_OLD, s, d, pad, size).padder.cur == DeliverBy(SKIP_FROM_OLD, t, d', pad, size).padder.cur
  {
    CountedAligned(s, refused, size);
    CountedAligned(t, refused', size);
  }

  lemma {:induction false} RecutRun(schedule: seq<Delivery>, stream: seq<Byte>, pad: nat, size: nat)
    requires size > 0 && Within(schedule, stream)
    ensures RunBy(SKIP_FROM_OLD, Recut(schedule, stream), pad, size).padder.cur
         == RunBy(SKIP_FROM_OLD, schedule, pad, size).padder.cur
    ensures Refused(SKIP_FROM_OLD, Recut(schedule, stream), pad, size) == Refused(SKIP_FROM_OLD, schedule, pad, size)
  {
    if schedule != [] {
      hide DeliverBy, Counted, Refusal;
      var before, d := schedule[..|schedule| - 1], schedule[|schedule| - 1];
      var recut, d' := Recut(before, stream), CutFrom(d, stream);
      RecutRun(before, stream, pad, size);
      RunCounted(SKIP_FROM_OLD, before, pad, size);
      RunCounted(SKIP_FROM_OLD, recut, pad, size);
      SameStep(RunBy(SKIP_FROM_OLD, before, pad, size), RunBy(SKIP_FROM_OLD, recut, pad, size), d, d',
               Refused(SKIP_FROM_OLD, before, pad, size), Refused(SKIP_FROM_OLD, recut, pad, size), pad, size);
      RunSnoc(SKIP_FROM_OLD, recut, d', pad, size);
      RefusedSnoc(SKIP_FROM_OLD, recut, d', pad, size);
      SameRefusal(RunBy(SKIP_FROM_OLD, before, pad, size).padder.cur, d, d', size);
    }
  }

  lemma RefusedSnoc(build: Build, schedule: seq<Delivery>, d: Delivery, pad: nat, size: nat)
    requires size > 0 && build.wholeBuffer
    ensures Refused(build, schedule + [d], pad, size)
         == Refused(build, schedule, pad, size) + Refusal(RunBy(build, schedule, pad, size).padder.cur, d, size)
  {
    hide RunBy, Refusal;
    assert (schedule + [d])[..|schedule|] == schedule;
  }

  lemma SameRefusal(cur: nat, d: Delivery, d': Delivery, size: nat)
    requires size > 0 && d'.idx == d.idx && d'.limit == d.limit
    ensures Refusal(cur, d', size) == Refusal(cur, d, size)
  {
  }

  /** Later packets take nothing back. */
  lemma {:induction false} OutGrows(schedule: seq<Delivery>, i: nat, stream: seq<Byte>, pad: nat, size: nat)
    requires size > 0 && i <= |schedule| && Within(schedule, stream)
    ensures RunBy(SKIP_FROM_OLD, Recut(schedule[..i], stream), pad, size).out
         <= RunBy(SKIP_FROM_OLD, Recut(schedule, stream), pad, size).out
  {
    if i == |schedule| {
      assert schedule[..i] == schedule;
    } else {
      var before, d := schedule[..|schedule| - 1], schedule[|schedule| - 1];
      OutGrows(before, i, stream, pad, size);
      assert before[..i] == schedule[..i];
      hide Feed;
      RunSnoc(SKIP_FROM_OLD, Recut(before, stream), CutFrom(d, stream), pad, size);
    }
  }
}
