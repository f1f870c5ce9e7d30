/** The JACK interleaver (syfala_jack/src/interleaver.rs): a cursor that walks the ports of a
    process cycle frame by frame. Raw buffer pointers are replaced by offsets into per-port
    buffers. */
module Interleaver {
  import opened Common
  import DivMod

  /** The element the cursor points at: a port, and the offset of a frame in its buffer. */
  datatype Slot = Slot(port: nat, frame: nat)

  /** One frame across all ports. */
  ghost function Frame<T>(ports: seq<seq<T>>, f: nat): (s: seq<T>)
    requires forall c :: 0 <= c < |ports| ==> f < |ports[c]|
    ensures |s| == |ports|
  {
    seq(|ports|, c requires 0 <= c < |ports| => ports[c][f])
  }

  ghost predicate Buffers<T>(ports: seq<seq<T>>, frames: nat) {
    forall c :: 0 <= c < |ports| ==> |ports[c]| == frames
  }

  /** Frame-major interleaving of the first `n` frames. */
  ghost function Interleave<T>(ports: seq<seq<T>>, frames: nat, n: nat): (s: seq<T>)
    requires Buffers(ports, frames) && n <= frames
    ensures |s| == DivMod.Boundary(n, |ports|)
  {
    if n == 0 then [] else Interleave(ports, frames, n - 1) + Frame(ports, n - 1)
  }

  /** Element `f * P + c` is frame `f` of port `c`. */
  lemma {:induction false} InterleaveAt<T>(ports: seq<seq<T>>, frames: nat, n: nat, c: nat, f: nat)
    requires Buffers(ports, frames) && f < n <= frames && c < |ports|
    ensures DivMod.Boundary(f, |ports|) + c < |Interleave(ports, frames, n)|
    ensures Interleave(ports, frames, n)[DivMod.Boundary(f, |ports|) + c] == ports[c][f]
  {
    if f < n - 1 {
      InterleaveAt(ports, frames, n - 1, c, f);
    }
  }

  /** The same element counted from the front: `k` is frame `k div P` of port `k mod P`. */
  lemma InterleaveElement<T>(ports: seq<seq<T>>, frames: nat, k: nat)
    requires Buffers(ports, frames) && |ports| > 0 && k < |Interleave(ports, frames, frames)|
    ensures 0 <= k % |ports| < |ports| && 0 <= k / |ports| < frames
    ensures Interleave(ports, frames, frames)[k] == ports[k % |ports|][k / |ports|]
  {
    var P := |ports|;
    var f, c := k / P, k % P;
    assert 0 <= f by { DivMod.DivLe(0, k, P); DivMod.Unique(0, P, 0, 0); }
    DivMod.BoundaryIsMul(f, P);
    assert k == DivMod.Boundary(f, P) + c;
    if frames <= f {
      DivMod.BoundaryLe(frames, f, P);
    }
    InterleaveAt(ports, frames, frames, c, f);
  }

  /** `Interleaved`, the iterator over one process cycle. */
  class Interleaved {
    const nPorts: nat
    const nFrames: nat
    var remainingFrames: nat
    var currentIndex: nat
    const offsets: array<nat>
    /** How many elements have been yielded. */
    ghost var yielded: nat

    ghost predicate Valid()
      reads this, offsets
    {
      && 0 < nPorts == offsets.Length && remainingFrames <= nFrames && currentIndex < nPorts
      && (remainingFrames == 0 ==> currentIndex == 0)
      && yielded == DivMod.Boundary(nFrames - remainingFrames, nPorts) + currentIndex
      && forall c :: 0 <= c < nPorts ==>
           offsets[c] == nFrames - remainingFrames + (if c < currentIndex then 1 else 0)
    }

    /** `interleave`: refresh the port pointers, then start the cursor. */
    constructor (nPorts: nat, nFrames: nat)
      requires nPorts > 0
      ensures Valid() && fresh(offsets) && yielded == 0
      ensures this.nPorts == nPorts && this.nFrames == nFrames
    {
      this.nPorts, this.nFrames := nPorts, nFrames;
      remainingFrames, currentIndex, yielded := nFrames, 0, 0;
      offsets := new nat[nPorts](_ => 0);
    }

    /** How many elements are still to come. */
    ghost function Left(): (n: int)
      reads this
    {
      DivMod.Boundary(nFrames, nPorts) - yielded
    }

    /** Element `k` is frame `k div P` of port `k mod P`, never read at or beyond `nFrames`;
        there are exactly `nFrames * P` of them. */
    method Next() returns (slot: Option<Slot>)
      requires Valid()
      modifies this, offsets
      ensures Valid() && 0 <= Left()
      ensures slot.None? <==> old(yielded) == DivMod.Boundary(nFrames, nPorts)
      ensures slot.None? ==> yielded == old(yielded)
      ensures slot.Some? ==>
                && yielded == old(yielded) + 1
                && slot.value.port == old(yielded) % nPorts < nPorts
                && slot.value.frame == old(yielded) / nPorts < nFrames
                && old(yielded) == DivMod.Boundary(slot.value.frame, nPorts) + slot.value.port
    {
      DivMod.BoundaryLe(nFrames - remainingFrames, nFrames, nPorts);
      if remainingFrames == 0 {
        return None;
      }
      DivMod.InBlock(yielded, nPorts, nFrames - remainingFrames);
      assert DivMod.Boundary(nFrames - remainingFrames + 1, nPorts)
          == DivMod.Boundary(nFrames - remainingFrames, nPorts) + nPorts;
      hide DivMod.Boundary;
      slot := Some(Slot(currentIndex, offsets[currentIndex]));
      offsets[currentIndex] := offsets[currentIndex] + 1;
      currentIndex := currentIndex + 1;
      if currentIndex == nPorts {
        currentIndex := 0;
        remainingFrames := remainingFrames - 1;
      }
      yielded := yielded + 1;
    }

    /** `size_hint` counts whole frames, so it is exact only between frames. */
    method SizeHint() returns (n: nat)
      requires Valid()
      ensures n == Left() <==> currentIndex == 0
      ensures n == Left() + currentIndex
    {
      n := remainingFrames * nPorts;
      DivMod.BoundaryIsMul(remainingFrames, nPorts);
      DivMod.BoundaryAdd(nFrames - remainingFrames, remainingFrames, nPorts);
    }

    /** Reading the cycle through the cursor, as the sender does. */
    method Collect<T>(ports: seq<seq<T>>) returns (values: seq<T>)
      requires Valid() && yielded == 0 && |ports| == nPorts && Buffers(ports, nFrames)
      modifies this, offsets
      ensures values == Interleave(ports, nFrames, nFrames)
    {
      values := [];
      ghost var all := Interleave(ports, nFrames, nFrames);
      var done := false;
      while !done
        invariant Valid() && yielded == |values| <= |all| && values == all[..|values|]
        invariant done ==> |values| == |all|
        decreases !done, |all| - |values|
      {
        var slot := Next();
        match slot {
          case None =>
            done := true;
          case Some(at) =>
            InterleaveAt(ports, nFrames, nFrames, at.port, at.frame);
            values := values + [ports[at.port][at.frame]];
        }
      }
    }
  }

  /** In the middle of a frame the hint is too large: of one frame of two ports it still promises
      two elements when only one is left. */
  method MidFrameHint() returns (hint: nat, next: Option<Slot>, beyond: Option<Slot>)
    ensures hint == 2 && next == Some(Slot(1, 0)) && beyond == None
  {
    var it := new Interleaved(2, 1);
    assert DivMod.Boundary(1, 2) == 2;
    var first := it.Next();
    hint := it.SizeHint();
    next := it.Next();
    beyond := it.Next();
  }
}
