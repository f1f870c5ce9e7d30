/** Turning samples into indexed byte packets (syfala_utils/src/byte_producer.rs). */
module ByteProducer {
  import opened Common
  import opened SampleCodec
  import DivMod

  lemma EncodeAt(samples: seq<nat>, size: nat, k: nat, i: nat)
    requires Fit(samples, size) && k < |samples| && i < size
    ensures DivMod.Boundary(k, size) + i < |Encode(samples, size)|
    ensures Encode(samples, size)[DivMod.Boundary(k, size) + i] == ToBytes(samples[k], size)[i]
  {
    EncodeDrop(samples, size, k);
    var tail := Encode(samples[k..], size);
    assert tail == ToBytes(samples[k], size) + Encode(samples[k..][1..], size);
    assert tail[i] == Encode(samples, size)[DivMod.Boundary(k, size)..][i];
  }

  /** A packet cut out of the stream is still a piece of it once more samples were pushed. */
  lemma PieceOfLonger(samples: seq<nat>, more: seq<nat>, size: nat, idx: nat, bytes: seq<Byte>)
    requires Fit(samples, size) && Fit(more, size) && idx + |bytes| <= |Encode(samples, size)|
    requires bytes == Encode(samples, size)[idx..idx + |bytes|]
    ensures Fit(samples + more, size) && idx + |bytes| <= |Encode(samples + more, size)|
    ensures bytes == Encode(samples + more, size)[idx..idx + |bytes|]
  {
    EncodePrefix(samples, more, size);
  }

  /** `IndexedAudioSampleStreamReceiver` over a ring consumer: the source's samples, and the
      `SampleByteStream` that frames them. */
  class PacketProducer {
    const size: nat
    /** The samples still in the ring; an iterated sample leaves it, the others stay. */
    var source: seq<nat>
    var currentByteIdx: nat
    const currentSampleBytes: array<Byte>
    /** Everything ever pushed to the ring, and every byte ever taken from a packet. */
    ghost var pushed: seq<nat>
    ghost var taken: seq<Byte>

    /** How many samples have been fetched from the ring so far. */
    ghost function Fetched(): (n: int)
      reads this
    {
      |pushed| - |source|
    }

    ghost predicate Framed()
      reads this, currentSampleBytes
    {
      && size > 0 && currentSampleBytes.Length == size && Fit(pushed, size)
      && 0 <= Fetched() && source == pushed[Fetched()..]
      && var end := DivMod.Boundary(Fetched(), size);
      && currentByteIdx <= end <= currentByteIdx + size
      && (currentByteIdx < end ==>
            Fetched() > 0 && currentSampleBytes[..] == ToBytes(pushed[Fetched() - 1], size))
      && currentByteIdx <= |Encode(pushed, size)|
      && taken == Encode(pushed, size)[..currentByteIdx]
    }

    /** The bytes taken are exactly the first `currentByteIdx` of the stream, and the scratch
        buffer holds the sample that index falls in. */
    ghost predicate Valid()
      reads this, currentSampleBytes
    {
      Framed() && DivMod.Boundary(Fetched(), size) < currentByteIdx + size
    }

    constructor (size: nat)
      requires 0 < size < 256
      ensures Valid() && fresh(currentSampleBytes) && this.size == size
      ensures pushed == [] && taken == [] && currentByteIdx == 0
    {
      this.size := size;
      source, currentByteIdx, pushed, taken := [], 0, [], [];
      currentSampleBytes := new Byte[size](_ => 0);
    }

    /** The other end of the ring. */
    method Push(sample: nat)
      requires Valid() && sample < Pow256(size)
      modifies this`source, this`pushed
      ensures Valid() && pushed == old(pushed) + [sample]
      ensures currentByteIdx == old(currentByteIdx) && taken == old(taken)
    {
      EncodePrefix(pushed, [sample], size);
      source, pushed := source + [sample], pushed + [sample];
    }

    /** `SampleByteStreamIter::next`, where `left` samples of the chunk are not yet iterated. */
    method Next(left: nat) returns (byte: Option<Byte>, left': nat)
      requires Valid() && left <= |source| && currentByteIdx + 1 < U64
      modifies this, currentSampleBytes
      ensures Valid() && pushed == old(pushed)
      ensures left' <= left && Fetched() + left' == old(Fetched()) + left && left' <= |source|
      ensures byte.None? <==> currentByteIdx == DivMod.Boundary(old(Fetched()) + left, size) == old(currentByteIdx)
      ensures byte.None? ==> taken == old(taken)
      ensures byte.Some? ==> currentByteIdx == old(currentByteIdx) + 1 && taken == old(taken) + [byte.value]
    {
      left' := left;
      var at := currentByteIdx % size;
      Offset(currentByteIdx, size, Fetched());
      DivMod.BoundaryLe(Fetched(), Fetched() + left, size);
      if at == 0 {
        if left == 0 {
          return None, 0;
        }
        Load();
        left' := left - 1;
      }
      byte := Some(currentSampleBytes[at]);
      Emit(at);
    }

    method Load()
      requires Valid() && currentByteIdx == DivMod.Boundary(Fetched(), size) && |source| > 0
      modifies this`source, currentSampleBytes
      ensures Framed() && Fetched() == old(Fetched()) + 1
      ensures currentByteIdx == DivMod.Boundary(Fetched() - 1, size)
    {
      StoreBytes(source[0], currentSampleBytes);
      source := source[1..];
    }

    method Emit(at: nat)
      requires Framed() && Fetched() > 0 && at < size
      requires currentByteIdx == DivMod.Boundary(Fetched() - 1, size) + at
      modifies this`currentByteIdx, this`taken
      ensures Valid() && currentByteIdx == old(currentByteIdx) + 1
      ensures taken == old(taken) + [currentSampleBytes[at]]
    {
      hide Encode, ToBytes;
      EncodeAt(pushed, size, Fetched() - 1, at);
      OneMore(Encode(pushed, size), taken, currentByteIdx);
      currentByteIdx := currentByteIdx + 1;
      taken := taken + [currentSampleBytes[at]];
    }

    /** `produce_packet`: the packet's index, and the bytes a caller takes that wants at most
        `limit` of them, out of a chunk of `chunk` samples. */
    method ProducePacket(chunk: nat, limit: nat) returns (idx: nat, bytes: seq<Byte>)
      requires Valid() && chunk <= |source| && currentByteIdx + limit + 1 < U64
      modifies this, currentSampleBytes
      ensures Valid() && pushed == old(pushed)
      ensures idx == old(currentByteIdx) && currentByteIdx == idx + |bytes| && |bytes| <= limit
      ensures bytes == Encode(pushed, size)[idx..idx + |bytes|]
      ensures taken == old(taken) + bytes
      ensures |bytes| < limit ==> currentByteIdx == DivMod.Boundary(old(Fetched()) + chunk, size)
    {
      idx, bytes := currentByteIdx, [];
      var left: nat, done := chunk, false;
      while |bytes| < limit && !done
        invariant Valid() && pushed == old(pushed)
        invariant currentByteIdx == idx + |bytes| && |bytes| <= limit
        invariant taken == old(taken) + bytes
        invariant left <= |source| && Fetched() + left == old(Fetched()) + chunk
        invariant done ==> currentByteIdx == DivMod.Boundary(old(Fetched()) + chunk, size)
        decreases limit - |bytes|, !done
      {
        var byte;
        byte, left := Next(left);
        match byte {
          case None => done := true;
          case Some(b) => bytes := bytes + [b];
        }
      }
      LastTaken(Encode(pushed, size), old(taken), bytes, currentByteIdx);
    }
  }

  lemma OneMore(stream: seq<Byte>, taken: seq<Byte>, n: nat)
    requires n < |stream| && taken == stream[..n]
    ensures stream[..n + 1] == taken + [stream[n]]
  {
  }

  lemma LastTaken(stream: seq<Byte>, before: seq<Byte>, bytes: seq<Byte>, n: nat)
    requires n <= |stream| && before + bytes == stream[..n]
    ensures |before| + |bytes| == n && bytes == stream[|before|..n]
  {
    assert bytes == (before + bytes)[|before|..];
  }

  lemma Offset(x: nat, n: nat, blocks: nat)
    requires x <= DivMod.Boundary(blocks, n) < x + n
    ensures n > 0 && x % n == if x == DivMod.Boundary(blocks, n) then 0 else x - DivMod.Boundary(blocks - 1, n)
  {
    DivMod.InBlock(x, n, if x == DivMod.Boundary(blocks, n) then blocks else blocks - 1);
  }
}
