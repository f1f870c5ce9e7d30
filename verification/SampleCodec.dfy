/** Samples as little-endian bit patterns (syfala_utils/src/sample_type.rs), and the byte
    stream that a sequence of samples denotes.

    Every sample type of the crate is copied to and from its bytes by `to_le_bytes` and
    `from_le_bytes`, so a sample is modelled by its bit pattern: a number below 256^size. */
module SampleCodec {
  import DivMod

  type Byte = b: int | 0 <= b < 256

  function Pow256(n: nat): (r: nat)
    ensures r > 0
  {
    if n == 0 then 1 else 256 * Pow256(n - 1)
  }

  function ToBytes(v: nat, size: nat): (bytes: seq<Byte>)
    requires v < Pow256(size)
    ensures |bytes| == size
  {
    if size == 0 then [] else [v % 256] + ToBytes(v / 256, size - 1)
  }

  function FromBytes(bytes: seq<Byte>): (v: nat)
    ensures v < Pow256(|bytes|)
  {
    if bytes == [] then 0 else bytes[0] + 256 * FromBytes(bytes[1..])
  }

  /** Byte `i` is the digit of weight 256^i. */
  lemma {:induction false} LittleEndian(v: nat, size: nat, i: nat)
    requires v < Pow256(size) && i < size
    ensures ToBytes(v, size)[i] == v / Pow256(i) % 256
  {
    if i > 0 {
      LittleEndian(v / 256, size - 1, i - 1);
      DivTwice(v, 256, Pow256(i - 1));
    }
  }

  lemma DivTwice(v: nat, a: nat, b: nat)
    requires a > 0 && b > 0
    ensures a * b > 0 && v / a / b == v / (a * b)
  {
    var q, r := v / a, v % a;
    var k, t := q / b, q % b;
    assert v == q * a + r && q == k * b + t;
    assert q * a == k * (a * b) + t * a;
    DivMod.MulLe(t, b - 1, a);
    assert (b - 1) * a == a * b - a;
    DivMod.Unique(v, a * b, k, t * a + r);
  }

  lemma {:induction false} FromToBytes(v: nat, size: nat)
    requires v < Pow256(size)
    ensures FromBytes(ToBytes(v, size)) == v
  {
    if size > 0 {
      FromToBytes(v / 256, size - 1);
      assert ToBytes(v, size)[1..] == ToBytes(v / 256, size - 1);
    }
  }

  lemma {:induction false} ToFromBytes(bytes: seq<Byte>)
    ensures ToBytes(FromBytes(bytes), |bytes|) == bytes
  {
    if bytes != [] {
      ToFromBytes(bytes[1..]);
      var v := FromBytes(bytes);
      assert v % 256 == bytes[0] && v / 256 == FromBytes(bytes[1..]);
    }
  }

  /** `SampleToBytes::to_bytes`: the source panics unless the slice has the sample's size. */
  method StoreBytes(v: nat, slice: array<Byte>)
    requires v < Pow256(slice.Length)
    modifies slice
    ensures slice[..] == ToBytes(v, slice.Length)
  {
    var rest: nat, i := v, 0;
    while i < slice.Length
      invariant 0 <= i <= slice.Length
      invariant rest < Pow256(slice.Length - i)
      invariant slice[..i] + ToBytes(rest, slice.Length - i) == ToBytes(v, slice.Length)
    {
      slice[i] := rest % 256;
      assert slice[..i + 1] == slice[..i] + [rest % 256];
      rest, i := rest / 256, i + 1;
    }
    assert slice[..i] == slice[..];
  }

  /** `SILENCE` of the unsigned integer types is `MAX / 2 + 1`, the midpoint of their range; every
      other type uses zero. */
  function Silence(unsigned: bool, size: nat): (v: nat)
    requires size > 0
    ensures v < Pow256(size)
    ensures if unsigned then v + v == Pow256(size) else v == 0
  {
    Halved(Pow256(size), 128 * Pow256(size - 1));
    if unsigned then (Pow256(size) - 1) / 2 + 1 else 0
  }

  lemma Halved(n: nat, half: nat)
    requires n == half + half
    ensures n > 0 ==> (n - 1) / 2 + 1 == half
  {
  }

  // ----- The byte stream of a sequence of samples

  ghost predicate Fit(samples: seq<nat>, size: nat) {
    forall k :: 0 <= k < |samples| ==> samples[k] < Pow256(size)
  }

  ghost function Encode(samples: seq<nat>, size: nat): (bytes: seq<Byte>)
    requires Fit(samples, size)
  {
    if samples == [] then [] else ToBytes(samples[0], size) + Encode(samples[1..], size)
  }

  lemma {:induction false} EncodeLength(samples: seq<nat>, size: nat)
    requires Fit(samples, size)
    ensures |Encode(samples, size)| == DivMod.Boundary(|samples|, size)
  {
    if samples != [] {
      EncodeLength(samples[1..], size);
    }
  }

  lemma {:induction false} EncodeAppend(a: seq<nat>, b: seq<nat>, size: nat)
    requires Fit(a, size) && Fit(b, size)
    ensures Fit(a + b, size)
    ensures Encode(a + b, size) == Encode(a, size) + Encode(b, size)
  {
    if a == [] {
      assert a + b == b;
    } else {
      hide ToBytes, Pow256, Encode;
      var v, tail := a[0], a[1..];
      assert a == [v] + tail && a + b == [v] + (tail + b);
      EncodeAppend(tail, b, size);
      EncodeCons(v, tail, size);
      EncodeCons(v, tail + b, size);
      Associative(ToBytes(v, size), Encode(tail, size), Encode(b, size));
    }
  }

  lemma Associative(a: seq<Byte>, b: seq<Byte>, c: seq<Byte>)
    ensures a + (b + c) == (a + b) + c
  {
  }

  lemma EncodeCons(v: nat, tail: seq<nat>, size: nat)
    requires v < Pow256(size) && Fit(tail, size)
    ensures Fit([v] + tail, size) && Encode([v] + tail, size) == ToBytes(v, size) + Encode(tail, size)
  {
    hide ToBytes, Pow256;
    assert ([v] + tail)[1..] == tail;
  }

  /** Dropping whole samples drops exactly their bytes. */
  lemma {:induction false} EncodeDrop(samples: seq<nat>, size: nat, k: nat)
    requires Fit(samples, size) && k <= |samples|
    ensures DivMod.Boundary(k, size) <= |Encode(samples, size)|
    ensures Encode(samples, size)[DivMod.Boundary(k, size)..] == Encode(samples[k..], size)
  {
    assert samples == samples[..k] + samples[k..];
    EncodeAppend(samples[..k], samples[k..], size);
    EncodeLength(samples[..k], size);
  }

  /** Samples arriving later never change the bytes already in the stream. */
  lemma EncodePrefix(samples: seq<nat>, more: seq<nat>, size: nat)
    requires Fit(samples, size) && Fit(more, size)
    ensures Fit(samples + more, size)
    ensures Encode(samples, size) <= Encode(samples + more, size)
  {
    EncodeAppend(samples, more, size);
  }

  // ----- Cutting bytes back into samples

  /** The whole samples at the front of `bytes`. */
  ghost function Whole(bytes: seq<Byte>, size: nat): (samples: seq<nat>)
    requires size > 0
  {
    if |bytes| < size then [] else [FromBytes(bytes[..size])] + Whole(bytes[size..], size)
  }

  /** The incomplete sample left at the end of `bytes`. */
  ghost function Rest(bytes: seq<Byte>, size: nat): (rest: seq<Byte>)
    requires size > 0
    ensures |rest| < size
  {
    if |bytes| < size then bytes else Rest(bytes[size..], size)
  }

  lemma {:induction false} WholeLength(bytes: seq<Byte>, size: nat)
    requires size > 0
    ensures DivMod.Boundary(|Whole(bytes, size)|, size) + |Rest(bytes, size)| == |bytes|
  {
    if |bytes| >= size {
      WholeLength(bytes[size..], size);
    }
  }

  /** Sample `k` is read from its own bytes. */
  lemma {:induction false} WholeAt(bytes: seq<Byte>, size: nat, k: nat)
    requires size > 0 && k < |Whole(bytes, size)|
    ensures DivMod.Boundary(k, size) + size <= |bytes|
    ensures Whole(bytes, size)[k] == FromBytes(bytes[DivMod.Boundary(k, size)..DivMod.Boundary(k, size) + size])
  {
    if k > 0 {
      hide FromBytes, Pow256;
      var at, tail := DivMod.Boundary(k - 1, size), bytes[size..];
      WholeAt(tail, size, k - 1);
      SliceOfTail(bytes, tail, size, at);
    }
  }

  lemma SliceOfTail(bytes: seq<Byte>, tail: seq<Byte>, n: nat, at: nat)
    requires n <= |bytes| && tail == bytes[n..] && at + n <= |tail|
    ensures tail[at..at + n] == bytes[at + n..at + n + n]
  {
  }

  /** A piece of whole samples cuts into those samples, with nothing over. */
  lemma {:induction false} WholeFront(bytes: seq<Byte>, size: nat, q: nat)
    requires size > 0 && q <= |Whole(bytes, size)|
    ensures DivMod.Boundary(q, size) <= |bytes|
    ensures Whole(bytes[..DivMod.Boundary(q, size)], size) == Whole(bytes, size)[..q]
    ensures Rest(bytes[..DivMod.Boundary(q, size)], size) == []
  {
    if q > 0 {
      hide FromBytes, Pow256;
      var n, tail := DivMod.Boundary(q - 1, size), bytes[size..];
      WholeFront(tail, size, q - 1);
      var front := bytes[..n + size];
      assert front[..size] == bytes[..size] && front[size..] == tail[..n];
    }
  }

  /** Cutting bytes into samples loses nothing. */
  lemma {:induction false} EncodeWhole(bytes: seq<Byte>, size: nat)
    requires size > 0
    ensures Fit(Whole(bytes, size), size)
    ensures Encode(Whole(bytes, size), size) + Rest(bytes, size) == bytes
  {
    if |bytes| >= size {
      hide FromBytes, ToBytes, Pow256, Encode;
      var first, tail := bytes[..size], bytes[size..];
      assert bytes == first + tail;
      EncodeWhole(tail, size);
      ToFromBytes(first);
      EncodeCons(FromBytes(first), Whole(tail, size), size);
    }
  }

  /** Different bytes are different samples. */
  lemma FromBytesInjective(a: seq<Byte>, b: seq<Byte>)
    requires |a| == |b| && FromBytes(a) == FromBytes(b)
    ensures a == b
  {
    ToFromBytes(a);
    ToFromBytes(b);
  }

  /** One more byte either extends the incomplete sample or completes it. */
  lemma {:induction false} WholeSnoc(bytes: seq<Byte>, b: Byte, size: nat)
    requires size > 0
    ensures |Rest(bytes, size)| + 1 < size ==>
              Whole(bytes + [b], size) == Whole(bytes, size) &&
              Rest(bytes + [b], size) == Rest(bytes, size) + [b]
    ensures |Rest(bytes, size)| + 1 == size ==>
              Whole(bytes + [b], size) == Whole(bytes, size) + [FromBytes(Rest(bytes, size) + [b])] &&
              Rest(bytes + [b], size) == []
  {
    if |bytes| < size {
      assert |bytes| + 1 == size ==> (bytes + [b])[..size] == bytes + [b];
    } else {
      WholeSnoc(bytes[size..], b, size);
      assert (bytes + [b])[..size] == bytes[..size];
      assert (bytes + [b])[size..] == bytes[size..] + [b];
    }
  }

  /** Cutting a prefix of the stream gives back the samples it covers, and the bytes over. */
  lemma {:induction false} WholeOfPrefix(samples: seq<nat>, size: nat, n: nat, prefix: seq<Byte>)
    requires size > 0 && Fit(samples, size) && n <= |Encode(samples, size)|
    requires prefix == Encode(samples, size)[..n]
    ensures Whole(prefix, size) <= samples
    ensures |Rest(prefix, size)| <= n
    ensures Rest(prefix, size) == Encode(samples, size)[n - |Rest(prefix, size)|..n]
  {
    if n >= size {
      var first, later, rest := samples[0], samples[1..], prefix[size..];
      assert samples == [first] + later;
      FromToBytes(first, size);
      PrefixOfJoin(ToBytes(first, size), Encode(later, size), n, prefix);
      assert Whole(prefix, size) == [first] + Whole(rest, size) && Rest(prefix, size) == Rest(rest, size);
      hide FromBytes, ToBytes, Pow256, Whole, Rest;
      WholeOfPrefix(later, size, n - size, rest);
      SliceOfJoin(ToBytes(first, size), Encode(later, size), n - |Rest(rest, size)|, n);
    }
  }

  lemma PrefixOfJoin(a: seq<Byte>, b: seq<Byte>, n: nat, prefix: seq<Byte>)
    requires |a| <= n <= |a| + |b| && prefix == (a + b)[..n]
    ensures prefix[..|a|] == a && prefix[|a|..] == b[..n - |a|]
  {
  }

  lemma SliceOfJoin(a: seq<Byte>, b: seq<Byte>, lo: nat, hi: nat)
    requires |a| <= lo <= hi <= |a| + |b|
    ensures (a + b)[lo..hi] == b[lo - |a|..hi - |a|]
  {
  }
}
