/** Which byte strings the decoders accept, and as what: exactly the encodings of valid messages,
    with varints of any permitted length. The relations below say what an encoding is without
    reference to the decoders. */
module WireSoundness {
  import opened SampleCodec
  import opened Wire

  // ----- Encodings

  /** The value of base-128 groups, the least significant first. */
  ghost function Groups(bytes: seq<Byte>): (v: nat) {
    if bytes == [] then 0 else bytes[0] % 128 + 128 * Groups(bytes[1..])
  }

  /** The top bit is set on all bytes but the last; at full width the last byte is limited. */
  ghost predicate IsVarint(bytes: seq<Byte>, v: nat, width: nat, lastMax: nat) {
    && 0 < |bytes| <= width && v == Groups(bytes)
    && (forall i :: 0 <= i < |bytes| - 1 ==> bytes[i] >= 128)
    && bytes[|bytes| - 1] < 128 && (|bytes| == width ==> bytes[|bytes| - 1] <= lastMax)
  }

  ghost predicate IsFixed(bytes: seq<Byte>, v: nat, size: nat) {
    |bytes| == size && v == FromBytes(bytes)
  }

  ghost predicate IsHeader(bytes: seq<Byte>, h: Header) {
    && |bytes| == 16 && IsFixed(bytes[..4], h.streamIdx, 4)
    && IsFixed(bytes[4..12], h.byteIdx, 8) && IsFixed(bytes[12..], h.nBytes, 4)
  }

  /** The bytes of a format, cut at `i` and `j` into its three varints. */
  ghost predicate FormatCut(bytes: seq<Byte>, f: Format, i: nat, j: nat) {
    && 8 <= i <= j <= |bytes| && IsFixed(bytes[..8], f.sampleRate, 8)
    && IsVarint(bytes[8..i], f.channelCount, 5, 15) && IsVarint(bytes[i..j], f.bufferSize, 5, 15)
    && IsVarint(bytes[j..], TypeTag(f.sampleType), 5, 15)
  }

  ghost predicate IsFormat(bytes: seq<Byte>, f: Format) {
    exists i: nat, j: nat :: FormatCut(bytes, f, i, j)
  }

  /** Formats one after the other. */
  ghost predicate IsAll(bytes: seq<Byte>, fs: seq<Format>)
    decreases |fs|
  {
    if fs == [] then bytes == [] else exists k: nat :: k <= |bytes| && AllCut(bytes, fs, k)
  }

  ghost predicate AllCut(bytes: seq<Byte>, fs: seq<Format>, k: nat)
    requires fs != [] && k <= |bytes|
    decreases |fs|, 0
  {
    IsFormat(bytes[..k], fs[0]) && IsAll(bytes[k..], fs[1..])
  }

  ghost predicate ListCut(bytes: seq<Byte>, fs: seq<Format>, k: nat) {
    k <= |bytes| && IsVarint(bytes[..k], |fs|, 10, 1) && IsAll(bytes[k..], fs)
  }

  ghost predicate IsList(bytes: seq<Byte>, fs: seq<Format>) {
    exists k: nat :: ListCut(bytes, fs, k)
  }

  ghost predicate FormatsCut(bytes: seq<Byte>, f: StreamFormats, k: nat) {
    k <= |bytes| && IsList(bytes[..k], f.inputs) && IsList(bytes[k..], f.outputs)
  }

  ghost predicate IsFormats(bytes: seq<Byte>, f: StreamFormats) {
    exists k: nat :: FormatsCut(bytes, f, k)
  }

  /** A tag, and what the variant carries. */
  ghost predicate ClientCut(bytes: seq<Byte>, m: ClientMsg, k: nat) {
    var f := FlattenClient(m);
    && k <= |bytes| && IsVarint(bytes[..k], ClientTag(f), 5, 15)
    && (match f case FlatClientAudio(h) => IsHeader(bytes[k..], h)
                case _ => bytes[k..] == [])
  }

  ghost predicate IsClient(bytes: seq<Byte>, m: ClientMsg) {
    exists k: nat :: ClientCut(bytes, m, k)
  }

  ghost predicate ServerCut(bytes: seq<Byte>, m: ServerMsg, k: nat) {
    var f := FlattenServer(m);
    && k <= |bytes| && IsVarint(bytes[..k], ServerTag(f), 5, 15)
    && (match f case FlatConnect(formats) => IsFormats(bytes[k..], formats)
                case FlatServerAudio(h) => IsHeader(bytes[k..], h)
                case _ => bytes[k..] == [])
  }

  ghost predicate IsServer(bytes: seq<Byte>, m: ServerMsg) {
    exists k: nat :: ServerCut(bytes, m, k)
  }

  // ----- Varints

  lemma VarintOne(b: Byte, width: nat, lastMax: nat)
    requires b < 128 && width > 0 && (width == 1 ==> b <= lastMax)
    ensures IsVarint([b], b, width, lastMax)
  {
    assert [b][1..] == [];
    assert Groups([]) == 0;
  }

  lemma VarintCons(b: Byte, bytes: seq<Byte>, v: nat, width: nat, lastMax: nat)
    requires b >= 128 && IsVarint(bytes, v, width, lastMax)
    ensures IsVarint([b] + bytes, b - 128 + 128 * v, width + 1, lastMax)
  {
    assert ([b] + bytes)[1..] == bytes;
    assert b % 128 == b - 128;
  }

  /** A varint is one byte, or a byte with the top bit and a shorter varint. */
  lemma VarintParts(bytes: seq<Byte>, v: nat, width: nat, lastMax: nat) returns (b: Byte, tail: seq<Byte>, w: nat)
    requires IsVarint(bytes, v, width, lastMax)
    ensures b == bytes[0] && tail == bytes[1..] && bytes == [b] + tail && width > 0
    ensures tail == [] ==> b < 128 && v == b && (width == 1 ==> b <= lastMax)
    ensures tail != [] ==> b >= 128 && v == b - 128 + 128 * w && IsVarint(tail, w, width - 1, lastMax)
  {
    b, tail := bytes[0], bytes[1..];
    w := Groups(tail);
    assert bytes == [b] + tail;
    if tail == [] {
      assert b < 128 && w == 0;
      assert b % 128 == b;
    } else {
      assert b >= 128 && b % 128 == b - 128;
      assert forall i :: 0 <= i < |tail| - 1 ==> tail[i] == bytes[i + 1];
      assert tail[|tail| - 1] == bytes[|bytes| - 1];
    }
  }

  lemma {:induction false} VarintSound(bytes: seq<Byte>, width: nat, lastMax: nat)
    requires TakeVarint(bytes, width, lastMax).Parsed?
    ensures var p := TakeVarint(bytes, width, lastMax);
            var n := |bytes| - |p.rest|;
            && 0 < n <= |bytes| && p.rest == bytes[n..] && IsVarint(bytes[..n], p.value, width, lastMax)
  {
    hide IsVarint;
    var b, tail := bytes[0], bytes[1..];
    if b >= 128 {
      VarintSound(tail, width - 1, lastMax);
      var p := TakeVarint(tail, width - 1, lastMax);
      var n := |tail| - |p.rest|;
      assert bytes[..n + 1] == [b] + tail[..n];
      VarintCons(b, tail[..n], p.value, width - 1, lastMax);
    } else {
      assert bytes[..1] == [b];
      VarintOne(b, width, lastMax);
    }
  }

  lemma {:induction false} VarintComplete(bytes: seq<Byte>, v: nat, width: nat, lastMax: nat, rest: seq<Byte>)
    requires IsVarint(bytes, v, width, lastMax)
    ensures TakeVarint(bytes + rest, width, lastMax) == Parsed(v, rest)
    decreases |bytes|
  {
    hide IsVarint;
    var b, tail, w := VarintParts(bytes, v, width, lastMax);
    assert (bytes + rest)[0] == b && (bytes + rest)[1..] == tail + rest;
    if tail == [] {
      assert tail + rest == rest;
    } else {
      VarintComplete(tail, w, width - 1, lastMax, rest);
    }
  }

  lemma {:induction false} VarintInRange(bytes: seq<Byte>, v: nat, width: nat, lastMax: nat)
    requires IsVarint(bytes, v, width, lastMax) && lastMax < 128
    ensures v < Cap(width, lastMax)
    decreases |bytes|
  {
    hide IsVarint;
    var b, tail, w := VarintParts(bytes, v, width, lastMax);
    if tail != [] {
      VarintInRange(tail, w, width - 1, lastMax);
    } else if width > 1 {
      CapPositive(width - 1, lastMax);
    }
  }

  lemma {:induction false} CapPositive(width: nat, lastMax: nat)
    requires width > 0
    ensures Cap(width, lastMax) > 0
  {
    if width > 1 {
      CapPositive(width - 1, lastMax);
    }
  }

  // ----- Cutting and joining

  /** `rest` is what follows the first `n` bytes. */
  ghost predicate After(bytes: seq<Byte>, n: nat, rest: seq<Byte>) {
    n <= |bytes| && rest == bytes[n..]
  }

  lemma AfterBoth(bytes: seq<Byte>, n: nat, mid: seq<Byte>, m: nat, rest: seq<Byte>)
    requires After(bytes, n, mid) && After(mid, m, rest)
    ensures After(bytes, n + m, rest)
    ensures bytes[..n + m][..n] == bytes[..n] && bytes[..n + m][n..] == mid[..m]
  {
  }

  lemma FixedSound(bytes: seq<Byte>, size: nat)
    requires TakeFixed(bytes, size).Parsed?
    ensures var p := TakeFixed(bytes, size);
            After(bytes, size, p.rest) && IsFixed(bytes[..size], p.value, size) && p.value < Pow256(size)
  {
  }

  lemma FixedComplete(bytes: seq<Byte>, v: nat, size: nat, rest: seq<Byte>)
    requires IsFixed(bytes, v, size)
    ensures TakeFixed(bytes + rest, size) == Parsed(v, rest)
  {
    assert (bytes + rest)[..size] == bytes && (bytes + rest)[size..] == rest;
  }

  // ----- Headers

  lemma HeaderSound(bytes: seq<Byte>)
    requires TakeHeader(bytes).Parsed?
    ensures var p := TakeHeader(bytes);
            After(bytes, 16, p.rest) && IsHeader(bytes[..16], p.value) && ValidHeader(p.value)
  {
    hide TakeFixed, IsFixed, Pow256;
    var a := TakeFixed(bytes, 4);
    FixedSound(bytes, 4);
    var b := TakeFixed(a.rest, 8);
    FixedSound(a.rest, 8);
    var c := TakeFixed(b.rest, 4);
    FixedSound(b.rest, 4);
    var front := bytes[..16];
    assert front[..4] == bytes[..4] && front[4..12] == a.rest[..8] && front[12..] == b.rest[..4];
    assert c.rest == bytes[16..];
  }

  lemma HeaderComplete(bytes: seq<Byte>, h: Header, rest: seq<Byte>)
    requires IsHeader(bytes, h)
    ensures TakeHeader(bytes + rest) == Parsed(h, rest)
  {
    hide TakeFixed, IsFixed;
    var a, b, c := bytes[..4], bytes[4..12], bytes[12..];
    assert bytes + rest == a + (b + (c + rest));
    FixedComplete(a, h.streamIdx, 4, b + (c + rest));
    FixedComplete(b, h.byteIdx, 8, c + rest);
    FixedComplete(c, h.nBytes, 4, rest);
  }

  // ----- Formats

  lemma U32Sound(bytes: seq<Byte>)
    requires TakeU32(bytes).Parsed?
    ensures var p := TakeU32(bytes);
            var n := |bytes| - |p.rest|;
            && 0 <= n && After(bytes, n, p.rest) && IsVarint(bytes[..n], p.value, 5, 15) && p.value < MAX32
  {
    VarintSound(bytes, 5, 15);
    var p := TakeU32(bytes);
    VarintInRange(bytes[..|bytes| - |p.rest|], p.value, 5, 15);
    CapsAreWidths();
  }

  lemma U32Complete(bytes: seq<Byte>, v: nat, rest: seq<Byte>)
    requires IsVarint(bytes, v, 5, 15)
    ensures TakeU32(bytes + rest) == Parsed(v, rest)
  {
    VarintComplete(bytes, v, 5, 15, rest);
  }

  /** The parts a format was read from. */
  lemma FormatParts(bytes: seq<Byte>) returns (a: Parsed<nat>, b: Parsed<nat>, c: Parsed<nat>, d: Parsed<nat>)
    requires TakeFormat(bytes).Parsed?
    ensures a == TakeFixed(bytes, 8) && a.Parsed? && ValidRate(a.value)
    ensures b == TakeU32(a.rest) && b.Parsed? && b.value > 0 && c == TakeU32(b.rest) && c.Parsed?
    ensures d == TakeU32(c.rest) && d.Parsed?
    ensures var p := TakeFormat(bytes);
            && p.rest == d.rest && p.value.sampleRate == a.value && p.value.channelCount == b.value
            && p.value.bufferSize == c.value && TypeTag(p.value.sampleType) == d.value
  {
    hide TakeFixed, TakeU32, TypeTag;
    a := TakeFixed(bytes, 8);
    b := TakeU32(a.rest);
    c := TakeU32(b.rest);
    d := TakeU32(c.rest);
    TagOf(d.value);
  }

  lemma TagOf(n: nat)
    requires n < |SAMPLE_TYPES|
    ensures TypeTag(SAMPLE_TYPES[n]) == n
  {
  }

  /** Four pieces, one after the other. */
  lemma Pieces(bytes: seq<Byte>, r1: seq<Byte>, r2: seq<Byte>, r3: seq<Byte>, r4: seq<Byte>, i: nat, j: nat, n: nat)
    requires After(bytes, 8, r1) && 8 <= i <= j <= n
    requires After(r1, i - 8, r2) && After(r2, j - i, r3) && After(r3, n - j, r4)
    ensures After(bytes, n, r4)
    ensures var front := bytes[..n];
            && front[..8] == bytes[..8] && front[8..i] == r1[..i - 8]
            && front[i..j] == r2[..j - i] && front[j..] == r3[..n - j]
  {
  }

  lemma FormatSound(bytes: seq<Byte>)
    requires TakeFormat(bytes).Parsed?
    ensures var p := TakeFormat(bytes);
            var n := |bytes| - |p.rest|;
            0 <= n && After(bytes, n, p.rest) && IsFormat(bytes[..n], p.value) && ValidFormat(p.value)
  {
    hide TakeFixed, TakeU32, IsFixed, IsVarint, TypeTag, TakeFormat, After;
    var a, b, c, d := FormatParts(bytes);
    FixedSound(bytes, 8);
    U32Sound(a.rest);
    U32Sound(b.rest);
    U32Sound(c.rest);
    var i := 8 + (|a.rest| - |b.rest|);
    var j := i + (|b.rest| - |c.rest|);
    var n := j + (|c.rest| - |d.rest|);
    Pieces(bytes, a.rest, b.rest, c.rest, d.rest, i, j, n);
    AfterLength(bytes, n, d.rest);
    assert FormatCut(bytes[..n], TakeFormat(bytes).value, i, j);
  }

  lemma AfterLength(bytes: seq<Byte>, n: nat, rest: seq<Byte>)
    requires After(bytes, n, rest)
    ensures n <= |bytes| && n == |bytes| - |rest|
  {
  }

  lemma FormatComplete(bytes: seq<Byte>, f: Format, rest: seq<Byte>)
    requires IsFormat(bytes, f) && ValidFormat(f)
    ensures TakeFormat(bytes + rest) == Parsed(f, rest)
  {
    var i: nat, j: nat :| FormatCut(bytes, f, i, j);
    hide IsFixed, IsVarint, TakeFormat;
    Rejoin(bytes, rest, i, j);
    FormatFrom(bytes[..8], bytes[8..i], bytes[i..j], bytes[j..], f, rest);
  }

  lemma Rejoin(bytes: seq<Byte>, rest: seq<Byte>, i: nat, j: nat)
    requires 8 <= i <= j <= |bytes|
    ensures bytes + rest == bytes[..8] + (bytes[8..i] + (bytes[i..j] + (bytes[j..] + rest)))
  {
  }

  lemma FormatFrom(a: seq<Byte>, b: seq<Byte>, c: seq<Byte>, d: seq<Byte>, f: Format, rest: seq<Byte>)
    requires IsFixed(a, f.sampleRate, 8) && ValidFormat(f)
    requires IsVarint(b, f.channelCount, 5, 15) && IsVarint(c, f.bufferSize, 5, 15)
    requires IsVarint(d, TypeTag(f.sampleType), 5, 15)
    ensures TakeFormat(a + (b + (c + (d + rest)))) == Parsed(f, rest)
  {
    hide TakeFixed, TakeU32, IsFixed, IsVarint, SAMPLE_TYPES;
    FixedComplete(a, f.sampleRate, 8, b + (c + (d + rest)));
    U32Complete(b, f.channelCount, c + (d + rest));
    U32Complete(c, f.bufferSize, d + rest);
    U32Complete(d, TypeTag(f.sampleType), rest);
  }

  // ----- Lists of formats

  ghost predicate AllValid(fs: seq<Format>) {
    forall i :: 0 <= i < |fs| ==> ValidFormat(fs[i])
  }

  /** A result of reading formats: where it stopped, and what it read up to there. */
  ghost predicate ReadsAll(bytes: seq<Byte>, p: Parsed<seq<Format>>, count: nat, n: nat) {
    p.Parsed? && After(bytes, n, p.rest) && IsAll(bytes[..n], p.value) && |p.value| == count && AllValid(p.value)
  }

  lemma {:induction false} AllSound(bytes: seq<Byte>, count: nat) returns (n: nat)
    requires TakeAll(bytes, count).Parsed?
    ensures ReadsAll(bytes, TakeAll(bytes, count), count, n)
    decreases count
  {
    hide ReadsAll, TakeAll;
    if count == 0 {
      n := 0;
      ReadsNone(bytes);
    } else {
      var a, b := AllParts(bytes, count);
      var m := AllSound(a.rest, count - 1);
      n := ReadsOneMore(bytes, a, b, count, m);
    }
  }

  lemma ReadsNone(bytes: seq<Byte>)
    ensures ReadsAll(bytes, TakeAll(bytes, 0), 0, 0)
  {
    assert bytes[..0] == [];
  }

  lemma ReadsOneMore(bytes: seq<Byte>, a: Parsed<Format>, b: Parsed<seq<Format>>, count: nat, m: nat) returns (n: nat)
    requires count > 0 && a == TakeFormat(bytes) && a.Parsed? && ReadsAll(a.rest, b, count - 1, m)
    ensures ReadsAll(bytes, Parsed([a.value] + b.value, b.rest), count, n)
  {
    hide TakeFormat, IsFormat, ValidFormat, IsAll, AllValid;
    FormatSound(bytes);
    var k := |bytes| - |a.rest|;
    n := k + m;
    AfterBoth(bytes, k, a.rest, m, b.rest);
    AllCons(bytes[..n], a.value, b.value, k);
  }

  lemma AllParts(bytes: seq<Byte>, count: nat) returns (a: Parsed<Format>, b: Parsed<seq<Format>>)
    requires count > 0 && TakeAll(bytes, count).Parsed?
    ensures a == TakeFormat(bytes) && a.Parsed? && b == TakeAll(a.rest, count - 1) && b.Parsed?
    ensures TakeAll(bytes, count) == Parsed([a.value] + b.value, b.rest)
  {
    hide TakeFormat;
    a := TakeFormat(bytes);
    b := TakeAll(a.rest, count - 1);
  }

  lemma AllCons(bytes: seq<Byte>, f: Format, fs: seq<Format>, k: nat)
    requires k <= |bytes| && IsFormat(bytes[..k], f) && IsAll(bytes[k..], fs)
    ensures IsAll(bytes, [f] + fs)
    ensures ValidFormat(f) && AllValid(fs) ==> AllValid([f] + fs)
  {
    hide IsFormat, ValidFormat;
    assert ([f] + fs)[1..] == fs;
    assert AllCut(bytes, [f] + fs, k);
  }

  lemma {:induction false} AllComplete(bytes: seq<Byte>, fs: seq<Format>, rest: seq<Byte>)
    requires IsAll(bytes, fs) && AllValid(fs)
    ensures TakeAll(bytes + rest, |fs|) == Parsed(fs, rest)
    decreases |fs|
  {
    hide TakeFormat, IsFormat, ValidFormat;
    if fs == [] {
      assert bytes + rest == rest;
    } else {
      var k: nat :| k <= |bytes| && AllCut(bytes, fs, k);
      assert bytes + rest == bytes[..k] + (bytes[k..] + rest);
      FormatComplete(bytes[..k], fs[0], bytes[k..] + rest);
      AllComplete(bytes[k..], fs[1..], rest);
      assert fs == [fs[0]] + fs[1..];
    }
  }

  lemma ListSound(bytes: seq<Byte>)
    requires TakeList(bytes).Parsed?
    ensures var p := TakeList(bytes);
            var n := |bytes| - |p.rest|;
            0 <= n && After(bytes, n, p.rest) && IsList(bytes[..n], p.value) && ValidList(p.value)
  {
    hide IsVarint, IsAll, TakeAll, TakeVarint, ValidFormat;
    var a := TakeUsize(bytes);
    var b := TakeAll(a.rest, a.value);
    UsizeSound(bytes);
    var k := |bytes| - |a.rest|;
    var m := AllSound(a.rest, a.value);
    AfterBoth(bytes, k, a.rest, m, b.rest);
    assert ListCut(bytes[..k + m], b.value, k);
  }

  lemma UsizeSound(bytes: seq<Byte>)
    requires TakeUsize(bytes).Parsed?
    ensures var p := TakeUsize(bytes);
            var n := |bytes| - |p.rest|;
            && 0 <= n && After(bytes, n, p.rest) && IsVarint(bytes[..n], p.value, 10, 1) && p.value < MAX64
  {
    VarintSound(bytes, 10, 1);
    var p := TakeUsize(bytes);
    VarintInRange(bytes[..|bytes| - |p.rest|], p.value, 10, 1);
    CapsAreWidths();
  }

  lemma ListComplete(bytes: seq<Byte>, fs: seq<Format>, rest: seq<Byte>)
    requires IsList(bytes, fs) && ValidList(fs)
    ensures TakeList(bytes + rest) == Parsed(fs, rest)
  {
    hide IsVarint, IsAll, TakeAll, TakeVarint, ValidFormat;
    var k: nat :| ListCut(bytes, fs, k);
    assert bytes + rest == bytes[..k] + (bytes[k..] + rest);
    VarintComplete(bytes[..k], |fs|, 10, 1, bytes[k..] + rest);
    AllComplete(bytes[k..], fs, rest);
  }

  lemma FormatsSound(bytes: seq<Byte>)
    requires TakeFormats(bytes).Parsed?
    ensures var p := TakeFormats(bytes);
            var n := |bytes| - |p.rest|;
            0 <= n && After(bytes, n, p.rest) && IsFormats(bytes[..n], p.value) && ValidFormats(p.value)
  {
    hide IsList, TakeList, ValidList;
    var a := TakeList(bytes);
    var b := TakeList(a.rest);
    ListSound(bytes);
    ListSound(a.rest);
    var k, m := |bytes| - |a.rest|, |a.rest| - |b.rest|;
    AfterBoth(bytes, k, a.rest, m, b.rest);
    assert FormatsCut(bytes[..k + m], StreamFormats(a.value, b.value), k);
  }

  lemma FormatsComplete(bytes: seq<Byte>, f: StreamFormats, rest: seq<Byte>)
    requires IsFormats(bytes, f) && ValidFormats(f)
    ensures TakeFormats(bytes + rest) == Parsed(f, rest)
  {
    hide IsList, TakeList, ValidList;
    var k: nat :| FormatsCut(bytes, f, k);
    assert bytes + rest == bytes[..k] + (bytes[k..] + rest);
    ListComplete(bytes[..k], f.inputs, bytes[k..] + rest);
    ListComplete(bytes[k..], f.outputs, rest);
  }

  // ----- Messages

  lemma ServerSound(bytes: seq<Byte>)
    requires DecodeServer(bytes).Parsed?
    ensures var p := DecodeServer(bytes);
            var n := |bytes| - |p.rest|;
            0 <= n && After(bytes, n, p.rest) && IsServer(bytes[..n], p.value) && ValidServer(p.value)
  {
    hide TakeU32, TakeFormats, TakeHeader, IsVarint, IsFormats, IsHeader, ValidFormats, ValidHeader;
    var a, p := TakeU32(bytes), DecodeServer(bytes);
    U32Sound(bytes);
    var k, m := |bytes| - |a.rest|, |a.rest| - |p.rest|;
    if a.value == 0 {
      FormatsSound(a.rest);
    } else if a.value == 7 {
      HeaderSound(a.rest);
    } else {
      assert After(a.rest, 0, p.rest) && a.rest[..0] == [];
    }
    AfterBoth(bytes, k, a.rest, m, p.rest);
    assert ServerCut(bytes[..k + m], p.value, k);
  }

  lemma ServerComplete(bytes: seq<Byte>, m: ServerMsg, rest: seq<Byte>)
    requires IsServer(bytes, m) && ValidServer(m)
    ensures DecodeServer(bytes + rest) == Parsed(m, rest)
  {
    hide TakeU32, TakeFormats, TakeHeader, IsVarint, IsFormats, IsHeader, ValidFormats, ValidHeader;
    var k: nat :| ServerCut(bytes, m, k);
    var f := FlattenServer(m);
    assert bytes + rest == bytes[..k] + (bytes[k..] + rest);
    U32Complete(bytes[..k], ServerTag(f), bytes[k..] + rest);
    match f
    case FlatConnect(formats) => FormatsComplete(bytes[k..], formats, rest);
    case FlatServerAudio(h) => HeaderComplete(bytes[k..], h, rest);
    case _ => assert bytes[k..] + rest == rest;
  }

  lemma ClientSound(bytes: seq<Byte>)
    requires DecodeClient(bytes).Parsed?
    ensures var p := DecodeClient(bytes);
            var n := |bytes| - |p.rest|;
            0 <= n && After(bytes, n, p.rest) && IsClient(bytes[..n], p.value) && ValidClient(p.value)
  {
    hide TakeU32, TakeHeader, IsVarint, IsHeader, ValidHeader;
    var a, p := TakeU32(bytes), DecodeClient(bytes);
    U32Sound(bytes);
    var k, m := |bytes| - |a.rest|, |a.rest| - |p.rest|;
    if a.value == 6 {
      HeaderSound(a.rest);
    } else {
      assert After(a.rest, 0, p.rest) && a.rest[..0] == [];
    }
    AfterBoth(bytes, k, a.rest, m, p.rest);
    assert ClientCut(bytes[..k + m], p.value, k);
  }

  lemma ClientComplete(bytes: seq<Byte>, m: ClientMsg, rest: seq<Byte>)
    requires IsClient(bytes, m) && ValidClient(m)
    ensures DecodeClient(bytes + rest) == Parsed(m, rest)
  {
    hide TakeU32, TakeHeader, IsVarint, IsHeader, ValidHeader;
    var k: nat :| ClientCut(bytes, m, k);
    var f := FlattenClient(m);
    ClientFlattening(m, f);
    assert bytes + rest == bytes[..k] + (bytes[k..] + rest);
    U32Complete(bytes[..k], ClientTag(f), bytes[k..] + rest);
    match f
    case FlatClientAudio(h) => HeaderComplete(bytes[k..], h, rest);
    case _ => assert bytes[k..] + rest == rest;
  }

  /** The decoder, exactly: a datagram is read as message `m` followed by the bytes from `n` on if
      and only if `m` is valid and its first `n` bytes are an encoding of `m`. So it is rejected
      if and only if no front of it is an encoding of any valid message. */
  lemma ServerExact(bytes: seq<Byte>, m: ServerMsg, n: nat)
    requires n <= |bytes|
    ensures DecodeServer(bytes) == Parsed(m, bytes[n..]) <==> ValidServer(m) && IsServer(bytes[..n], m)
    ensures DecodeServer(bytes).Fails? ==> !(ValidServer(m) && IsServer(bytes[..n], m))
    ensures DecodeServer(bytes).Parsed? ==>
              var k := |bytes| - |DecodeServer(bytes).rest|; 0 <= k && DecodeServer(bytes).rest == bytes[k..]
  {
    hide DecodeServer, IsServer, ValidServer;
    if DecodeServer(bytes).Parsed? {
      ServerSound(bytes);
    }
    if ValidServer(m) && IsServer(bytes[..n], m) {
      ServerComplete(bytes[..n], m, bytes[n..]);
      assert bytes[..n] + bytes[n..] == bytes;
    }
  }

  lemma ClientExact(bytes: seq<Byte>, m: ClientMsg, n: nat)
    requires n <= |bytes|
    ensures DecodeClient(bytes) == Parsed(m, bytes[n..]) <==> ValidClient(m) && IsClient(bytes[..n], m)
    ensures DecodeClient(bytes).Fails? ==> !(ValidClient(m) && IsClient(bytes[..n], m))
    ensures DecodeClient(bytes).Parsed? ==>
              var k := |bytes| - |DecodeClient(bytes).rest|; 0 <= k && DecodeClient(bytes).rest == bytes[k..]
  {
    hide DecodeClient, IsClient, ValidClient;
    if DecodeClient(bytes).Parsed? {
      ClientSound(bytes);
    }
    if ValidClient(m) && IsClient(bytes[..n], m) {
      ClientComplete(bytes[..n], m, bytes[n..]);
      assert bytes[..n] + bytes[n..] == bytes;
    }
  }

  /** A datagram that starts with an unknown tag is rejected, whatever follows. */
  lemma UnknownTag(tag: seq<Byte>, v: nat, rest: seq<Byte>)
    requires IsVarint(tag, v, 5, 15)
    ensures v >= 9 ==> DecodeClient(tag + rest) == Fails
    ensures v >= 10 ==> DecodeServer(tag + rest) == Fails
  {
    U32Complete(tag, v, rest);
    hide TakeU32, IsVarint;
  }

  /** The messages without contents on the wire: one byte, the variant's place in its declaration. */
  lemma ClientDatagrams()
    ensures EncodeClient(Discovery) == [0]
    ensures EncodeClient(ConnectionResult(Ok)) == [1]
    ensures EncodeClient(ConnectionResult(Err(Failure))) == [2]
    ensures EncodeClient(ConnectionResult(Err(Refusal))) == [3]
    ensures EncodeClient(ClientIs(ClientControlMsg(RequestIOStateChange(Start(()))))) == [4]
    ensures EncodeClient(ClientIs(ClientControlMsg(RequestIOStateChange(Stop(()))))) == [5]
    ensures EncodeClient(ClientDisconnect) == [7]
    ensures EncodeClient(ClientIs(ClientControlMsg(ClientHeartbeat))) == [8]
  {
    hide EncodeHeader, ValidHeader;
  }

  lemma ServerDatagrams()
    ensures EncodeServer(ServerIs(ServerControlMsg(IOStateChangeResult(Start(Err(Failure)))))) == [1]
    ensures EncodeServer(ServerIs(ServerControlMsg(IOStateChangeResult(Start(Err(Refusal)))))) == [2]
    ensures EncodeServer(ServerIs(ServerControlMsg(IOStateChangeResult(Start(Ok))))) == [3]
    ensures EncodeServer(ServerIs(ServerControlMsg(IOStateChangeResult(Stop(Err(Failure)))))) == [4]
    ensures EncodeServer(ServerIs(ServerControlMsg(IOStateChangeResult(Stop(Err(Refusal)))))) == [5]
    ensures EncodeServer(ServerIs(ServerControlMsg(IOStateChangeResult(Stop(Ok))))) == [6]
    ensures EncodeServer(ServerDisconnect) == [8]
    ensures EncodeServer(ServerIs(ServerControlMsg(ServerHeartbeat))) == [9]
  {
    hide EncodeHeader, ValidHeader, EncodeFormats, ValidFormats;
  }

  // ----- The encoder writes the shortest encoding

  lemma {:induction false} VarintShortest(bytes: seq<Byte>, v: nat, width: nat, lastMax: nat)
    requires IsVarint(bytes, v, width, lastMax)
    ensures |Varint(v)| <= |bytes| && (|Varint(v)| == |bytes| ==> Varint(v) == bytes)
    decreases |bytes|
  {
    hide IsVarint;
    var b, tail, w := VarintParts(bytes, v, width, lastMax);
    if tail != [] {
      VarintShortest(tail, w, width - 1, lastMax);
      assert v % 128 == b - 128 && v / 128 == w;
    }
  }

  lemma FormatShortest(bytes: seq<Byte>, f: Format)
    requires IsFormat(bytes, f) && ValidFormat(f)
    ensures |EncodeFormat(f)| <= |bytes|
  {
    hide Varint, ToBytes;
    CapsAreWidths();
    var i: nat, j: nat :| FormatCut(bytes, f, i, j);
    VarintShortest(bytes[8..i], f.channelCount, 5, 15);
    VarintShortest(bytes[i..j], f.bufferSize, 5, 15);
    VarintShortest(bytes[j..], TypeTag(f.sampleType), 5, 15);
  }

  lemma {:induction false} AllShortest(bytes: seq<Byte>, fs: seq<Format>)
    requires IsAll(bytes, fs) && AllValid(fs)
    ensures |EncodeAll(fs)| <= |bytes|
    decreases |fs|
  {
    hide IsFormat, EncodeFormat, ValidFormat;
    if fs != [] {
      var k: nat :| k <= |bytes| && AllCut(bytes, fs, k);
      FormatShortest(bytes[..k], fs[0]);
      AllShortest(bytes[k..], fs[1..]);
    }
  }

  lemma ListShortest(bytes: seq<Byte>, fs: seq<Format>)
    requires IsList(bytes, fs) && ValidList(fs)
    ensures |EncodeList(fs)| <= |bytes|
  {
    hide IsVarint, IsAll, EncodeAll, Varint, ValidFormat;
    var k: nat :| ListCut(bytes, fs, k);
    VarintShortest(bytes[..k], |fs|, 10, 1);
    AllShortest(bytes[k..], fs);
  }

  lemma FormatsShortest(bytes: seq<Byte>, f: StreamFormats)
    requires IsFormats(bytes, f) && ValidFormats(f)
    ensures |EncodeFormats(f)| <= |bytes|
  {
    hide IsList, EncodeList, ValidList;
    var k: nat :| FormatsCut(bytes, f, k);
    ListShortest(bytes[..k], f.inputs);
    ListShortest(bytes[k..], f.outputs);
  }

  lemma HeaderLength(h: Header)
    requires ValidHeader(h)
    ensures |EncodeHeader(h)| == 16
  {
    hide ToBytes, Pow256;
  }

  /** What the encoder writes is an encoding of the message, and no encoding of it is shorter. */
  lemma EncodedServer(m: ServerMsg, bytes: seq<Byte>)
    requires ValidServer(m)
    ensures IsServer(EncodeServer(m), m)
    ensures IsServer(bytes, m) ==> |EncodeServer(m)| <= |bytes|
  {
    EncodesServer(m);
    if IsServer(bytes, m) {
      hide IsVarint, IsFormats, IsHeader, EncodeFormats, EncodeHeader, ValidFormats, ValidHeader, Varint;
      var k: nat :| ServerCut(bytes, m, k);
      var f := FlattenServer(m);
      VarintShortest(bytes[..k], ServerTag(f), 5, 15);
      match f
      case FlatConnect(formats) => FormatsShortest(bytes[k..], formats);
      case FlatServerAudio(h) => HeaderLength(h); SixteenBytes(bytes[k..], h);
      case _ =>
    }
  }

  lemma SixteenBytes(bytes: seq<Byte>, h: Header)
    requires IsHeader(bytes, h)
    ensures |bytes| == 16
  {
  }

  lemma EncodesServer(m: ServerMsg)
    requires ValidServer(m)
    ensures IsServer(EncodeServer(m), m)
  {
    var bytes := EncodeServer(m);
    hide DecodeServer, IsServer, ValidServer, EncodeServer;
    ServerRoundTrip(m, []);
    assert bytes + [] == bytes && bytes[..|bytes|] == bytes && bytes[|bytes|..] == [];
    ServerExact(bytes, m, |bytes|);
  }

  lemma EncodedClient(m: ClientMsg, bytes: seq<Byte>)
    requires ValidClient(m)
    ensures IsClient(EncodeClient(m), m)
    ensures IsClient(bytes, m) ==> |EncodeClient(m)| <= |bytes|
  {
    EncodesClient(m);
    if IsClient(bytes, m) {
      hide IsVarint, IsHeader, EncodeHeader, ValidHeader, Varint;
      var k: nat :| ClientCut(bytes, m, k);
      var f := FlattenClient(m);
      VarintShortest(bytes[..k], ClientTag(f), 5, 15);
      match f
      case FlatClientAudio(h) => HeaderLength(h); SixteenBytes(bytes[k..], h);
      case _ =>
    }
  }

  lemma EncodesClient(m: ClientMsg)
    requires ValidClient(m)
    ensures IsClient(EncodeClient(m), m)
  {
    var bytes := EncodeClient(m);
    hide DecodeClient, IsClient, ValidClient, EncodeClient;
    ClientRoundTrip(m, []);
    assert bytes + [] == bytes && bytes[..|bytes|] == bytes && bytes[|bytes|..] == [];
    ClientExact(bytes, m, |bytes|);
  }
}
