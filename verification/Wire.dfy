/** The wire representation of protocol messages (syfala_network/src/lib.rs): nested messages are
    flattened into one enum, and the enum is written in the postcard wire format. There the tag
    of a variant is its position in the enum, as a varint (the explicit `repr(u32)` values of the
    source are not what serde passes on); integers are varints unless marked as fixed-width. */
module Wire {
  import opened SampleCodec

  // ----- Messages (syfala_proto/src/message.rs, syfala_proto/src/format.rs)

  datatype Error = Failure | Refusal
  datatype Res = Ok | Err(error: Error)
  datatype IOState<T> = Start(value: T) | Stop(value: T)

  datatype Header = Header(streamIdx: nat, byteIdx: nat, nBytes: nat)

  datatype ClientControl = RequestIOStateChange(state: IOState<()>) | ClientHeartbeat
  datatype ClientConnected = ClientControlMsg(control: ClientControl) | ClientAudio(header: Header)
  datatype ClientMsg =
    | Discovery
    | ConnectionResult(result: Res)
    | ClientIs(connected: ClientConnected)
    | ClientDisconnect

  datatype SampleType = U8 | U16 | U24 | U32 | U64 | I8 | I16 | I24 | I32 | I64 | IEEF32 | IEEF64
  /** The sample rate is kept as the bit pattern of its 64-bit float. */
  datatype Format = Format(sampleRate: nat, channelCount: nat, bufferSize: nat, sampleType: SampleType)
  datatype StreamFormats = StreamFormats(inputs: seq<Format>, outputs: seq<Format>)

  datatype ServerControl = IOStateChangeResult(result: IOState<Res>) | ServerHeartbeat
  datatype ServerConnected = ServerControlMsg(control: ServerControl) | ServerAudio(header: Header)
  datatype ServerMsg =
    | Connect(formats: StreamFormats)
    | ServerIs(connected: ServerConnected)
    | ServerDisconnect

  // ----- Flat messages, in the order of their declaration

  datatype ClientFlat =
    | FlatDiscovery | FlatConnectionSuccess | FlatConnectionFailed | FlatConnectionRefused
    | FlatStartIO | FlatStopIO | FlatClientAudio(header: Header) | FlatClientDisconnect | FlatClientHeartbeat

  datatype ServerFlat =
    | FlatConnect(formats: StreamFormats)
    | FlatStartIOFailed | FlatStartIORefused | FlatStartIOSuccess
    | FlatStopIOFailed | FlatStopIORefused | FlatStopIOSuccess
    | FlatServerAudio(header: Header) | FlatServerDisconnect | FlatServerHeartbeat

  function FlattenClient(m: ClientMsg): (f: ClientFlat) {
    match m
    case Discovery => FlatDiscovery
    case ClientIs(ClientControlMsg(RequestIOStateChange(Start(_)))) => FlatStartIO
    case ClientIs(ClientControlMsg(RequestIOStateChange(Stop(_)))) => FlatStopIO
    case ClientIs(ClientControlMsg(ClientHeartbeat)) => FlatClientHeartbeat
    case ClientIs(ClientAudio(h)) => FlatClientAudio(h)
    case ConnectionResult(Ok) => FlatConnectionSuccess
    case ConnectionResult(Err(Failure)) => FlatConnectionFailed
    case ConnectionResult(Err(Refusal)) => FlatConnectionRefused
    case ClientDisconnect => FlatClientDisconnect
  }

  function NestClient(f: ClientFlat): (m: ClientMsg) {
    match f
    case FlatDiscovery => Discovery
    case FlatStartIO => ClientIs(ClientControlMsg(RequestIOStateChange(Start(()))))
    case FlatStopIO => ClientIs(ClientControlMsg(RequestIOStateChange(Stop(()))))
    case FlatClientAudio(h) => ClientIs(ClientAudio(h))
    case FlatConnectionSuccess => ConnectionResult(Ok)
    case FlatConnectionFailed => ConnectionResult(Err(Failure))
    case FlatConnectionRefused => ConnectionResult(Err(Refusal))
    case FlatClientDisconnect => ClientDisconnect
    case FlatClientHeartbeat => ClientIs(ClientControlMsg(ClientHeartbeat))
  }

  function FlattenServer(m: ServerMsg): (f: ServerFlat) {
    match m
    case Connect(formats) => FlatConnect(formats)
    case ServerIs(ServerControlMsg(IOStateChangeResult(Start(Ok)))) => FlatStartIOSuccess
    case ServerIs(ServerControlMsg(IOStateChangeResult(Start(Err(Failure))))) => FlatStartIOFailed
    case ServerIs(ServerControlMsg(IOStateChangeResult(Start(Err(Refusal))))) => FlatStartIORefused
    case ServerIs(ServerControlMsg(IOStateChangeResult(Stop(Ok)))) => FlatStopIOSuccess
    case ServerIs(ServerControlMsg(IOStateChangeResult(Stop(Err(Failure))))) => FlatStopIOFailed
    case ServerIs(ServerControlMsg(IOStateChangeResult(Stop(Err(Refusal))))) => FlatStopIORefused
    case ServerIs(ServerControlMsg(ServerHeartbeat)) => FlatServerHeartbeat
    case ServerIs(ServerAudio(h)) => FlatServerAudio(h)
    case ServerDisconnect => FlatServerDisconnect
  }

  function NestServer(f: ServerFlat): (m: ServerMsg) {
    match f
    case FlatConnect(formats) => Connect(formats)
    case FlatStartIOFailed => ServerIs(ServerControlMsg(IOStateChangeResult(Start(Err(Failure)))))
    case FlatStartIORefused => ServerIs(ServerControlMsg(IOStateChangeResult(Start(Err(Refusal)))))
    case FlatStartIOSuccess => ServerIs(ServerControlMsg(IOStateChangeResult(Start(Ok))))
    case FlatStopIOFailed => ServerIs(ServerControlMsg(IOStateChangeResult(Stop(Err(Failure)))))
    case FlatStopIORefused => ServerIs(ServerControlMsg(IOStateChangeResult(Stop(Err(Refusal)))))
    case FlatStopIOSuccess => ServerIs(ServerControlMsg(IOStateChangeResult(Stop(Ok))))
    case FlatServerAudio(h) => ServerIs(ServerAudio(h))
    case FlatServerDisconnect => ServerDisconnect
    case FlatServerHeartbeat => ServerIs(ServerControlMsg(ServerHeartbeat))
  }

  /** Flattening loses nothing, and every flat message is the image of a nested one. */
  lemma ClientFlattening(m: ClientMsg, f: ClientFlat)
    ensures NestClient(FlattenClient(m)) == m && FlattenClient(NestClient(f)) == f
  {
    if m.ClientIs? && m.connected.ClientControlMsg? && m.connected.control.RequestIOStateChange? {
      var unit := m.connected.control.state.value;
      assert unit == ();
    }
  }

  lemma ServerFlattening(m: ServerMsg, f: ServerFlat)
    ensures NestServer(FlattenServer(m)) == m && FlattenServer(NestServer(f)) == f
  {
  }

  // ----- Postcard primitives

  /** What a decoder makes of the front of a datagram. Which error a rejected one yields is not
      modelled: the receiver only learns that there is no message. */
  datatype Parsed<T> = Parsed(value: T, rest: seq<Byte>) | Fails {
    predicate IsFailure() {
      Fails?
    }
    function PropagateFailure<U>(): Parsed<U>
      requires Fails?
    {
      Parsed<U>.Fails
    }
    function Extract(): (T, seq<Byte>)
      requires Parsed?
    {
      (value, rest)
    }
  }

  function Varint(v: nat): (bytes: seq<Byte>) {
    if v < 128 then [v] else [128 + v % 128] + Varint(v / 128)
  }

  /** At most `left` bytes; the last one of the full width may not exceed `lastMax`. */
  function TakeVarint(bytes: seq<Byte>, left: nat, lastMax: nat): (p: Parsed<nat>) {
    if left == 0 then Fails
    else if bytes == [] then Fails
    else if bytes[0] < 128 then
      if left == 1 && bytes[0] > lastMax then Fails else Parsed(bytes[0], bytes[1..])
    else
      match TakeVarint(bytes[1..], left - 1, lastMax)
      case Parsed(v, rest) => Parsed(bytes[0] - 128 + 128 * v, rest)
      case Fails => Fails
  }

  /** The values a varint of that width can hold. */
  function Cap(left: nat, lastMax: nat): (n: nat) {
    if left == 0 then 0 else if left == 1 then lastMax + 1 else 128 * Cap(left - 1, lastMax)
  }

  lemma {:induction false} VarintRoundTrip(v: nat, left: nat, lastMax: nat, rest: seq<Byte>)
    requires lastMax < 128 && v < Cap(left, lastMax)
    ensures TakeVarint(Varint(v) + rest, left, lastMax) == Parsed(v, rest)
  {
    if v >= 128 {
      VarintRoundTrip(v / 128, left - 1, lastMax, rest);
      assert (Varint(v) + rest)[1..] == Varint(v / 128) + rest;
    } else {
      assert ([v] + rest)[1..] == rest;
    }
  }

  const MAX32: nat := 0x1_0000_0000
  const MAX64: nat := 0x1_0000_0000_0000_0000

  function TakeU32(bytes: seq<Byte>): (p: Parsed<nat>) {
    TakeVarint(bytes, 5, 15)
  }

  function TakeUsize(bytes: seq<Byte>): (p: Parsed<nat>) {
    TakeVarint(bytes, 10, 1)
  }

  lemma CapsAreWidths()
    ensures Cap(5, 15) == MAX32 && Cap(10, 1) == MAX64
    ensures Pow256(4) == MAX32 && Pow256(8) == MAX64
  {
    assert Cap(4, 15) == 128 * 128 * 128 * 16;
    assert Cap(4, 1) == 128 * 128 * 128 * 2;
    assert Cap(7, 1) == 128 * 128 * 128 * Cap(4, 1);
    assert Pow256(2) == 256 * 256;
    assert Pow256(4) == 256 * 256 * Pow256(2);
    assert Pow256(6) == 256 * 256 * Pow256(4);
  }

  function TakeFixed(bytes: seq<Byte>, size: nat): (p: Parsed<nat>) {
    if |bytes| < size then Fails else Parsed(FromBytes(bytes[..size]), bytes[size..])
  }

  lemma FixedRoundTrip(v: nat, size: nat, rest: seq<Byte>)
    requires v < Pow256(size)
    ensures TakeFixed(ToBytes(v, size) + rest, size) == Parsed(v, rest)
  {
    FromToBytes(v, size);
    assert (ToBytes(v, size) + rest)[..size] == ToBytes(v, size);
    assert (ToBytes(v, size) + rest)[size..] == rest;
  }

  // ----- Headers and formats

  ghost predicate ValidHeader(h: Header) {
    h.streamIdx < Pow256(4) && h.byteIdx < Pow256(8) && h.nBytes < Pow256(4)
  }

  ghost function EncodeHeader(h: Header): (bytes: seq<Byte>)
    requires ValidHeader(h)
  {
    ToBytes(h.streamIdx, 4) + (ToBytes(h.byteIdx, 8) + ToBytes(h.nBytes, 4))
  }

  function TakeHeader(bytes: seq<Byte>): (p: Parsed<Header>) {
    var (streamIdx, r1) :- TakeFixed(bytes, 4);
    var (byteIdx, r2) :- TakeFixed(r1, 8);
    var (nBytes, r3) :- TakeFixed(r2, 4);
    Parsed(Header(streamIdx, byteIdx, nBytes), r3)
  }

  lemma HeaderRoundTrip(h: Header, rest: seq<Byte>)
    requires ValidHeader(h)
    ensures TakeHeader(EncodeHeader(h) + rest) == Parsed(h, rest)
  {
    hide TakeFixed, ToBytes, Pow256;
    var a, b, c := ToBytes(h.streamIdx, 4), ToBytes(h.byteIdx, 8), ToBytes(h.nBytes, 4);
    assert EncodeHeader(h) + rest == a + (b + (c + rest));
    FixedRoundTrip(h.streamIdx, 4, b + (c + rest));
    FixedRoundTrip(h.byteIdx, 8, c + rest);
    FixedRoundTrip(h.nBytes, 4, rest);
  }

  const SAMPLE_TYPES := [U8, U16, U24, U32, U64, I8, I16, I24, I32, I64, IEEF32, IEEF64]

  function TypeTag(t: SampleType): (n: nat)
    ensures n < |SAMPLE_TYPES| && SAMPLE_TYPES[n] == t
  {
    match t
    case U8 => 0 case U16 => 1 case U24 => 2 case U32 => 3 case U64 => 4
    case I8 => 5 case I16 => 6 case I24 => 7 case I32 => 8 case I64 => 9
    case IEEF32 => 10 case IEEF64 => 11
  }

  /** Positive and normal: sign clear, exponent neither zero nor all ones. */
  predicate ValidRate(bits: nat) {
    0x0010_0000_0000_0000 <= bits < 0x7FF0_0000_0000_0000
  }

  ghost predicate ValidFormat(f: Format) {
    ValidRate(f.sampleRate) && 0 < f.channelCount < MAX32 && f.bufferSize < MAX32
  }

  ghost function EncodeFormat(f: Format): (bytes: seq<Byte>)
    requires ValidFormat(f)
  {
    CapsAreWidths();
    ToBytes(f.sampleRate, 8) + (Varint(f.channelCount) + (Varint(f.bufferSize) + Varint(TypeTag(f.sampleType))))
  }

  /** Deserialization validates the rate and the channel count. */
  function TakeFormat(bytes: seq<Byte>): (p: Parsed<Format>) {
    var (rate, r1) :- TakeFixed(bytes, 8);
    if !ValidRate(rate) then Fails else
    var (channels, r2) :- TakeU32(r1);
    if channels == 0 then Fails else
    var (buffer, r3) :- TakeU32(r2);
    var (tag, r4) :- TakeU32(r3);
    if |SAMPLE_TYPES| <= tag then Fails
    else Parsed(Format(rate, channels, buffer, SAMPLE_TYPES[tag]), r4)
  }

  lemma U32RoundTrip(v: nat, rest: seq<Byte>)
    requires v < MAX32
    ensures TakeU32(Varint(v) + rest) == Parsed(v, rest)
  {
    CapsAreWidths();
    VarintRoundTrip(v, 5, 15, rest);
  }

  lemma FormatRoundTrip(f: Format, rest: seq<Byte>)
    requires ValidFormat(f)
    ensures TakeFormat(EncodeFormat(f) + rest) == Parsed(f, rest)
  {
    hide TakeFixed, TakeU32, ToBytes, Varint, Pow256, SAMPLE_TYPES;
    CapsAreWidths();
    var a, b := ToBytes(f.sampleRate, 8), Varint(f.channelCount);
    var c, d := Varint(f.bufferSize), Varint(TypeTag(f.sampleType));
    assert EncodeFormat(f) + rest == a + (b + (c + (d + rest)));
    FixedRoundTrip(f.sampleRate, 8, b + (c + (d + rest)));
    U32RoundTrip(f.channelCount, c + (d + rest));
    U32RoundTrip(f.bufferSize, d + rest);
    TagFits(f.sampleType);
    U32RoundTrip(TypeTag(f.sampleType), rest);
  }

  lemma TagFits(t: SampleType)
    ensures TypeTag(t) < MAX32
  {
  }

  ghost predicate ValidList(fs: seq<Format>) {
    |fs| < MAX64 && forall i :: 0 <= i < |fs| ==> ValidFormat(fs[i])
  }

  ghost function EncodeAll(fs: seq<Format>): (bytes: seq<Byte>)
    requires forall i :: 0 <= i < |fs| ==> ValidFormat(fs[i])
  {
    if fs == [] then [] else EncodeFormat(fs[0]) + EncodeAll(fs[1..])
  }

  function TakeAll(bytes: seq<Byte>, n: nat): (p: Parsed<seq<Format>>)
    decreases n
  {
    if n == 0 then Parsed([], bytes)
    else
      var (f, r1) :- TakeFormat(bytes);
      var (fs, r2) :- TakeAll(r1, n - 1);
      Parsed([f] + fs, r2)
  }

  lemma {:induction false} AllRoundTrip(fs: seq<Format>, rest: seq<Byte>)
    requires forall i :: 0 <= i < |fs| ==> ValidFormat(fs[i])
    ensures TakeAll(EncodeAll(fs) + rest, |fs|) == Parsed(fs, rest)
  {
    hide TakeFormat, EncodeFormat, ValidFormat;
    if fs == [] {
      assert [] + rest == rest;
    } else {
      assert EncodeAll(fs) + rest == EncodeFormat(fs[0]) + (EncodeAll(fs[1..]) + rest);
      FormatRoundTrip(fs[0], EncodeAll(fs[1..]) + rest);
      AllRoundTrip(fs[1..], rest);
      assert fs == [fs[0]] + fs[1..];
    }
  }

  ghost function EncodeList(fs: seq<Format>): (bytes: seq<Byte>)
    requires ValidList(fs)
  {
    Varint(|fs|) + EncodeAll(fs)
  }

  function TakeList(bytes: seq<Byte>): (p: Parsed<seq<Format>>) {
    var (n, r1) :- TakeUsize(bytes);
    TakeAll(r1, n)
  }

  lemma ListRoundTrip(fs: seq<Format>, rest: seq<Byte>)
    requires ValidList(fs)
    ensures TakeList(EncodeList(fs) + rest) == Parsed(fs, rest)
  {
    hide EncodeAll, TakeAll, Varint, TakeVarint, ValidFormat;
    assert EncodeList(fs) + rest == Varint(|fs|) + (EncodeAll(fs) + rest);
    CapsAreWidths();
    VarintRoundTrip(|fs|, 10, 1, EncodeAll(fs) + rest);
    AllRoundTrip(fs, rest);
  }

  ghost predicate ValidFormats(f: StreamFormats) {
    ValidList(f.inputs) && ValidList(f.outputs)
  }

  ghost function EncodeFormats(f: StreamFormats): (bytes: seq<Byte>)
    requires ValidFormats(f)
  {
    EncodeList(f.inputs) + EncodeList(f.outputs)
  }

  function TakeFormats(bytes: seq<Byte>): (p: Parsed<StreamFormats>) {
    var (inputs, r1) :- TakeList(bytes);
    var (outputs, r2) :- TakeList(r1);
    Parsed(StreamFormats(inputs, outputs), r2)
  }

  lemma FormatsRoundTrip(f: StreamFormats, rest: seq<Byte>)
    requires ValidFormats(f)
    ensures TakeFormats(EncodeFormats(f) + rest) == Parsed(f, rest)
  {
    hide EncodeList, TakeList, ValidList;
    assert EncodeFormats(f) + rest == EncodeList(f.inputs) + (EncodeList(f.outputs) + rest);
    ListRoundTrip(f.inputs, EncodeList(f.outputs) + rest);
    ListRoundTrip(f.outputs, rest);
  }

  // ----- Messages on the wire

  function ClientTag(f: ClientFlat): (n: nat)
    ensures n < 9
  {
    match f
    case FlatDiscovery => 0 case FlatConnectionSuccess => 1 case FlatConnectionFailed => 2
    case FlatConnectionRefused => 3 case FlatStartIO => 4 case FlatStopIO => 5
    case FlatClientAudio(_) => 6 case FlatClientDisconnect => 7 case FlatClientHeartbeat => 8
  }

  function ServerTag(f: ServerFlat): (n: nat)
    ensures n < 10
  {
    match f
    case FlatConnect(_) => 0 case FlatStartIOFailed => 1 case FlatStartIORefused => 2
    case FlatStartIOSuccess => 3 case FlatStopIOFailed => 4 case FlatStopIORefused => 5
    case FlatStopIOSuccess => 6 case FlatServerAudio(_) => 7 case FlatServerDisconnect => 8
    case FlatServerHeartbeat => 9
  }

  ghost predicate ValidClient(m: ClientMsg) {
    m.ClientIs? && m.connected.ClientAudio? ==> ValidHeader(m.connected.header)
  }

  ghost predicate ValidServer(m: ServerMsg) {
    && (m.Connect? ==> ValidFormats(m.formats))
    && (m.ServerIs? && m.connected.ServerAudio? ==> ValidHeader(m.connected.header))
  }

  /** `client_message_encode`. */
  ghost function EncodeClient(m: ClientMsg): (bytes: seq<Byte>)
    requires ValidClient(m)
  {
    var f := FlattenClient(m);
    Varint(ClientTag(f)) + (if f.FlatClientAudio? then EncodeHeader(f.header) else [])
  }

  /** `client_message_decode`: the message and the bytes after it, or a failure. */
  function DecodeClient(bytes: seq<Byte>): (p: Parsed<ClientMsg>) {
    var (tag, rest) :- TakeU32(bytes);
    match tag
    case 0 => Parsed(NestClient(FlatDiscovery), rest)
    case 1 => Parsed(NestClient(FlatConnectionSuccess), rest)
    case 2 => Parsed(NestClient(FlatConnectionFailed), rest)
    case 3 => Parsed(NestClient(FlatConnectionRefused), rest)
    case 4 => Parsed(NestClient(FlatStartIO), rest)
    case 5 => Parsed(NestClient(FlatStopIO), rest)
    case 6 =>
      var (h, rest') :- TakeHeader(rest);
      Parsed(NestClient(FlatClientAudio(h)), rest')
    case 7 => Parsed(NestClient(FlatClientDisconnect), rest)
    case 8 => Parsed(NestClient(FlatClientHeartbeat), rest)
    case _ => Fails
  }

  /** `server_message_encode`. */
  ghost function EncodeServer(m: ServerMsg): (bytes: seq<Byte>)
    requires ValidServer(m)
  {
    var f := FlattenServer(m);
    Varint(ServerTag(f))
    + (match f case FlatConnect(formats) => EncodeFormats(formats)
               case FlatServerAudio(h) => EncodeHeader(h)
               case _ => [])
  }

  /** `server_message_decode`. */
  function DecodeServer(bytes: seq<Byte>): (p: Parsed<ServerMsg>) {
    var (tag, rest) :- TakeU32(bytes);
    match tag
    case 0 =>
      var (formats, rest') :- TakeFormats(rest);
      Parsed(NestServer(FlatConnect(formats)), rest')
    case 1 => Parsed(NestServer(FlatStartIOFailed), rest)
    case 2 => Parsed(NestServer(FlatStartIORefused), rest)
    case 3 => Parsed(NestServer(FlatStartIOSuccess), rest)
    case 4 => Parsed(NestServer(FlatStopIOFailed), rest)
    case 5 => Parsed(NestServer(FlatStopIORefused), rest)
    case 6 => Parsed(NestServer(FlatStopIOSuccess), rest)
    case 7 =>
      var (h, rest') :- TakeHeader(rest);
      Parsed(NestServer(FlatServerAudio(h)), rest')
    case 8 => Parsed(NestServer(FlatServerDisconnect), rest)
    case 9 => Parsed(NestServer(FlatServerHeartbeat), rest)
    case _ => Fails
  }

  /** Wire round trip: a message followed by any payload decodes to that message and exactly
      that payload. */
  lemma ClientRoundTrip(m: ClientMsg, payload: seq<Byte>)
    requires ValidClient(m)
    ensures DecodeClient(EncodeClient(m) + payload) == Parsed(m, payload)
  {
    hide Varint, TakeU32, TakeHeader, EncodeHeader, ValidHeader;
    var f := FlattenClient(m);
    ClientFlattening(m, f);
    var body := if f.FlatClientAudio? then EncodeHeader(f.header) else [];
    assert EncodeClient(m) + payload == Varint(ClientTag(f)) + (body + payload);
    U32RoundTrip(ClientTag(f), body + payload);
    if f.FlatClientAudio? {
      HeaderRoundTrip(f.header, payload);
    } else {
      assert body + payload == payload;
    }
  }

  lemma ServerRoundTrip(m: ServerMsg, payload: seq<Byte>)
    requires ValidServer(m)
    ensures DecodeServer(EncodeServer(m) + payload) == Parsed(m, payload)
  {
    hide Varint, TakeU32, TakeHeader, EncodeHeader, ValidHeader, TakeFormats, EncodeFormats, ValidFormats;
    var f := FlattenServer(m);
    var body := match f case FlatConnect(formats) => EncodeFormats(formats)
                        case FlatServerAudio(h) => EncodeHeader(h)
                        case _ => [];
    assert EncodeServer(m) + payload == Varint(ServerTag(f)) + (body + payload);
    U32RoundTrip(ServerTag(f), body + payload);
    match f
    case FlatConnect(formats) => FormatsRoundTrip(formats, payload);
    case FlatServerAudio(h) => HeaderRoundTrip(h, payload);
    case _ => assert body + payload == payload;
  }

  /** No encoding is a proper prefix of another, so a datagram has one reading. */
  lemma ServerPrefixFree(a: ServerMsg, b: ServerMsg, payload: seq<Byte>, payload': seq<Byte>)
    requires ValidServer(a) && ValidServer(b)
    requires EncodeServer(a) + payload == EncodeServer(b) + payload'
    ensures a == b && payload == payload'
  {
    ServerRoundTrip(a, payload);
    ServerRoundTrip(b, payload');
  }

  lemma ClientPrefixFree(a: ClientMsg, b: ClientMsg, payload: seq<Byte>, payload': seq<Byte>)
    requires ValidClient(a) && ValidClient(b)
    requires EncodeClient(a) + payload == EncodeClient(b) + payload'
    ensures a == b && payload == payload'
  {
    ClientRoundTrip(a, payload);
    ClientRoundTrip(b, payload');
  }
}
