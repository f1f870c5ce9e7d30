# A verified model of syfala's audio transport

syfala moves audio between JACK or CoreAudio and remote devices over UDP. What it must never lose
is the *logical timeline*: a sample keeps its position through interleaving, ring buffers, byte
packets, packet loss, reordering and skipped audio cycles. Beside that runs a client that drives an
IO state machine and a deadline per connected server. This project models both in Dafny 4.11 and
proves, for all inputs and all runs, what they keep. `dafny verify dfyconfig.toml` checks it.

| file | models |
|---|---|
| `SampleCodec.dfy` | little-endian samples and the byte stream a sample sequence denotes |
| `ByteProducer.dfy`, `ByteConsumer.dfy` | the packet producer and the padder, byte by byte and in place |
| `LossyPath.dfy`, `PacketLoss.dfy`, `LossLocality.dfy`, `RefusedPadding.dfy` | whole runs of the padder under an arbitrary packet schedule and an arbitrary sink |
| `SkipAsWritten.dfy`, `Recutting.dfy`, `SkipTimeline.dfy` | the same runs with the skip computed as the code computes it |
| `Counters.dfy`, `IndexedQueue.dfy` | periodic counters and the indexed ring, with receives that are not atomic |
| `Interleaver.dfy`, `JackProcess.dfy`, `JackTimeline.dfy` | the JACK cursor, the process callback, and its timelines over whole runs |
| `PlaybackSide.dfy` | padder, playback ring and playback cycles as one concurrent system |
| `CaptureToPlayback.dfy`, `WrongPort.dfy` | all of the above composed, port to port, and a run in which a full ring swaps ports |
| `Client.dfy`, `ClientStory.dfy`, `GenericClient.dfy` | the multi-server client: its steps and traces, what must happen according to the log alone, and the object that updates map and queue |
| `ZeroTimestamp.dfy` | the CoreAudio device clock |
| `Wire.dfy`, `WireSoundness.dfy` | message flattening and the postcard wire format, and which byte strings it accepts |
| `DivMod.dfy`, `Common.dfy` | block arithmetic and shared types |

## How to read it

Each stateful object is a class that does what the source does, field by field. Its methods are
proved equal to a step function on plain values (`Feed`, `Apply`, `Handle`), and the theorems are
about every run of that step function. Blocks of `n` (samples in a byte stream, frames in an
interleaved stream, timestamp periods) start at `DivMod.Boundary(k, n)`, which is `k * n`
(`DivMod.BoundaryIsMul`). Arguments a caller of the source cannot choose are made parameters: how
many samples a sink accepts, how many free slots a sender saw, whether a socket call succeeds, what
the application answers.

The main results:

- `CaptureToPlayback.CaptureToPlayback`: from capture ports through ring, packets, a network that
  drops, duplicates and reorders, padder and ring to playback ports, a port is only ever played
  silence or the sample recorded on that port at that frame, if the playback ring has room for the
  padding of each packet. Playback cycles may advance, repeat or jump back, as JACK's frame counter
  may (`syfala_jack/src/lib.rs:107-108`), and packets arrive at any point of a cycle: padder, playback
  ring and cycles are one system (`PlaybackSide`). `EveryRing` is the exact value without the premise
  on the ring: which packet and which capture cycle it comes from, and that it is early by exactly the
  padding that did not fit; `OwnPortIff`: on its own port only if that is a whole number of frames, and
  `WrongPort.WrongPort` is a run in which it is not. `TransparentPath`: with steady capture, no loss,
  and room in the ring for every sample, there is silence only where an earlier cycle has consumed the
  sample, which none does while the cycles advance. `OneSample` shows that the premises can be met.
- `JackTimeline.PlaybackLaw`, `JackTimeline.CapturedBy`: the exact playback and capture timelines of a
  ring, for every run of cycles. `JackTimeline.RunConsumes`, `JackTimeline.PlayedOnce`: how far each
  cycle moves the receive counter, and that nothing is played twice.
- `LossyPath.EndToEnd`: the k-th sample out is the k-th sample in when all of its bytes were stored,
  and padding otherwise, for every cut of the stream and every schedule.
- `LossLocality.LocalIff`: in order, a loss costs exactly the samples it touches if and only if no
  late packet carries, at the index the padder expects, a byte of a sample that is otherwise delivered
  and has its turn. `LossIsLocal`: in particular when no packet is late.
- `LossyPath.OutCount`: in every run, samples out plus padding refused is the expected byte index in
  samples. `RefusedPadding.EverySink`: every sample comes out early by exactly the padding refused
  before its packet, so the end-to-end theorem holds of every sink. `PlaybackSide.FullRing`: the
  playback ring has as many samples as the byte index says exactly when each packet found room for its
  padding.
- `SkipTimeline.TimelineIff`: for which schedules of cuts, losses, duplicates and reorderings the skip
  as written keeps the timeline.
- `IndexedQueue.Timeline`, `IndexedQueue.FilledBy`: the ring's timeline under every interleaving of sends
  and receive steps, and which send put each of its elements there.
- `Client.RunKeeps`, `Client.ServersOnline`, `Client.ActiveWasStarted`, `Client.RequestAccounting`:
  lifecycle, expiry and request accounting over every run of the client.
  `ClientStory.StoryExact`: each connected server's trace is, event by event, what the log and the
  documented graph say must have happened. `GenericClient.GenericClient.Start`: the receive loop of a client whose handlers have not failed
  never panics.
- `ZeroTimestamp.TimestampExact`: the incremental clock equals its closed form.
- `Wire.ServerRoundTrip`, `Wire.ServerPrefixFree`: messages and payloads are recovered from
  their bytes, and no two have the same ones. `WireSoundness.ServerExact`: the decoder accepts exactly
  the encodings of valid messages, and reads each as what it encodes.

## Where the code departs from its own documentation

The model keeps the code as it is written, and a `Build` parameter adds the reading that the
surrounding text describes. Results say which of the two they are about.

- `syfala_utils/src/byte_consumer.rs:152-153` subtracts the sample size from an index below it, which
  panics. `PacketLoss.AsWrittenOutcome` states exactly when: whenever a sample is completed and the
  sink still wants one; `PacketLoss.FirstSamplePanics` is an instance. As written the padder therefore
  only ever emits padding; the timeline theorems are about `REPAIRED`, which reads the whole buffer.
- `syfala_utils/src/byte_consumer.rs:122` measures the skip from the old expected index instead of the
  packet's. With only this line as written, a packet after a gap is read too late by the length of the
  gap (`SkipAsWritten.GapEffect`; `SkipAsWritten.FirstByteLost` is an instance), and the padder may
  stay behind although nothing more is lost. `SkipAsWritten.LagGoesOn` is the exact law of how far,
  packet by packet; `SkipAsWritten.DisplacedForGood`: it stays as far behind if and only if each packet
  reaches, counted from the old index, the boundary after the gap. A shorter packet reduces the lag
  (`SkipAsWritten.EmptyPacketRestores`), and it grows only when the padder has run ahead and drops a
  packet as late (`SkipAsWritten.LagNeverGrows`, `SkipAsWritten.LatePacketGrows`).
  `SkipTimeline.TimelineIff` is the exact condition on samples, over runs in any order whose padding is
  taken: the timeline is kept for every stream if and only if each packet after a gap, counted from the
  old index, ends before the first sample after its padding does, or its sink is full by then, and no
  packet completes a sample begun by such a packet. The second half is void for the packets of one
  producer, none of which starts inside another (`SkipTimeline.DisjointHarmless`).
- Even when repaired, the padder jumps past a packet that follows a gap and ends before the next
  sample boundary (`PacketLoss.InStepIff`), and then drops a packet that starts before that boundary as
  late. `LossLocality.LocalIff` states exactly when this costs a sample that was delivered,
  `PacketLoss.TinyPacketEvictsNext` is an instance.
- A sink that stops inside the padding shifts the timeline for good: `LossyPath.OutCount` (aligned if
  and only if nothing was ever refused), `PacketLoss.AlignedIffPaddingTaken` (no later packet repairs
  it), `RefusedPadding.EverySink` (by how much), `RefusedPadding.RefusedTwo` (an instance).
- `syfala_network/src/udp/client/generic/mod.rs:337` announces a stop with a start request.
  `Client.RequestAccounting`: as written, a stop request is sent only after a stop failure;
  `Client.StopNeverRequested` is a run in which none is sent.
- A connection accepted but whose reply cannot be sent stays in the map without a deadline, and its
  disconnect message panics (`GenericClient.UnansweredConnectThenDisconnect`; exact condition in
  `GenericClient.GenericClient.OnMessage`). The loop in `start` returns at the first failed handler
  (`syfala_network/src/udp/client/mod.rs:161`), so this takes a second `start` on the same client;
  within the first one no panic is possible (`GenericClient.GenericClient.Start`).
- `syfala_jack/src/interleaver.rs:155-158` is exact only between frames
  (`Interleaver.Interleaved.SizeHint`; `Interleaver.MidFrameHint` is an instance).

## Model

| member | source | states |
|---|---|---|
| SampleCodec.FromToBytes | syfala_utils/src/sample_type.rs:76-90 | a sample written little-endian and read back is the same sample, for every size |
| SampleCodec.ToFromBytes | syfala_utils/src/sample_type.rs:76-90 | bytes read as a sample and written back are the same bytes |
| SampleCodec.StoreBytes | syfala_utils/src/sample_type.rs:86-90 | the loop fills the slice in place with exactly the sample's bytes |
| SampleCodec.LittleEndian | syfala_utils/src/sample_type.rs:76-90 | byte i of a sample is its digit of weight 256^i |
| SampleCodec.Silence | syfala_utils/src/sample_type.rs:50-52 | the silence of an unsigned type is the midpoint of its range, of any other type zero |
| SampleCodec.EncodePrefix | syfala_utils/src/byte_producer.rs:119-133 | later samples never change the bytes already in the stream |
| SampleCodec.WholeOfPrefix | syfala_utils/src/byte_consumer.rs:138-156 | cutting any prefix of the stream gives back the samples it covers, and exactly the bytes left over |
| SampleCodec.EncodeWhole | syfala_utils/src/byte_consumer.rs:138-156 | cutting bytes into samples and encoding those again, with what is left over, gives the same bytes |
| SampleCodec.WholeSnoc | syfala_utils/src/byte_consumer.rs:141-156 | one more byte extends the partial sample or completes it |
| ByteProducer.PacketProducer.constructor | syfala_utils/src/byte_producer.rs:102-108 | a stream starts at byte 0 with nothing taken |
| ByteProducer.PacketProducer.Push | syfala_utils/src/byte_producer.rs:33-39 | a push extends the ring without touching what was produced |
| ByteProducer.PacketProducer.Next | syfala_utils/src/byte_producer.rs:66-76 | yields the stream's next byte, fetching a sample only at a boundary; none exactly when the chunk is used up at a boundary |
| ByteProducer.PacketProducer.ProducePacket | syfala_utils/src/byte_producer.rs:161-166 | exactly-once production: the packet is the stream from the index on, its index is where the last packet stopped, all bytes taken so far are a prefix of the stream, and it is short only if the chunk ran out |
| ByteProducer.PieceOfLonger | syfala_utils/src/byte_producer.rs:198-200 | a packet stays a piece of the stream when more samples are pushed |
| ByteConsumer.Gap | syfala_utils/src/byte_consumer.rs:105-118 | padding is called for exactly when the packet starts after the expected index, and reaches from the sample that index falls in to the first boundary at or after the packet |
| ByteConsumer.SamplePadder.constructor | syfala_utils/src/byte_consumer.rs:79-85 | a padder starts at byte 0 with an empty sample |
| ByteConsumer.SamplePadder.Align | syfala_utils/src/byte_consumer.rs:105-133 | the in-place index update, padding count and skip are those of the plan for the packet |
| ByteConsumer.SamplePadder.PutByte | syfala_utils/src/byte_consumer.rs:142-150 | stores one byte at its place in the sample buffer; the buffer is the whole sample exactly when it is completed |
| ByteConsumer.SamplePadder.PullSamples | syfala_utils/src/byte_consumer.rs:138-156 | byte by byte in place, the buffer and samples of the closed form, stopping where the sink is full |
| ByteConsumer.SamplePadder.FeedBytes | syfala_utils/src/byte_consumer.rs:96-159 | one packet into a sink of any size equals the closed form `Feed`, in either build, panic included |
| ByteConsumer.StopsAtPulled | syfala_utils/src/byte_consumer.rs:37-39 | where the pull loop stops, in closed form |
| ByteConsumer.FeedExact | syfala_utils/src/byte_consumer.rs:34-40 | one packet, exactly, for a sink of any size: it is given the padding and then the samples completed, in order, as many as it takes; the padder ends at the end of the packet, or right after the last sample taken when the sink is full |
| LossyPath.RunExact | syfala_utils/src/byte_consumer.rs:96-159 | over every admissible schedule the padder holds the stream's own bytes, and emits each sample or padding exactly by whether its bytes were stored |
| LossyPath.EndToEnd | syfala_utils/src/byte_consumer.rs:96-159 | the k-th sample out is the k-th sample in if all its bytes were stored, padding otherwise, for every cut and every schedule of drops, duplicates and reorderings |
| LossyPath.OutCount | syfala_utils/src/byte_consumer.rs:87-159 | conservation in every run, whatever arrives and wherever the sink stops, in either reading of the skip: samples out plus padding refused is the expected index divided by the sample size; the timeline is kept if and only if nothing was refused |
| LossyPath.FeedFits | syfala_utils/src/byte_consumer.rs:34-40 | a packet never yields more samples than the sink has room for |
| RefusedPadding.AdmissibleIff | syfala_utils/src/byte_consumer.rs:96-159 | the schedules of the end-to-end theorem are exactly those cut from the stream without refused padding |
| RefusedPadding.GenerousRun | syfala_utils/src/byte_consumer.rs:135-158 | a sink that refuses padding leaves padder and received bytes as one that takes it, and only the refused samples are missing |
| RefusedPadding.RefusalShifts | syfala_utils/src/byte_consumer.rs:96-159 | the end-to-end theorem for every sink: each element belongs later by exactly the padding refused before its packet, and is the sample there or padding by whether its bytes were stored |
| RefusedPadding.EverySink | syfala_utils/src/byte_consumer.rs:96-159 | the same for every element of a whole run: which packet emitted it, and by how much it is early |
| RefusedPadding.RefusedTwo | syfala_utils/src/byte_consumer.rs:34-40 | an instance: two padding samples refused, and sample 3 played at position 1 |
| RefusedPadding.NoRefusalIff | syfala_utils/src/byte_consumer.rs:135-136 | nothing is refused if and only if every packet of the run has its padding taken |
| LossyPath.PlanIsSound | syfala_utils/src/byte_consumer.rs:105-140 | what is carried over and what is kept of a packet join into an unbroken, aligned piece of the stream |
| LossyPath.EffectExact | syfala_proto/src/lib.rs:101-107 | a packet keeps the exact correspondence between stored bytes and emitted samples |
| PacketLoss.AlignedIffPaddingTaken | syfala_utils/src/byte_consumer.rs:234-237 | after one more packet the timeline is kept if and only if it was kept before and the sink takes all the padding: a shift is never repaired |
| PacketLoss.GotWasDelivered | syfala_utils/src/byte_consumer.rs:138-147 | whatever arrives, every position counted as stored was in a delivered packet |
| PacketLoss.InStepIff | syfala_proto/src/lib.rs:101-121 | after a drained packet the padder expects the byte after it if and only if nothing was missing before it or it reaches a sample boundary |
| LossLocality.LossIsLocal | syfala_proto/src/lib.rs:101-107 | when no packet starts before the expected index, a sample is replaced by padding if and only if one of its bytes was in no delivered packet |
| LossLocality.LocalIff | syfala_proto/src/lib.rs:101-107 | for every in-order schedule into a sink with room, stored and delivered samples are the same, and the output of a stream without silence is that of `LossIsLocal`, if and only if every late packet ends by the expected index, or the sample there is not completely delivered or not yet out |
| LossLocality.EvictedForGood | syfala_utils/src/byte_consumer.rs:106-107 | a byte at the expected index in a late packet is never stored, whatever follows in order |
| LossLocality.InStep | syfala_proto/src/lib.rs:119-121 | if moreover each packet after a loss reaches a boundary, the padder ends at the last packet's end |
| PacketLoss.Lossless | syfala_utils/src/byte_consumer.rs:87-159 | with nothing lost the output is the input truncated to whole samples, whatever the packet boundaries |
| PacketLoss.LateIgnored | syfala_utils/src/byte_consumer.rs:106-107 | a late, duplicated or reordered packet changes nothing |
| PacketLoss.ShortPacketPads | syfala_utils/src/byte_consumer.rs:110-129 | a packet after a gap that ends before the next boundary yields padding only |
| PacketLoss.TinyPacketEvictsNext | syfala_utils/src/byte_consumer.rs:106-129 | an instance in which a fully delivered sample is played as padding because a tiny packet preceded it |
| PacketLoss.AsWrittenOutcome | syfala_utils/src/byte_consumer.rs:148-156 | the code as written panics if and only if a sample is completed within the sink's room; all it emits is padding; without a panic it does what it would with the buffer read whole |
| PacketLoss.FirstSamplePanics | syfala_utils/src/byte_consumer.rs:152-153 | the first sample of a lossless stream panics as written |
| SkipAsWritten.KeptInPlaceIff | syfala_utils/src/byte_consumer.rs:120-140 | after a gap the kept bytes are stored at their own position if and only if the skip is measured from the packet or nothing is kept |
| SkipAsWritten.GapEffect | syfala_utils/src/byte_consumer.rs:110-158 | what the skip as written emits after a gap: the padding, then samples read from the stream as many bytes too late as the gap is long |
| SkipAsWritten.GapReaches | syfala_utils/src/byte_consumer.rs:110-158 | a drained packet after a gap leaves the padder its own length after the old index, but no earlier than the boundary it resumes at |
| SkipAsWritten.NextLagBounds | syfala_utils/src/byte_consumer.rs:105-133 | a packet makes the lag grow if and only if it is late and not empty; after a gap the lag stays if and only if the packet is long enough |
| SkipAsWritten.LagGoesOn | syfala_utils/src/byte_consumer.rs:96-159 | the exact lag along any continuation without loss |
| SkipAsWritten.DisplacedForGood | syfala_utils/src/byte_consumer.rs:96-159 | after a loss, over any continuation without one, the padder stays exactly as far behind if and only if each packet is long enough to reach the boundary after the gap |
| SkipAsWritten.LagNeverGrows | syfala_utils/src/byte_consumer.rs:96-159 | the lag never grows while no packet is late |
| SkipAsWritten.EmptyPacketRestores | syfala_proto/src/lib.rs:94-96 | an instance: an empty packet puts the padder back in step |
| SkipAsWritten.LatePacketGrows | syfala_utils/src/byte_consumer.rs:106-107 | an instance: a late packet makes the lag grow |
| SkipAsWritten.FirstByteLost | syfala_utils/src/byte_consumer.rs:120-123 | an instance: sample 2 is played in the place of sample 1 |
| Recutting.RecutRun | syfala_utils/src/byte_consumer.rs:105-133 | the indices of a run do not depend on the bytes carried |
| SkipTimeline.HarmlessKeeps | syfala_utils/src/byte_consumer.rs:96-159 | if no packet completes a displaced sample, every sample out is the stream's own or padding, for every stream and every order of arrival |
| SkipTimeline.HarmfulBreaks | syfala_utils/src/byte_consumer.rs:96-159 | if one does, there is a stream with a wrong sample in the output |
| SkipTimeline.TimelineIff | syfala_utils/src/byte_consumer.rs:96-159 | with the skip as written and padding taken, for packets in any order, the timeline is kept for all streams if and only if every packet after a gap ends, counted from the old index, before the first sample after its padding does, and none completes a sample begun by such a packet |
| SkipTimeline.DisjointHarmless | syfala_utils/src/byte_consumer.rs:96-159 | when no packet starts inside another only the packets after a gap matter: a displaced sample is discarded before it is completed, in any order of arrival |
| SkipTimeline.OrderedDisjoint | syfala_utils/src/byte_producer.rs:161-166 | packets in order never start inside another |
| SkipTimeline.LostByteIsHarmful | syfala_utils/src/byte_consumer.rs:120-123 | instances on both sides of that condition |
| Counters.PeriodicCounter.constructor | syfala_utils/src/queue.rs:125-132 | a counter starts with no wake reported |
| Counters.PeriodicCounter.Advance | syfala_utils/src/queue.rs:159-169 | the count grows by exactly the delta; one wake is reported per multiple of the period in between, and one at all if and only if there is such a multiple |
| Counters.PeriodicCounter.BoundariesCrossed | syfala_utils/src/queue.rs:147-149 | the number of multiples of the period up to the count |
| Counters.WakesConserved | syfala_utils/src/queue.rs:141-169 | however a total is split into advances, one wake is reported per multiple of the period passed |
| IndexedQueue.SendFills | syfala_utils/src/queue.rs:407-423 | a send fills the positions from the counter to the end of its values as far as there is room: padding before its index, its own values after |
| IndexedQueue.BeginOffers | syfala_utils/src/queue.rs:333-344 | a receive offers the padding up to the counter and all of the ring from the requested index |
| IndexedQueue.SendKeeps | syfala_utils/src/queue.rs:407-423 | a send keeps the ring invariant, also in the middle of a receive |
| IndexedQueue.PopKeeps | syfala_utils/src/queue.rs:196-215 | a pull through the shifted iterator keeps the ring invariant |
| IndexedQueue.StepKeeps | syfala_utils/src/queue.rs:265-276 | every step, the drop accounting included, keeps the ring invariant |
| IndexedQueue.RunSourced | syfala_utils/src/queue.rs:389-423 | every element ever pushed is padding or was submitted for exactly its position |
| IndexedQueue.FilledBy | syfala_utils/src/queue.rs:407-423 | the ring's contents, exactly, in every legal run: each position was filled by a send, and holds padding if it is before that send's index, that send's own value otherwise |
| IndexedQueue.FilledOnce | syfala_utils/src/queue.rs:407-423 | no position is filled by two sends |
| IndexedQueue.Timeline | syfala_utils/src/queue.rs:290-344 | in every interleaving, at most the capacity is in flight, and what a receive yields is the timeline from its index, preceded by padding exactly up to the counter |
| IndexedQueue.IndexedRing.constructor | syfala_utils/src/queue.rs:303-315 | both ends start at the same index on an empty ring |
| IndexedQueue.IndexedRing.SendAt | syfala_utils/src/queue.rs:407-423 | the send loop is the send step; in all there was one wake per multiple of the period that the elements pushed have passed |
| IndexedQueue.IndexedRing.FillFromIter | syfala_utils/src/queue.rs:419-420 | pushes as many elements as there are and fit, in order |
| IndexedQueue.IndexedRing.RecvAt | syfala_utils/src/queue.rs:333-344 | opening a receive is the snapshot step |
| IndexedQueue.IndexedRing.Next | syfala_utils/src/queue.rs:239-256 | one `next()` is the pull step, and returns what it appends to the yielded elements |
| IndexedQueue.IndexedRing.Drop | syfala_utils/src/queue.rs:265-276 | dropping the iterator is the commit step, with one wake per multiple of the period that the counter passes |
| Interleaver.InterleaveAt | syfala_jack/src/interleaver.rs:132-153 | element `f * P + c` of the interleaved cycle is frame f of port c |
| Interleaver.InterleaveElement | syfala_jack/src/interleaver.rs:132-153 | element k is frame `k div P` of port `k mod P` |
| Interleaver.Interleaved.constructor | syfala_jack/src/interleaver.rs:102-119 | a cycle starts at frame 0 of port 0 |
| Interleaver.Interleaved.Next | syfala_jack/src/interleaver.rs:132-153 | yields exactly `n_frames * P` elements in frame-major order and never points beyond a buffer |
| Interleaver.Interleaved.SizeHint | syfala_jack/src/interleaver.rs:155-158 | the hint is the true remainder if and only if the cursor is between frames; otherwise it is too large by the cursor's port |
| Interleaver.MidFrameHint | syfala_jack/src/interleaver.rs:155-158 | an instance in the middle of a frame: two promised, one left |
| Interleaver.Interleaved.Collect | syfala_jack/src/lib.rs:116-116 | reading a cycle through the cursor gives its frame-major interleaving |
| JackProcess.DeinterleaveInterleave | syfala_jack/src/interleaver.rs:132-153 | writing through the cursor undoes reading through it |
| JackProcess.Play | syfala_jack/src/lib.rs:119-124 | with any sends of the other thread before and between its pulls, the zip loop writes what the receive yields, de-interleaved, leaves every other cell alone, takes exactly what was offered or fills the buffers, and commits what it pulled |
| JackProcess.WovenYields | syfala_utils/src/queue.rs:333-344 | pulls yield one element each up to what was offered, whatever is sent between them |
| JackProcess.QuietCycleLegal | syfala_jack/src/lib.rs:119-124 | a cycle during which nothing is sent is always one of the cycles the playback theorem covers |
| JackProcess.WritesTimeline | syfala_jack/src/lib.rs:119-124 | wherever the cycle starts, every cell for which an element was offered gets the timeline element of its port and frame, or padding if that was consumed before, the others are untouched, whatever is sent meanwhile; the counter moves as if every cell had been asked for, and the ring is left ready for the next cycle |
| JackProcess.CapturedExtends | syfala_jack/src/lib.rs:114-117 | what a cycle does to a sender's ring is one more step of a capture run |
| JackProcess.PlayedExtends | syfala_jack/src/lib.rs:119-124 | what it does to a receiver's ring is one more cycle of a playback run |
| JackProcess.DuplexProcessHandler.constructor | syfala_jack/src/lib.rs:84-97 | no reference frame before the first cycle |
| JackProcess.DuplexProcessHandler.SendAll | syfala_jack/src/lib.rs:114-117 | every sender's ring gets its own interleaved cycle at the cycle's sample index |
| JackProcess.DuplexProcessHandler.PlayAll | syfala_jack/src/lib.rs:119-124 | every receiver's buffers and ring are those of its own cycle, under its own concurrent sends |
| JackProcess.DuplexProcessHandler.Process | syfala_jack/src/lib.rs:106-127 | the first cycle fixes the reference frame for good, and all groups are indexed from it, while other threads send |
| JackTimeline.PositionIs | syfala_jack/src/lib.rs:115-115 | the position of port c at frame f is `f * P + c`, and determines both |
| JackTimeline.CapturedBy | syfala_jack/src/lib.rs:106-117 | over every run of cycles, which cycle filled the position of a port at a frame: it holds what that cycle recorded there, and padding exactly when the cycle only started after that frame |
| JackTimeline.CaptureTimeline | syfala_jack/src/lib.rs:106-117 | over every run of cycles, skipped cycles and full rings included, a ring position holds a sample recorded for that port and frame, or padding |
| JackTimeline.SteadyCapture | syfala_jack/src/lib.rs:114-117 | with no skipped cycle and enough room there is no padding |
| JackTimeline.PullsYield | syfala_utils/src/queue.rs:333-344 | every pull yields one element until what was offered is used up, whatever is sent meanwhile |
| JackTimeline.PullsIterate | syfala_utils/src/queue.rs:239-256 | how many elements of the chunk a number of pulls iterates over: none while they yield padding, those skipped together with the first |
| JackTimeline.CycleConsumes | syfala_utils/src/queue.rs:265-276 | a dropped receive moves the counter right after the last position asked for, within what it offered, and not at all if nothing was asked for; exactly the elements before that leave the ring |
| JackTimeline.RunConsumes | syfala_utils/src/queue.rs:265-276 | the same over every run of cycles |
| JackTimeline.PlayedOnce | syfala_utils/src/queue.rs:333-344 | what some cycle was given for a port at a frame is padding for every later cycle |
| JackTimeline.CyclePlays | syfala_jack/src/lib.rs:119-124 | a cycle that starts at or after the counter gets the timeline without front padding and leaves the counter no later than its end |
| JackTimeline.AnyCyclePlays | syfala_utils/src/queue.rs:333-344 | wherever a cycle starts, each element it gets is the timeline's at its position, or padding if that was consumed before |
| JackTimeline.PlaybackLaw | syfala_jack/src/lib.rs:106-124 | in every run of cycles, in any order, what is written to port c at in-cycle frame f is padding if that port and frame were consumed before, their timeline element otherwise |
| JackTimeline.PlaybackTimeline | syfala_jack/src/lib.rs:119-124 | when cycles advance nothing was consumed before, so it is the timeline element of port c at frame `frame + f` |
| PlaybackSide.CycleFollows | syfala_utils/src/byte_consumer.rs:234-237 | over one cycle, with packets arriving before and during it, the ring is given exactly what the padder emits |
| PlaybackSide.RingFollows | syfala_utils/src/byte_consumer.rs:234-237 | in every run of packets and cycles the playback ring's timeline is the padder's output |
| PlaybackSide.FullRing | syfala_utils/src/byte_consumer.rs:34-40 | the ring's timeline is in step with the byte stream if and only if each packet found room for its padding; otherwise it is behind by what did not fit |
| CaptureToPlayback.PlayedIsEmitted | syfala_jack/src/lib.rs:119-124 | what a cycle writes to a port at a frame is what the padder emitted for that position, or padding if that was consumed before, cycles in any order and packets arriving meanwhile |
| CaptureToPlayback.EveryRing | syfala_jack/src/lib.rs:101-127 | the exact value port to port, over a lossy network, any playback ring and cycles in any order: silence if consumed before, else by which packet it came, shifted by the padding the ring had no room for before that packet, and what the capture cycle left there if its bytes were stored |
| CaptureToPlayback.OwnPortIff | syfala_jack/src/lib.rs:115-115 | after such a shift a port plays its own samples if and only if the shift is a whole number of frames |
| WrongPort.WrongPort | syfala_utils/src/byte_consumer.rs:34-40 | an instance: a full ring of two slots makes port 0 play the sample of port 1 |
| CaptureToPlayback.CaptureToPlayback | syfala_jack/src/lib.rs:101-127 | port to port over a lossy network, playback cycles in any order, packets arriving at any point of a cycle, and the ring having room for each packet's padding: silence, or the sample recorded on that port at that frame |
| CaptureToPlayback.TransparentPath | syfala_jack/src/lib.rs:101-127 | with steady capture, every packet in order, and room in the playback ring for every sample, silence in place of a sample only if an earlier cycle consumed it, which never happens when cycles advance |
| CaptureToPlayback.OneSample | syfala_jack/src/lib.rs:101-127 | the premises of both can be met, and a sample gets through |
| Client.ReactIsTheEdge | syfala_network/src/udp/client/generic/mod.rs:64-169 | a report is answered with a callback if and only if the documented graph has an edge for it, with that edge's state and request |
| Client.PollIsTheEdge | syfala_network/src/udp/client/generic/mod.rs:321-345 | the application is polled exactly in the two settled states, and the state moves exactly when it wants to |
| Client.ReactExplained | syfala_network/src/udp/client/generic/mod.rs:64-169 | handling a report extends the server's path through the graph and keeps its requests accounted for |
| Client.PollExplained | syfala_network/src/udp/client/generic/mod.rs:321-345 | so does polling |
| Client.DeliverKeeps | syfala_network/src/udp/client/generic/mod.rs:240-281 | a handled message keeps map and queue in agreement and every path explained |
| Client.TimeoutKeeps | syfala_network/src/udp/client/generic/mod.rs:304-358 | so does a timeout |
| Client.RunKeeps | syfala_network/src/udp/client/generic/mod.rs:179-190 | after every run of successful handlers, map and queue have the same keys, every trace is a path of the graph to the server's state, and every deadline is the last handled message plus the timeout |
| Client.ServersOnline | syfala_network/src/udp/client/generic/mod.rs:271-316 | expiry is exact: the map holds precisely the servers that the log of messages and timeouts says are online |
| Client.CallbackAllowed | syfala_network/src/udp/client/generic/mod.rs:160-165 | audio is handed over only while Active and for an audio message; a session starts only from a pending start on a success |
| Client.ActiveWasStarted | syfala_network/README.md:35-40 | a server that is Active or PendingStop was sent a start request and then reported success while the start was pending, since it connected |
| Client.RequestAccounting | syfala_network/src/udp/client/generic/mod.rs:321-345 | requests sent while pending are one plus the failures; for stops exactly in the repaired build, while as written they equal the failures |
| Client.StopNeverRequested | syfala_network/src/udp/client/generic/mod.rs:334-339 | a run as written that reaches a pending stop without a stop request |
| ClientStory.StoryExact | syfala_network/src/udp/client/generic/mod.rs:240-345 | in every run of successful handlers a connected server's trace is what the log and the graph demand since it connected: every report heard and answered, every timeout survived polled, each owed request sent, nothing else; its IO state is where that leads |
| ClientStory.HeardAll | syfala_network/src/udp/client/generic/mod.rs:257-262 | the reports in the trace are, in order, those the log has from the server while online |
| ClientStory.AnsweredAtOnce | syfala_network/src/udp/client/generic/mod.rs:64-169 | what follows a report is the callback of the graph's edge for it and the request that edge owes |
| ClientStory.AudioHandedOver | syfala_network/src/udp/client/generic/mod.rs:159-165 | each audio message received while Active is handed over at once |
| ClientStory.OthersUntouched | syfala_network/src/udp/client/generic/mod.rs:211-281 | a message of one server, and a connection request of a known one, leaves alone every state, deadline and trace it does not concern |
| GenericClient.GenericClient.constructor | syfala_network/src/udp/client/generic/mod.rs:192-204 | a new client knows no server |
| GenericClient.GenericClient.OnConnectRequest | syfala_network/src/udp/client/generic/mod.rs:211-235 | an unknown server is entered if accepted, and answered either way; a known one is ignored |
| GenericClient.GenericClient.OnReport | syfala_network/src/udp/client/generic/mod.rs:64-169 | the nested matches are the reaction of the state machine; it fails only if a retry cannot be sent |
| GenericClient.GenericClient.OnMessage | syfala_network/src/udp/client/generic/mod.rs:240-297 | the handler's exact outcome and state: when it panics, when it fails, and the IO states and deadlines it leaves in each case; deadlines stay within the map even then |
| GenericClient.GenericClient.Peek | syfala_network/src/udp/client/generic/mod.rs:180-184 | the head of the queue is a server with the earliest deadline |
| GenericClient.GenericClient.Expire | syfala_network/src/udp/client/generic/mod.rs:310-316 | popping heads terminates, its unwrap never fails, and it equals a filter over all servers |
| GenericClient.GenericClient.PollAll | syfala_network/src/udp/client/generic/mod.rs:321-345 | in any order every server is polled exactly once; it stops early if and only if a needed send fails, with that server moved and every other one polled or untouched |
| GenericClient.GenericClient.SetRecvTimeout | syfala_network/src/udp/client/generic/mod.rs:347-355 | none exactly when no deadline is left, else positive, at most the poll period, and not past the earliest deadline |
| GenericClient.GenericClient.OnTimeout | syfala_network/src/udp/client/generic/mod.rs:304-358 | exact expiry whatever fails, no panic, success if and only if no needed socket call fails, and then the step's state and a safe receive timeout, which is none if and only if no server is connected; what a failed one leaves |
| GenericClient.GenericClient.TakeTurn | syfala_network/src/udp/client/mod.rs:155-165 | as long as no handler has failed, the client is where its log of inputs leads, neither unwrap fails, and after a timeout the receive timeout is none if and only if no server is connected |
| GenericClient.GenericClient.Start | syfala_network/src/udp/client/mod.rs:152-167 | the loop stops at the first failure; on a client without one it never panics, its map holds precisely the servers its log says are online, and their traces are the stories the log tells |
| GenericClient.UnansweredConnectThenDisconnect | syfala_network/src/udp/client/generic/mod.rs:218-229 | an instance of the disconnect panic |
| ZeroTimestamp.GetAdvances | syfala_coreaudio/src/lib.rs:2003-2017 | a query moves the clock to the last whole period not after now |
| ZeroTimestamp.RunClosed | syfala_coreaudio/src/lib.rs:1906-2017 | in every run the clock is a whole number of periods after its anchor, and the client count is successful starts minus successful stops |
| ZeroTimestamp.TimestampExact | syfala_coreaudio/src/lib.rs:1967-2025 | the reported timestamp is the last period boundary not after now, whatever was asked before |
| ZeroTimestamp.StampNumber | syfala_coreaudio/src/lib.rs:2008-2017 | that boundary is number `(now - anchor) / T`, so it depends on anchor and time alone |
| ZeroTimestamp.ClientsCounted | syfala_coreaudio/src/lib.rs:1885-1965 | in every run the active clients are those the calls account for, and a call is refused exactly when it is a stop without a client or a start beyond the largest count |
| ZeroTimestamp.DeviceIO.constructor | syfala_coreaudio/src/lib.rs:249-259 | no clients, both timestamps zero |
| ZeroTimestamp.DeviceIO.StartIO | syfala_coreaudio/src/lib.rs:1885-1925 | the start step with its status; the clock is anchored only for a first client |
| ZeroTimestamp.DeviceIO.StopIO | syfala_coreaudio/src/lib.rs:1927-1965 | the stop step with its status |
| ZeroTimestamp.DeviceIO.GetZeroTimestamp | syfala_coreaudio/src/lib.rs:1967-2025 | the query step; the answer is the clock's new state |
| Wire.ClientFlattening | syfala_network/src/lib.rs:69-126 | flattening and nesting of client messages are inverse both ways |
| Wire.ServerFlattening | syfala_network/src/lib.rs:156-219 | the same for server messages |
| Wire.VarintRoundTrip | syfala_network/src/lib.rs:222-247 | a varint of any width decodes to its value and leaves what follows it |
| Wire.HeaderRoundTrip | syfala_network/src/lib.rs:143-151 | the fixed-width audio header round trips |
| Wire.FormatRoundTrip | syfala_proto/src/format.rs:111-124 | a stream format round trips through its validating decoder |
| Wire.ListRoundTrip | syfala_proto/src/format.rs:171-175 | a format list of any length round trips |
| Wire.ClientRoundTrip | syfala_network/src/lib.rs:221-233 | a client message followed by any payload decodes to that message and exactly that payload |
| Wire.ServerRoundTrip | syfala_network/src/lib.rs:235-247 | a server message followed by any payload decodes to that message and exactly that payload |
| Wire.ClientPrefixFree | syfala_network/src/lib.rs:221-233 | no client encoding is a prefix of another, so a datagram has one reading |
| Wire.ServerPrefixFree | syfala_network/src/lib.rs:235-247 | no server encoding is a prefix of another, so a datagram has one reading |
| WireSoundness.ServerExact | syfala_network/src/lib.rs:235-247 | a server datagram is read as a message and a rest if and only if the message is valid and the bytes before the rest encode it; it is rejected if and only if no front of it encodes any valid message |
| WireSoundness.ClientExact | syfala_network/src/lib.rs:221-233 | the same for client datagrams |
| WireSoundness.UnknownTag | syfala_network/src/lib.rs:134-154 | a datagram that starts with an unknown variant is rejected, whatever follows |
| WireSoundness.VarintSound | syfala_network/src/lib.rs:235-247 | a varint is read from bytes with the top bit on all but the last, within its width, as the value of its groups |
| WireSoundness.FormatSound | syfala_proto/src/format.rs:111-124 | a format is read only if its rate is normal and positive and it has a channel |
| WireSoundness.EncodedServer | syfala_network/src/lib.rs:235-242 | what the encoder writes for a server message is an encoding of it, and no encoding is shorter |
| WireSoundness.EncodedClient | syfala_network/src/lib.rs:221-227 | the same for client messages |
| WireSoundness.ClientDatagrams | syfala_network/src/lib.rs:46-67 | the one-byte client datagrams, by place of declaration |
| WireSoundness.ServerDatagrams | syfala_network/src/lib.rs:134-154 | the one-byte server datagrams, by place of declaration |

## Left out

- Socket input and output, blocking loops, the discovery beacon and the server skeleton: sending is an event in a trace, receiving is the input of a handler.
- The buffer handed from the encoder to the socket in `send_msg`: it depends on what the serializer returns for a slice writer.
- Which error a rejected datagram yields: the receivers turn every one of them into the absence of a message.
- The internals of the ring, hash map, priority queue and serializer libraries: a bounded queue, a map, a map with its least entry, and the published postcard wire format stand for them.
- Liveness of expiry: a dead server is removed only when a receive times out, which need not happen.
- 64-bit overflow: counters are unbounded. The ranges outside which the source panics are preconditions of the byte producer, the padder, the counters and the ring; those of the process callback, the frame count of the device clock and the deadline addition are not stated. The lemmas are about runs inside these ranges. The wrap-around of JACK's 32-bit frame time is not modelled.
- Padding callbacks that return different values on each call: padding is one constant, as in every use in the repository.
- Application callbacks: their answers are inputs, their other effects are not modelled; unknown messages have no effect on the client's state.
- Floating-point meaning of samples and rates: both are bit patterns.
- CoreAudio property tables, reference counts, host notifications, volume and gain curves, and the conversion of nanoseconds to ticks: easy case analysis, foreign calls, or transcendental arithmetic.
