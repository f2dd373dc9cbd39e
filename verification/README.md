# srtc: a model of its protocol machinery, with proofs

This project models the state machines, ring windows and wire codecs of the srtc WebRTC library and
proves what they promise each other. `dafny verify dfyconfig.toml` checks all of it.

The main results, component by component:

- **Transport-wide congestion control feedback** (section 3.1 of
  draft-holmer-rmcat-transport-wide-cc-extensions-01). The subscriber's ring of arrivals refines a map.
  Its greedy encoder splits the window into feedbacks that tile it, each at most 1017 bytes, and it
  terminates exactly when no feedback it comes to start has two neighbouring arrivals too far apart among
  its first seven sequence numbers (`TwccPlan.ReturnsExactly`). The publisher's decoder, run on those
  bytes, leaves every received packet on record with a time that is off by less than 250 k microseconds
  for the k-th packet of a feedback, and touches no other record
  (`TwccDelivery.WindowDelivered`).
- **SCTP** (RFC 4960). A sender and a receiver on a network that loses, duplicates and reorders: over
  every run each sequence number allocated is still held by the sender or was taken by the receiver
  (`SctpNetwork.RunSafe`), each is taken at most once while the receiver remembers
  (`SctpNetwork.RunOnce`). What is handed to the channels at one end is what the association carries
  (`SctpSending.HandedIsSent`), and the messages of every ordered channel, of any number of fragments, are
  told to the application at the other end exactly in order (`SctpExchange.EveryRunTells`). The session
  class is proved against the functions these runs use.
- **Jitter buffer**. The ring holds exactly its window; what every packet does to it is stated place by place
  (`JitterArrival.ConsumedExactly`). The depacketizer is given exactly the whole frames that are reached
  while they are due, and what it makes of them is handed out (`JitterHandout.HandedOut`).
  Over every run of packets, frames and reports, timestamps never go back until a reset
  (`JitterRuns.FramesInOrder`) and no packet is asked for twice while it stays (`JitterRuns.AskedOnce`).
- **SRTP bookkeeping** (sections 3.3.1 and 3.3.2 of RFC 3711). The receiver's rollover guess is right for
  exactly the indices of a window of 2^16; the replay bitmap refines a set of unwrapped indices.
- **CRC-32c** (appendix B of RFC 4960). Slicing by eight is the byte loop for every length and alignment,
  given tables that obey the recurrence (`Crc32c.ComputedExact`). One shipped entry does not; what the code
  computes all the same, and which packets it reads back as it built them, is stated exactly
  (`Crc32c.ComputedExactly`, `SctpPacket.ParseBuilt`).
- **NACK lists** (section 6.2.1 of RFC 4585). Compression is undone by expansion and is shortest.
- **H.264 and H.265** (RFC 6184, RFC 7798). A frame comes out of the depacketizer as the packetizer was
  given it, parameter sets before the first key unit, for every mix of padding and header extensions. A
  reader that joins late gives out exactly the stream from the first key frame on
  (`NalStream.JoinedStream`), and whatever is lost of other frames, every frame that arrives complete comes
  out unspoilt (`NalStream.LossyInSync`).
- **VP8 and VP9** (RFC 7741, RFC 9628). The parsers accept exactly the payload descriptors, of any shape;
  over every run the frames from the first key frame on come out as they went in
  (`VpxPackets.RunRoundTrip`).
- **RTP framing** (RFC 3550, RFC 8285, RFC 4588). Packets and their retransmissions are read back as
  written; extension data arrives unchanged exactly when it is made of elements to its last byte.

## What the proofs turned up

Each of these is a lemma that names the input, usually with the exact condition under which the code is
right:

- `generate` loops forever when a feedback starts at a received packet and two neighbouring arrivals among
  its first seven sequence numbers are out of the range of a large delta, some 8.19 seconds either way: no
  chunk fits, and an empty feedback is not flushed (`TwccPlan.FreshExactly`, `TwccPlan.StuckWindow`).
- An arrival exactly at the base time is stored as 0, which stands for lost (`TwccSubscribe.ArrivalReported`).
- A packet that follows one the publisher no longer has on record is dated from the reference time
  (`TwccReceive.DatedAfterUnknown`).
- Gap block offsets are cut to 16 bits, so a receiver more than 65535 numbers ahead acknowledges chunks
  it never got (`SctpAcks.GapBlocksExactly`, `SctpAcks.LongOffsetLies`).
- Evicting early numbers above 1024, and a repeated INIT, make chunks pass for new again
  (`SctpNetwork.EvictedIsTakenAgain`, `SctpNetwork.RepeatedInitForgets`).
- A message larger than the peer's window blocks the send queue for as long as the window stays that small
  (`SctpSession.LargeMessageStays`).
- Fragments are joined in order of arrival, so a last fragment that overtakes the first is delivered as
  half a message (`SctpReassembly.ArrivalOrderExactly`, `SctpReassembly.OvertakenFragmentCorrupts`).
- Channel control messages travel under stream sequence number 0 without using it up at the sender, but
  use it up at the receiver, which then drops the first message (`SctpReassembly.OpenTakesFirstNumber`).
- One literal of the CRC tables is wrong (`src/sctp/sctp_crc32.cpp:168`, sixth entry): the checksum of a
  block is right exactly when its byte 5 is not 0xB5 (`Crc32c.ShippedBlockExact`), that of a buffer exactly
  when the errors of its blocks cancel out, and there are packets that the code refuses though it built
  them itself (`SctpPacket.RefusedPacket`).
- The jitter buffer lets in the packet exactly `capacity` after the first one it holds, which does not fit
  (`JitterWindow.AdmittedOverfills`); and a packet older than the first one gets a wrapped-around time
  (`JitterWindow.TimeDeltaExact`).
- A packet that cuts off an unfinished frame is deleted with it, even if it starts a whole frame, which is
  then never handed out (`JitterHandout.CuttingFrameIsLost`).
- A packet from before a sequence number wrap is refused by the replay window once the newest packet is
  past the wrap (`ReplayProtection.AttributedExactly`).
- A frame whose last unit is a parameter set is sent without a marker and never comes out
  (`NalPackets.FrameRoundTrip`).
- A binary extension value of more than 255 bytes is written whole behind a length of 255; the rest is read
  as further elements (`RtpBuilder.RtpExtensionBuilder.AddBinaryValue`).
- An extension element with an empty value at the end of the list does not count as contained
  (`RtpBuilder.ListedExact`), and elements behind a padding byte are not read
  (`RtpExtensions.PaddingEndsList`).

## How the code is modelled

- Objects are classes with the source's fields; rings are arrays; lists, sets and maps are fields that
  methods reassign. Every method is tied by its `ensures` to a function of the old state, and the
  theorems are about those functions.
- The sources for H.264 and H.265 are the same code up to header bits, unit types and the video parameter
  set, and those for VP8 and VP9 up to the descriptor; there one class takes the codec as a parameter.
- Bytes are integers from 0 to 255; 16-bit and 32-bit wrap-around is written out. The CRC works on
  bit-vectors.
- Time is a parameter of every operation. Timers are fields that say whether a task is pending.
- Sequence numbers on the wire are compared, subtracted and cut exactly as in the source; ghost state
  holds the unwrapped number each stands for.
- Reference values that the code only compares or adds (64-bit counters, nanosecond times) are unbounded.
- Setting a bit that is known to be clear is written as an addition in the TWCC chunk words.

## Model

| member | source | states |
|---|---|---|
| TwccFeedback.ReadRun | src/rtp_extension_source_twcc.cpp:204-224 | a run-length word decodes to as many lost packets |
| TwccFeedback.ReadOneBit | src/rtp_extension_source_twcc.cpp:225-240 | a one-bit status vector decodes to the statuses it was built from, also when it is cut short by the end |
| TwccFeedback.ReadTwoBit | src/rtp_extension_source_twcc.cpp:241-256 | the same for a two-bit status vector |
| TwccFeedback.ReadChunk | src/rtp_extension_source_twcc.cpp:195-260 | every chunk word is read back as the statuses it was written from, for any number of packets that remain |
| TwccFeedback.ReadChunks | src/rtp_extension_source_twcc.cpp:195-260 | a whole chunk list is read back whatever follows it, as long as only the last chunk may be partial |
| TwccFeedback.ReadStamps | src/rtp_extension_source_twcc.cpp:262-288 | the delta bytes are read back as the true deltas, each truncated to 250 microseconds on its own |
| TwccFeedback.ReferenceExact | src/rtp_extension_source_twcc.cpp:174-181 | the 24-bit reference time survives if and only if it is below 2^24 units of 64 ms |
| TwccFeedback.ResolveError | src/rtp_extension_source_twcc.cpp:297-317 | times resolved from truncated deltas are off by at most 249 microseconds per received packet |
| TwccFeedback.DecodeEncode | src/rtp_extension_source_twcc.cpp:163-288 | decoding an encoded feedback gives its base, its statuses and its truncated deltas |
| TwccFeedback.RoundTrip | src/twcc_subscribe.cpp:180-200 | decoding recovers received / not received exactly, the reference time if and only if it is below 2^24 units, and the k-th received packet's time to less than 250 k microseconds |
| TwccPlan.NextPieceOk | src/twcc_subscribe.cpp:400-447 | the chunk the greedy choice takes is non-empty, well-formed and exactly the front of what is left |
| TwccPlan.NextPieceExactly | src/twcc_subscribe.cpp:405-441 | the chunk chosen, exactly: the longest run of lost packets, else a vector of small deltas if 14 packets or all there are fit in, else of large ones if 7 or all fit in, else none |
| TwccPlan.FreshExactly | src/twcc_subscribe.cpp:405-432 | a feedback that starts at a received packet can take a chunk exactly when no two neighbouring arrivals among its first seven sequence numbers are out of the range of a large delta |
| TwccPlan.StuckRepeats | src/twcc_subscribe.cpp:400-447 | with an empty builder and nothing that fits, an iteration leaves the state it found |
| TwccPlan.ReturnsExactly | src/twcc_subscribe.cpp:400-455 | the loop gets to the end of the window if and only if no feedback it comes to start at a received packet is of that kind; otherwise no number of iterations gets there |
| TwccPlan.SmoothEnds | src/twcc_subscribe.cpp:400-455 | it is enough that no neighbouring arrivals at most 6 sequence numbers apart are out of range |
| TwccPlan.StuckWindow | src/twcc_subscribe.cpp:400-447 | a window of two packets that the loop never gets out of |
| TwccPlan.FarPairPassed | src/twcc_subscribe.cpp:400-447 | a window with two such arrivals that it does get out of, as a full chunk ends between them |
| TwccPlan.IterateProgress | src/twcc_subscribe.cpp:400-455 | every turn of the loop either consumes packets or empties the builder: the termination argument |
| TwccPlan.IterateOk | src/twcc_subscribe.cpp:400-455 | every turn keeps the feedback under construction equal to the packets consumed, within the size limit |
| TwccPlan.EncodedSize | src/twcc_subscribe.cpp:170-200 | a finished feedback encodes to at most 1017 bytes |
| TwccPlan.PlanTiles | src/twcc_subscribe.cpp:380-459 | the feedbacks are consecutive, disjoint and cover exactly the window; a partial status vector only ends the last |
| TwccPlan.GenerateTiles | src/twcc_subscribe.cpp:380-459 | the feedbacks of one call: as above, each at most 1017 bytes, and each ends only when it is full, nothing fits or the window is over |
| TwccPlan.HeaderBytes | src/twcc_subscribe.cpp:180-200 | the eight header bytes of a message |
| TwccPlan.MessageCounts | src/twcc_subscribe.cpp:441-455 | the messages of a call carry consecutive feedback counts, modulo 2^8 |
| TwccPlan.GenerateDecodes | src/twcc_subscribe.cpp:380-459 | the statuses decoded from all feedbacks of a call are exactly the window's |
| TwccFeedback.WordExamples | src/twcc_subscribe.cpp:92-168 | where the bits of the three chunk words are |
| TwccBuilder.SmallHeader | src/twcc_subscribe.cpp:106-136 | the one-bit chunk word is the digits of the piece it stands for |
| TwccBuilder.LargeHeader | src/twcc_subscribe.cpp:138-168 | the two-bit chunk word is the digits of the piece it stands for |
| TwccBuilder.SmallStamps | src/twcc_subscribe.cpp:106-136 | one byte per received packet, truncated by 250 |
| TwccBuilder.LargeStamps | src/twcc_subscribe.cpp:138-168 | two bytes per received packet, truncated toward zero by 250 |
| TwccBuilder.Builder.AddNotReceivedRun | src/twcc_subscribe.cpp:92-104 | the draft grows by a run of lost packets; header and delta buffers stay its encoding |
| TwccBuilder.Builder.AddSmallDeltaRun | src/twcc_subscribe.cpp:106-136 | the draft grows by a one-bit vector; the buffers stay its encoding |
| TwccBuilder.Builder.AddLargeDeltaRun | src/twcc_subscribe.cpp:138-168 | the draft grows by a two-bit vector; the buffers stay its encoding |
| TwccBuilder.Builder.Measures | src/twcc_subscribe.cpp:170-178 | emptiness and size are those of the draft |
| TwccBuilder.Builder.Generate | src/twcc_subscribe.cpp:180-200 | the message is the encoding of the draft, and the builder is reset |
| TwccSubscribe.SavedRefinesMap | src/twcc_subscribe.cpp:268-373 | which arrivals are recorded, by their distance from the window alone, as an if and only if; then the window holds the last time of each sequence number, newest 2048 only: it refines a map; otherwise nothing changes |
| TwccSubscribe.InOrderRun | src/twcc_subscribe.cpp:268-373 | of packets that arrive in order the window holds exactly the last 2048, with their times |
| TwccSubscribe.ArrivalReported | src/twcc_subscribe.cpp:230-373 | an arrival is reported as received if and only if its time differs from the base time (0 doubles as the mark for lost) |
| TwccSubscribe.SubscribePacketHistory.SaveIncomingPacket | src/twcc_subscribe.cpp:230-373 | the ring, its bounds and every slot after a packet: exactly the saved window, or unchanged when the packet is turned away |
| TwccSubscribe.SubscribePacketHistory.Advance | src/twcc_subscribe.cpp:473-485 | drops exactly the first packets |
| TwccSubscribe.SubscribePacketHistory.PeekNotReceivedRun | src/twcc_subscribe.cpp:511-530 | the length of the leading run of lost packets, at most 8191 |
| TwccSubscribe.SubscribePacketHistory.PeekDeltaRun | src/twcc_subscribe.cpp:532-596 | the leading run whose deltas fit, with its received flags and deltas |
| TwccSubscribe.SubscribePacketHistory.Generate | src/twcc_subscribe.cpp:380-459 | whenever the loop ends, the messages are exactly the encodings of the planned feedbacks, and the history is empty on exit |
| TwccPublish.RememberExactly | src/twcc_publish.cpp:103-143 | one packet, after any gap: it is on record last, blank records between, the oldest gone above 2048, every other record what it was |
| TwccPublish.ConsecutiveRun | src/twcc_publish.cpp:103-138 | over a run of consecutive sequence numbers the history is exactly the last 2048 records, in order |
| TwccPublish.PublishPacketHistory.SaveOutgoingPacket | src/twcc_publish.cpp:103-138 | the new history: skipped numbers get blank records, the newest 2048 are kept, the packet's record is last |
| TwccPublish.PublishPacketHistory.Get | src/twcc_publish.cpp:140-157 | a record is found if and only if its number is within the window, wrapped or not, and it is the record saved |
| TwccPublish.PublishPacketHistory.GetPacketCount | src/twcc_publish.cpp:211-217 | the number of records |
| TwccReceive.WriteChunk | src/rtp_extension_source_twcc.cpp:200-259 | one chunk writes exactly its symbols at 16-bit wrapping positions, or reports a run that is too long |
| TwccReceive.ReadChunkList | src/rtp_extension_source_twcc.cpp:195-260 | the chunk loop computes the status list, leaving the rest not received after an over-long run |
| TwccReceive.RtpExtensionSourceTwcc.ReadDeltaList | src/rtp_extension_source_twcc.cpp:262-288 | the delta loop reads all deltas and marks records up to the one that is cut short |
| TwccReceive.RtpExtensionSourceTwcc.ResolveTimes | src/rtp_extension_source_twcc.cpp:297-317 | times are resolved through the previous received packet's record |
| TwccReceive.RtpExtensionSourceTwcc.OnReceivedRtcpPacket | src/rtp_extension_source_twcc.cpp:161-317 | the history after a feedback, for every byte string |
| TwccReceive.MarkAllFind | src/rtp_extension_source_twcc.cpp:262-288 | which record gets which status |
| TwccReceive.DateAllFind | src/rtp_extension_source_twcc.cpp:297-317 | which record gets which time, when every received packet is still on record |
| TwccReceive.FeedbackRecorded | src/rtp_extension_source_twcc.cpp:161-317 | each received packet's record gets its status and a time off by less than 250 k microseconds; every other record stays as it was |
| TwccReceive.DatedAfterUnknown | src/rtp_extension_source_twcc.cpp:297-317 | a packet that follows one no longer on record is dated from the reference time, which is right if and only if that one arrived at the reference time |
| TwccDelivery.TilesRecovered | src/rtp_extension_source_twcc.cpp:161-317 | applying the feedbacks of a call one after the other recovers every arrival of the window |
| TwccDelivery.NothingInvented | src/rtp_extension_source_twcc.cpp:161-317 | no feedback of a call touches the record of a packet that did not arrive |
| TwccDelivery.WindowDelivered | src/rtp_extension_source_twcc.cpp:161-317 | end to end: from the subscriber's window to the publisher's records, with the error bound, across sequence number wrap |
| SctpSerial.SerialOrder | src/sctp/sctp_session.cpp:514-515 | the signed 32-bit comparison of sequence numbers orders chunks within 2^31 of each other |
| SctpSerial.SerialOffset | src/sctp/sctp_session.cpp:704-704 | the 16-bit offset is the distance modulo 2^16 |
| SctpAcks.DuplicateMeans | src/sctp/sctp_session.cpp:513-519 | a chunk passes for a duplicate if and only if it has arrived |
| SctpAcks.AdvanceStands | src/sctp/sctp_session.cpp:521-530 | draining the set moves the cumulative number over exactly the chunks that have become consecutive |
| SctpAcks.TakeStands | src/sctp/sctp_session.cpp:513-536 | after any chunk within reach the state stands for what had arrived and the chunk, less at most one evicted number |
| SctpAcks.TakenExactly | src/sctp/sctp_session.cpp:521-536 | without eviction no chunk is forgotten and none invented |
| SctpAcks.BlocksExact | src/sctp/sctp_session.cpp:762-785 | gap blocks are ascending, separated and hold exactly the offsets they were made from |
| SctpAcks.GapBlocksExactly | src/sctp/sctp_session.cpp:752-796 | the gap blocks report exactly the numbers received early if and only if all lie within 65535 of the cumulative number |
| SctpAcks.SackExact | src/sctp/sctp_session.cpp:752-796 | the acknowledgement says exactly what has arrived |
| SctpAcks.LongOffsetLies | src/sctp/sctp_session.cpp:771-771 | an offset beyond 16 bits acknowledges another chunk |
| SctpSender.SackKeepsUnacked | src/sctp/sctp_session.cpp:687-712 | the walks for the cumulative number and all gap blocks remove exactly the chunks acknowledged |
| SctpSender.PassesSum | src/sctp/sctp_session.cpp:687-712 | the flight size stays the sum of the sizes in the list; the clamp to 0 is never used |
| SctpNetwork.SendKeeps | src/sctp/sctp_session.cpp:153-168 | sending keeps the list strictly increasing, the flight size exact and the timer running |
| SctpNetwork.SackKeeps | src/sctp/sctp_session.cpp:686-725 | whatever an acknowledgement says, the same holds after it |
| SctpNetwork.RetransmitsOldest | src/sctp/sctp_session.cpp:727-739 | a retransmission is the oldest chunk not acknowledged |
| SctpNetwork.AckedMeans | src/sctp/sctp_session.cpp:690-710 | a chunk counts as acknowledged if and only if the receiver had taken it |
| SctpNetwork.StepSafe | src/sctp/sctp_session.cpp:499-536 | every step keeps safety: sending, any copy of any chunk, any acknowledgement ever sent, a timeout, a repeated INIT |
| SctpNetwork.RunSafe | src/sctp/sctp_session.cpp:499-802 | over every run, each sequence number allocated is still held by the sender or was taken by the receiver |
| SctpNetwork.EveryRunSafe | src/sctp/sctp_session.cpp:499-802 | the same from the handshake on |
| SctpNetwork.RunOnce | src/sctp/sctp_session.cpp:513-536 | while no number is evicted and no INIT repeated, the receiver takes each chunk at most once and remembers all it took |
| SctpNetwork.EvictedIsTakenAgain | src/sctp/sctp_session.cpp:532-535 | a number evicted above 1024 passes for new again |
| SctpNetwork.RepeatedInitForgets | src/sctp/sctp_session.cpp:269-276 | a repeated INIT makes the chunks already counted pass for new |
| SctpNetwork.CompleteReportEmpties | src/sctp/sctp_session.cpp:687-718 | once everything has arrived the receiver's acknowledgement empties the list and stops the timer |
| SctpReassembly.DataChannelReceiveBuffer.ConsumeSsn | src/sctp/data_channel_receive_buffer.cpp:7-12 | the next number moves on if and only if it is the one consumed |
| SctpReassembly.DataChannelReceiveBuffer.Receive | src/sctp/data_channel_receive_buffer.cpp:14-59 | the buffer and the messages after a fragment, ordered or unordered |
| SctpReassembly.NextFragment | src/sctp/sctp_session.cpp:146-188 | fragments taken in order accumulate to the message itself |
| SctpReassembly.DrainReady | src/sctp/data_channel_receive_buffer.cpp:48-58 | draining outputs exactly the messages that are whole with all before them |
| SctpReassembly.EventDelivers | src/sctp/data_channel_receive_buffer.cpp:14-59 | one arrival delivers, in order, exactly what has become whole |
| SctpReassembly.OrderedDelivery | src/sctp/data_channel_receive_buffer.cpp:14-59 | over a whole run the outputs are exactly the longest prefix of messages that arrived whole, each once, across number wrap |
| SctpReassembly.UnorderedDelivery | src/sctp/data_channel_receive_buffer.cpp:47-53 | on an unordered channel a message goes out as soon as its last fragment comes, whatever else is pending |
| SctpReassembly.GatheredIs | src/sctp/data_channel_receive_buffer.cpp:20-45 | what is pending of a message after fragments in any order: what has come since the latest first fragment, joined; complete once the last has come |
| SctpReassembly.ArrivalOrderExactly | src/sctp/data_channel_receive_buffer.cpp:14-59 | for a message of any number of fragments in any order, repeated or missing: what the buffer outputs, and that it is the message sent exactly when what came from the latest first fragment to the first arrival of the last one joins to its data |
| SctpReassembly.OvertakenFragmentCorrupts | src/sctp/data_channel_receive_buffer.cpp:30-45 | so a last fragment of two that overtakes the first delivers half a message, and the other half never |
| SctpReassembly.OpenTakesFirstNumber | src/sctp/sctp_session.cpp:461-497 | a receiver that consumed number 0 for the channel's open message drops the opener's first message and delivers the rest |
| SctpDelivery.StreamDelivered | src/sctp/sctp_session.cpp:499-555 | end to end, for every ordered stream among many and messages of any number of fragments: if the network keeps the fragments of each message in order, the application has received exactly the messages that have come whole with all the ones before them, in order, each once, whatever else is lost, repeated or overtaken |
| SctpDelivery.EveryRunDelivers | src/sctp/sctp_session.cpp:499-555 | the same over every run from the handshake on |
| SctpDelivery.TurnIs | src/sctp/sctp_session.cpp:146-188 | the next chunk taken of a message is its next fragment |
| SctpDelivery.RunKeepsOrder | src/sctp/sctp_session.cpp:499-536 | the distance and the order of fragments hold over every run whose steps keep them |
| SctpSession.RetransmitDelay | src/sctp/sctp_session.cpp:20-30 | the loop computes the delay |
| SctpSession.DelayGrows | src/sctp/sctp_session.cpp:20-30 | 250 ms at first, half as long again each time, 60 s at most |
| SctpChannels.OpenRoundTrip | src/sctp/sctp_session.cpp:461-480 | the channel name in an open message is read back if and only if it is shorter than 2^16 |
| SctpChannels.MessageSent | src/sctp/sctp_session.cpp:128-188 | without naming the send functions: a message goes on the wire and into the list as exactly its chunks, in order, under consecutive TSNs, with the channel's stream and sequence number, the identifier of its kind, parts of 1100 bytes and the first and last marked; the parts joined are the message |
| SctpChannels.TransmitSends | src/sctp/sctp_session.cpp:195-214 | a front part of the queue leaves; of it every message with an open channel goes out, in order; what stays starts with one for which the window has no room |
| SctpChannels.CanSendExactly | src/sctp/sctp_session.cpp:200-205 | a message can be sent exactly when the first channel of its name is open |
| SctpChannels.OpensSent | src/sctp/sctp_session.cpp:454-497 | the open messages go on the wire, one for each channel |
| SctpChannels.ChannelHandshake | src/sctp/sctp_session.cpp:557-616 | an open message makes the peer add an open channel of that name and answer; the answer opens the channel that waits for it; both tell their application and both have used up sequence number 0 |
| SctpChannels.PeerOpens | src/sctp/sctp_session.cpp:571-616 | any open message of RFC 8832, with any priority, reliability and protocol, makes an open channel of its label whose order is as its type says, and is answered; only sequence number 0 is used up |
| SctpChannels.TransmitWithinWindow | src/sctp/sctp_session.cpp:195-214 | sending from the queue never takes the bytes in flight past the peer's window |
| SctpChannels.LargeMessageBlocks | src/sctp/sctp_session.cpp:195-214 | the queue stands still if and only if its first message does not fit, as one larger than the window never does |
| SctpChannels.LargeMessageStays | src/sctp/sctp_session.cpp:120-125 | over every run of acknowledgements and new messages in which the peer's window stays smaller than the first message, nothing leaves the queue |
| SctpSession.SctpSession.SendFragment | src/sctp/sctp_session.cpp:153-169 | one DATA chunk goes on the wire and into the list; next number and flight size |
| SctpSession.SctpSession.SendFragments | src/sctp/sctp_session.cpp:171-188 | a message leaves as its fragments, in order, under consecutive numbers |
| SctpSession.SctpSession.SendMessageNow | src/sctp/sctp_session.cpp:128-193 | exactly the chunks of the message go on the wire, the stream number moves on, the timer runs |
| SctpSession.SctpSession.Send | src/sctp/sctp_session.cpp:100-126 | dropped, queued or sent, as state, channel, size limit and window say; when sent, exactly its chunks go on the wire |
| SctpSession.SctpSession.TransmitPending | src/sctp/sctp_session.cpp:195-214 | a front part of the queue leaves and goes on the wire as far as the window allows; the flight size stays exact |
| SctpSession.SctpSession.EraseAcked | src/sctp/sctp_session.cpp:687-712 | one walk over the list erases exactly the chunks its test covers |
| SctpSession.SctpSession.OnReceiveSack | src/sctp/sctp_session.cpp:664-725 | list, flight size, timer and queue after an acknowledgement |
| SctpSession.SctpSession.RetransmitOldest | src/sctp/sctp_session.cpp:727-750 | resends the oldest chunk and restarts the timer |
| SctpSession.SctpSession.SendSack | src/sctp/sctp_session.cpp:752-802 | the packet carries the acknowledgement of the receiver's state |
| SctpSession.SortByDistance | src/sctp/sctp_session.cpp:762-766 | sorting by distance from the cumulative number |
| SctpSession.MakeBlocks | src/sctp/sctp_session.cpp:768-785 | the block loop |
| SctpSession.SctpSession.TakeTsn | src/sctp/sctp_session.cpp:521-536 | cumulative number and early set after a new number |
| SctpSession.SctpSession.OnReceiveData | src/sctp/sctp_session.cpp:499-555 | a DATA chunk from its bytes on: ignored when too short, else acknowledged and, when new, routed or answered |
| SctpSession.SctpSession.OnReceiveDataChunk | src/sctp/sctp_session.cpp:512-616 | acknowledgement, delivery and channel control for a DATA chunk |
| SctpExchange.HearsStep | src/sctp/sctp_session.cpp:538-556 | a new chunk of user data goes through the receive buffer of the first channel of its stream, ordered or not as the channel is, and what comes out is told under its name; every other channel, and every channel for control chunks, is left alone |
| SctpExchange.ChannelHears | src/sctp/sctp_session.cpp:538-556 | over any sequence of new chunks, what is told under a channel's name is what its own receive buffer gives out for its stream |
| SctpExchange.EveryRunTells | src/sctp/sctp_session.cpp:499-556 | end to end: over every run the application is told, under an ordered channel's name, exactly the messages of its stream that have come whole with all the ones before them, once, in order, as text or binary |
| SctpSending.HandedIsSent | src/sctp/sctp_session.cpp:128-188 | whatever messages are handed to whatever channels, the association carries for every ordered channel exactly its messages, fragment by fragment, under consecutive sequence numbers |
| SctpSession.SctpSession.Start | src/sctp/sctp_session.cpp:88-91 | leaves New for CookieWait |
| SctpSession.SctpSession.SendInit | src/sctp/sctp_session.cpp:216-242 | an INIT and its timer, until nine were sent |
| SctpSession.SctpSession.T1InitFires | src/sctp/sctp_session.cpp:241-241 | the timer only ever fires before the cookie has come; it resends the INIT or gives up, and does not change the state |
| SctpSession.SctpSession.T1CookieFires | src/sctp/sctp_session.cpp:254-254 | the same for the cookie timer |
| SctpSession.SctpSession.OnReceiveInitAck | src/sctp/sctp_session.cpp:424-446 | the peer's tag, window and numbers are taken over; a cookie moves CookieWait to CookieEchoed, is echoed, and cancels the INIT timer; in any other state nothing changes |
| SctpSession.SctpSession.OnReceiveCookieAck | src/sctp/sctp_session.cpp:417-423 | the only way into Established, with both T1 timers cancelled; Established is never left |
| SctpSession.SctpSession.OnAssociationEstablished | src/sctp/sctp_session.cpp:454-497 | every channel's open message goes on the wire, in order, and the channel waits for its answer |
| SctpSession.SctpSession.OnReceiveInit | src/sctp/sctp_session.cpp:257-336 | an INIT resets the cumulative number in every state, unless the tags are equal |
| SctpSession.SctpSession.OnReceiveCookieEcho | src/sctp/sctp_session.cpp:338-379 | an authentic cookie in time is acknowledged; the state stays |
| Crc32c.CheckValue | src/sctp/sctp_crc32.cpp:423-466 | the checksum of "123456789" is 0xE3069283 |
| Crc32c.TableNext | src/sctp/sctp_crc32.cpp:424-475 | the recurrence that exact tables obey |
| Crc32c.FoldAppend | src/sctp/sctp_crc32.cpp:470-485 | piecewise updates compose over concatenation |
| Crc32c.BlockIsFold | src/sctp/sctp_crc32.cpp:436-466 | eight bytes by slicing are eight turns of the byte loop, for exact tables |
| Crc32c.TrueEntry | src/sctp/sctp_crc32.cpp:168-168 | the entry for 0xB5 in the table for byte 5 should be 0x215EC7B9 |
| Crc32c.ShippedBlockExact | src/sctp/sctp_crc32.cpp:436-466 | with the tables as shipped a block is right if and only if its byte 5 is not 0xB5 |
| Crc32c.Crc32cUpdate | src/sctp/sctp_crc32.cpp:423-489 | what the code computes, for every length and alignment |
| Crc32c.ComputedExact | src/sctp/sctp_crc32.cpp:423-489 | with any tables that obey the recurrence it is the byte loop, for every length and alignment |
| Crc32c.ComputedIs | src/sctp/sctp_crc32.cpp:423-489 | with the shipped tables it is the byte loop plus the errors of the blocks, each moved on by the bytes behind it |
| Crc32c.ComputedExactly | src/sctp/sctp_crc32.cpp:423-489 | so for every buffer it is right exactly when those errors cancel out |
| Crc32c.OneBadByte | src/sctp/sctp_crc32.cpp:436-466 | the error of a single bad block does not cancel out, wherever it is |
| SctpPacket.ParseExactly | src/sctp/sctp_packet.cpp:38-58 | the parser accepts exactly the bodies in which chunks are laid out, and finds them |
| SctpPacket.ParseFramed | src/sctp/sctp_packet.cpp:36-55 | framed and padded chunks are read back |
| SctpPacket.ParseBuilt | src/sctp/sctp_packet.cpp:9-58 | a built packet is read back, every chunk of it, if the block errors of the builder's pass over the packet and of the parser's pass over the chunks are equal, and refused otherwise |
| SctpPacket.CrcsAgreeExactly | src/sctp/sctp_packet.cpp:15-31 | one pass over the packet and three passes over its pieces give the same checksum exactly when those errors are equal |
| SctpPacket.BuiltExactly | src/sctp/sctp_packet_builder.cpp:36-56 | the checksum written is that of RFC 4960 exactly when the errors of the packet cancel out |
| SctpPacket.ParseTrue | src/sctp/sctp_packet.cpp:9-58 | a packet with the right checksum is read back exactly when the errors in its chunks cancel out |
| SctpPacket.RefusedPacket | src/sctp/sctp_packet.cpp:15-31 | packets, with any ports, tag and chunk type, that the code builds and then refuses |
| SctpPacket.SctpPacketBuilder.AddChunk | src/sctp/sctp_packet_builder.cpp:19-41 | the buffer grows by the framed, padded chunk |
| SctpPacket.SctpPacketBuilder.Build | src/sctp/sctp_packet_builder.cpp:41-57 | the checksum is patched in |
| SctpPacket.Parse | src/sctp/sctp_packet.cpp:9-58 | the parser computes the parsed packet, rejecting bad lengths and checksums |
| SctpPacket.DataRoundTrip | src/sctp/sctp_session.cpp:156-161 | a DATA body is read back |
| SctpPacket.DataExample | src/sctp/sctp_session.cpp:157-162 | a DATA body byte by byte |
| SctpPacket.SackExample | src/sctp/sctp_session.cpp:787-798 | a SACK body byte by byte |
| SctpPacket.SackRoundTrip | src/sctp/sctp_session.cpp:787-796 | a SACK body is read back |
| JitterWindow.DueMeans | src/jitter_buffer.cpp:28-32 | due means less than half a millisecond ahead, within 24 days |
| JitterWindow.ArrivalNumbered | src/jitter_buffer.cpp:181-270 | an arrival keeps the window gapless and numbered |
| JitterWindow.ArrivalLabelled | src/jitter_buffer.cpp:285-316 | no packet restarts a frame that the packet before it has opened |
| JitterArrival.ConsumedExactly | src/jitter_buffer.cpp:104-316 | which packets change nothing, start the buffer over, only count as activity, or join the window; and for those that join, every place of the window: the packet, the missing ones with their deadlines, the rest unchanged |
| JitterArrival.DeadlineMeans | src/jitter_buffer.cpp:172-177 | when a packet is due, by the clock rate |
| JitterWindow.AdmittedOverfills | src/jitter_buffer.cpp:181-245 | a packet that is let in does not fit if and only if it is exactly `capacity` after the first |
| JitterWindow.OverfillHappens | src/jitter_buffer.cpp:224-234 | that packet is let in when more than three quarters of the ring are in use |
| JitterWindow.TimeDeltaExact | src/jitter_buffer.cpp:171-173 | the time difference is right if and only if the packet is not older than the first one |
| JitterBuffer.RingPut | src/jitter_buffer.cpp:181-270 | storing a packet in or next to the window keeps every slot right |
| JitterBuffer.RingRoom | src/jitter_buffer.cpp:205-205 | the slot a new packet goes to is empty |
| JitterBuffer.RingTooLong | src/jitter_buffer.cpp:224-234 | a window longer than the ring cannot be held |
| JitterBuffer.JitterBuffer.Consume | src/jitter_buffer.cpp:102-316 | the buffer after an arrival: turned away, reset, or placed with lost items around it; slots hold exactly the window |
| JitterBuffer.JitterBuffer.FreeEverything | src/jitter_buffer.cpp:579-592 | forgets all packets and the last frame's time |
| JitterBuffer.JitterBuffer.FindMultiPacketSequence | src/jitter_buffer.cpp:698-726 | finds the end of a frame, or deletes a frame that breaks off |
| JitterBuffer.JitterBuffer.FindNextToDequeue | src/jitter_buffer.cpp:728-751 | whether a later packet is due |
| JitterBuffer.JitterBuffer.AppendToResult | src/jitter_buffer.cpp:645-696 | frames of one list, dropped when older than the last frame |
| JitterBuffer.JitterBuffer.ProcessDeque | src/jitter_buffer.cpp:419-533 | frames, packet lists, window and last time after a call |
| JitterHandout.HandedOut | src/jitter_buffer.cpp:432-529 | without naming the turns: from the front on, every whole frame reached while its first packet is due is handed to the depacketizer, and nothing else is; what is given up starts no whole frame; and where a call leaves off |
| JitterHandout.FramesHandedOut | src/jitter_buffer.cpp:645-696 | the frames of a call are those the depacketizer makes of its lists, one for each byte string, in order, less only the lists older than the last frame |
| JitterDequeue.FrameTimes | src/jitter_buffer.cpp:687-688 | how long the packets of a frame took to arrive and how long ago the last one came, to the nearest millisecond, up to 23 days |
| JitterHandout.CuttingFrameIsLost | src/jitter_buffer.cpp:717-721 | a packet that cuts off an unfinished frame goes with it: a whole frame that it starts is never handed out |
| JitterBuffer.JitterBuffer.ProcessNack | src/jitter_buffer.cpp:535-577 | the list reported and the marks it leaves |
| JitterDequeue.TurnSound | src/jitter_buffer.cpp:432-529 | every turn of the loop keeps soundness |
| JitterDequeue.DequeueSound | src/jitter_buffer.cpp:419-533 | the depacketizer is given whole frames only, in order; sequence numbers and timestamps never go back; what is left is the end of the window; nothing due is left waiting except behind a gap |
| JitterDequeue.DequeueKeepsTime | src/jitter_buffer.cpp:645-660 | the frames of one call go on where those of the calls before it ended |
| JitterRuns.TimeNeverGoesBack | src/jitter_buffer.cpp:102-533 | over every run of packets, frames and reports, the frames handed out since the last reset never go back in time |
| JitterRuns.FramesInOrder | src/jitter_buffer.cpp:102-533 | between two resets no call hands out a frame older than any handed out by the calls before it |
| JitterDequeue.AbandonedMeans | src/jitter_buffer.cpp:717-721 | a due frame is given up only at a packet of another frame |
| JitterArrival.AskedMeans | src/jitter_buffer.cpp:546-574 | exactly the packets that are missing, due to be asked for and not asked for yet are reported, up to one past its deadline |
| JitterNack.AskedExactly | src/jitter_buffer.cpp:546-574 | exactly the packets reached that are lost, due and not yet asked for are reported |
| JitterNack.AskedIncreases | src/jitter_buffer.cpp:546-574 | the report is strictly increasing |
| JitterNack.OnlyMarked | src/jitter_buffer.cpp:546-574 | of the items only the marks of those reported change |
| JitterNack.SweepMarks | src/jitter_buffer.cpp:546-574 | a sweep takes the mark from the packets it asks for, and gives it to none |
| JitterRuns.EventKeepsMark | src/jitter_buffer.cpp:102-577 | no event gives a packet that stays its mark back |
| JitterRuns.AskedOnce | src/jitter_buffer.cpp:102-577 | over every run of packets, frames and reports, no packet is in two reports as long as it stays in the window |
| JitterNack.ArrivalKeepsMarks | src/jitter_buffer.cpp:102-316 | no arrival gives an item its mark back |
| JitterBuffer.NacksArrive | src/jitter_buffer.cpp:535-577 | the pairs of one report expand to the very list reported |
| ExtendedValues.ExtendedValue.Extend | src/extended_value.cpp:25-59 | the extended value and the state after it |
| ExtendedValues.ExtendExact | src/extended_value.cpp:25-59 | the extension is the true index plus a fixed offset if and only if the value is within a quarter range of the last one kept, with the stated exceptions |
| ExtendedValues.ExtendAllExact | src/extended_value.cpp:25-59 | over whole streams with bounded reordering the offset never changes |
| ExtendedValues.FirstValueFixesOffset | src/extended_value.cpp:25-59 | the first value fixes the offset |
| Rollover.RtpPacketSource.GetNextSequence | src/rtp_packet_source.cpp:30-40 | rollover * 2^16 + sequence counts on by one from the start |
| Rollover.GuessExact | src/srtp_connection.cpp:225-239 | the guess is right if and only if the index lies in a window of 2^16 fixed by the channel's last packet |
| Rollover.NearGuess | src/srtp_connection.cpp:225-239 | within 0x1000 of the last packet the guess is right and the channel follows |
| Rollover.GuessesAgree | src/srtp_connection.cpp:225-239 | over every run whose packets stay within 0x1000 of the last one kept, the receiver uses the sender's rollovers |
| ReplayProtection.AttributedExactly | src/replay_protection.cpp:64-88 | every index of the window is recognised except those behind a wrap that the newest one is past, which are refused |
| ReplayProtection.AttributedOnly | src/replay_protection.cpp:64-88 | no value is taken for anything but an index of the window that has that value and is not behind a wrap |
| ReplayProtection.MovesOn | src/replay_protection.cpp:126-135 | moving the window on by one overwrites exactly the bit of the index that leaves |
| ReplayProtection.FillsIn | src/replay_protection.cpp:116-123 | accepting an index inside the window sets exactly its bit |
| ReplayProtection.ReplayProtection.CanProceed | src/replay_protection.cpp:64-88 | a value may proceed if and only if it stands for an index of the window that was not accepted yet |
| ReplayProtection.ReplayProtection.SetForward | src/replay_protection.cpp:126-135 | the bitmap remembers the new window, across the wrap |
| ReplayProtection.ReplayProtection.Set | src/replay_protection.cpp:90-124 | the index accepted is new, and from then on it is accepted: none is accepted twice |
| NackList.CollectRun | src/util.cpp:191-195 | one run and its bit mask, on 16-bit numbers |
| NackList.CompressNackList | src/util.cpp:173-201 | the arrays hold the greedy pairs |
| NackList.MissingFrom | src/peer_candidate.cpp:1260-1276 | what the sender makes of one pair |
| NackList.PairExample | src/peer_candidate.cpp:1260-1276 | which packets the bits of a pair stand for |
| NackList.ExpandCompressed | src/peer_candidate.cpp:1260-1276 | expanding the pairs gives the list back, in order, across the wrap |
| NackList.CompressedShortest | src/util.cpp:173-201 | no shorter list of pairs covers the packets |
| AnnexB.UnitKinds | src/codec_h265.cpp:108-139 | which first bytes begin a parameter set, a key unit or a slice, for both codecs |
| AnnexB.FindNextNalu | src/codec_h264.cpp:25-40 | the scan finds the next start code and its length |
| AnnexB.NaluParser.Next | src/codec_h265.cpp:72-78 | the parser moves to the next unit |
| AnnexB.NaluParser.CurrData | src/codec_h264.cpp:96-104 | the current unit without its start code; at the end exactly for the last one |
| AnnexB.ParseStream | src/codec_h264.cpp:25-104 | units come back whatever mix of start codes separates them |
| RtpVideo.AdjustFits | src/packetizer_video.cpp:41-59 | with modest padding and extension, what fits is exactly what they leave |
| RtpVideo.PiecesStep | src/packetizer_h264.cpp:159-203 | one turn of a fragmentation loop cuts off a piece that is neither empty nor more than is left, so the loop ends |
| RtpVideo.PiecesJoin | src/packetizer_vp8.cpp:67-95 | however padding and extensions vary, the pieces joined are the data |
| RtpVideo.PiecesWellCut | src/packetizer_h264.cpp:159-204 | exactly the first piece is marked first and exactly the last one last; none is empty; in fragments no piece is both |
| RtpVideo.PiecesFit | src/packetizer_video.cpp:41-59 | with modest padding and extensions each piece fits beside them |
| RtpVideo.PiecesFull | src/packetizer_h264.cpp:159-203 | every piece but the last is as large as fits |
| NalPackets.FuHeaders | src/depacketizer_h265.cpp:95-107 | the type, layer and temporal id of a unit and both flags are rebuilt from a fragment |
| NalPackets.HeaderExamples | src/packetizer_h265.cpp:162-192 | fragment headers byte by byte |
| NalPackets.PacketKinds | src/depacketizer_h264.cpp:69-118 | by its first byte, whether a packet is a unit of its own, an aggregation, a fragment or ignored, for both codecs |
| NalPackets.ReadFragment | src/depacketizer_h264.cpp:90-111 | what a fragment leaves in the fragment buffer, and that the last one delivers the unit |
| NalPackets.ReadFragments | src/depacketizer_h264.cpp:90-111 | the fragments of a unit are read back as the unit |
| NalPackets.ReadUnit | src/depacketizer_h265.cpp:61-118 | however a unit travels it is delivered whole, with the marker if it is the last |
| NalPackets.ReadAggregate | src/depacketizer_h265.cpp:76-88 | an aggregation packet delivers all its units in order |
| NalPackets.ReadAp | src/depacketizer_h264.cpp:77-89 | the aggregation packet of the parameter sets delivers them all |
| NalPackets.UnitFits | src/packetizer_h264.cpp:126-204 | no fragment both starts and ends a unit, and with modest padding and extensions every packet of a unit fits |
| NalPackets.UnitFull | src/packetizer_h264.cpp:155-204 | with modest padding and extensions every fragment of a unit but the last fills its packet; only a first one that would take everything leaves ten bytes |
| NalPackets.ReadFrame | src/depacketizer_h264.cpp:60-217 | a frame read by a reader in sync collects its units, sets before the first key unit, and is out exactly when its last unit is sent |
| NalPackets.FrameRoundTrip | src/depacketizer_h264.cpp:60-217 | an Annex B frame comes out of a synchronised reader as one frame: its units in order with four-byte start codes, parameter sets before the first key unit, for both codecs and every choice of padding and extensions; not at all if its last unit is a parameter set |
| NalPackets.ReadFirstFrame | src/depacketizer_h265.cpp:173-215 | a frame whose first unit sent is a key unit, with the sets known, comes out whole from any state of the reader and brings it in sync |
| NalStream.InSync | src/depacketizer_h264.cpp:60-217 | over a stream of frames a reader in sync gives out every one, in order, whatever is left over of a frame before |
| NalStream.LossyInSync | src/depacketizer_h264.cpp:60-217 | whatever is lost of other frames, their last packets included, every frame that arrives complete comes out as exactly its own units |
| NalStream.LossyFromKey | src/depacketizer_h265.cpp:61-215 | the same from a frame that starts the stream, whatever the reader has seen or missed before |
| NalStream.DroppedExactly | src/depacketizer_h265.cpp:173-215 | which units are dropped, and what a unit does to the frame buffer |
| NalStream.SlicesDropped | src/depacketizer_h265.cpp:179-203 | out of sync, frames of slices leave no trace |
| NalStream.JoinedStream | src/depacketizer_h265.cpp:61-215 | a reader that joins late gives out exactly the stream from the frame that starts with a key unit, each frame once and in order |
| NalObjects.Packetizer.Generate | src/packetizer_h264.cpp:67-211 | the packets of a frame and the parameter sets kept |
| NalObjects.Packetizer.GenerateOne | src/packetizer_h265.cpp:89-216 | the packets of one unit, after the parameter sets if it is the first key unit |
| NalObjects.Packetizer.GenerateFragments | src/packetizer_h265.cpp:158-213 | the fragmentation loop |
| NalObjects.Depacketizer.Extract | src/depacketizer_h264.cpp:60-118 | frames and state after a packet list |
| NalObjects.Depacketizer.ExtractAp | src/depacketizer_h265.cpp:76-88 | the loop over an aggregation packet |
| NalObjects.Depacketizer.ExtractFu | src/depacketizer_h265.cpp:89-112 | a fragment joins the fragment buffer; the last delivers it |
| NalObjects.Depacketizer.ExtractImpl | src/depacketizer_h264.cpp:178-217 | a unit joins the frame; the marker ends it |
| VpxDescriptors.Vp8Inverse | src/depacketizer_vp8.cpp:29-85 | the parser takes off every VP8 payload descriptor, whatever follows it |
| VpxDescriptors.Vp8Only | src/depacketizer_vp8.cpp:29-85 | and what it takes off is always a descriptor: anything else is refused |
| VpxDescriptors.Vp9Inverse | src/codec_vp9.cpp:7-125 | the parser takes off every VP9 payload descriptor, with references and scalability structure, and finds its fields |
| VpxDescriptors.Vp9Only | src/codec_vp9.cpp:7-125 | and what it takes off is always a descriptor: anything else is refused |
| VpxDescriptors.RefsInverse | src/codec_vp9.cpp:71-82 | references go on while the lowest bit is set, three at most |
| VpxDescriptors.GroupInverse | src/codec_vp9.cpp:103-119 | the picture group is read back picture by picture |
| VpxPackets.HeaderIsDescriptor | src/codec_vp9.cpp:127-157 | the descriptor written says what it should: key frame, first and last packet, picture id |
| VpxPackets.HeaderExamples | src/packetizer_vp8.cpp:79-80 | descriptors byte by byte |
| VpxPackets.CarriedIsJoin | src/depacketizer_vp8.cpp:106-123 | the payloads of the packets joined are the pieces joined |
| VpxPackets.FrameRoundTrip | src/depacketizer_vp8.cpp:106-159 | a frame comes out as it went in, unless no key frame has come yet; for every choice of padding and extensions |
| VpxPackets.RunRoundTrip | src/depacketizer_vp9.cpp:27-64 | over every run of frames exactly those from the first key frame on come out, in order, across the wrap of the picture id |
| VpxPackets.PacketsMarked | src/depacketizer_vp9.cpp:66-73 | exactly the first packet of a frame is taken for a frame start, exactly the last has the marker, and with modest padding and extensions each fits |
| VpxPackets.PacketsFull | src/packetizer_vp8.cpp:74-84 | with modest padding and extensions every packet of a frame but the last is full |
| VpxObjects.ExtractVp8 | src/depacketizer_vp8.cpp:29-85 | the parser agrees with the grammar |
| VpxObjects.ParsePayloadDescriptor | src/codec_vp9.cpp:7-125 | the parser agrees with the grammar and keeps four fields |
| VpxObjects.SkipGroup | src/codec_vp9.cpp:108-118 | the loop over the picture group |
| VpxObjects.Packetizer.Generate | src/packetizer_vp9.cpp:26-93 | the packets of a frame, and the next picture id |
| VpxObjects.Depacketizer.Extract | src/depacketizer_vp9.cpp:27-64 | the frame and the key frame flag after a packet list |
| RtpExtensions.ScanSplits | src/rtp_extension.cpp:148-204 | reading elements splits the data into their encodings and a rest at which none starts |
| RtpExtensions.ScanUnique | src/rtp_extension.cpp:148-204 | there is only one such split, so elements are read back as written |
| RtpExtensions.PaddingEndsList | src/rtp_extension.cpp:171-175 | elements behind a padding byte are not read |
| RtpExtensions.TrimExact | src/rtp_extension.cpp:122-137 | trimming undoes padding with zeros exactly for data made of elements to its last byte |
| RtpExtensions.ReplacedExact | src/rtp_extension_builder.cpp:58-81 | after replacing, the value is found, every other id keeps its value, and no other element moves or changes |
| RtpExtensions.ReplacedU16 | src/rtp_extension.cpp:73-82 | the 16-bit value put in is read back, and those of other ids are what they were |
| RtpBuilder.RtpExtension.TrimPadding | src/rtp_extension.cpp:122-137 | the data is cut behind its last element |
| RtpBuilder.RtpExtension.FindAny | src/rtp_extension.cpp:106-120 | the first element with the id, if any |
| RtpBuilder.RtpExtension.FindU16 | src/rtp_extension.cpp:73-82 | the first two bytes of that element, if it has them |
| RtpBuilder.RtpExtensionBuilder.AddStringValue | src/rtp_extension_builder.cpp:17-24 | one element more, cut to 255 bytes |
| RtpBuilder.RtpExtensionBuilder.AddBinaryValue | src/rtp_extension_builder.cpp:26-32 | one element more, cut to 255 bytes, and behind it whatever elements the bytes from the 256th on happen to spell |
| RtpBuilder.RtpExtensionBuilder.AddU16Value | src/rtp_extension_builder.cpp:34-40 | one element of two bytes more |
| RtpBuilder.RtpExtensionBuilder.AddOrReplaceU16Value | src/rtp_extension_builder.cpp:58-81 | the bytes written in place replace the value of that element, or add one |
| RtpBuilder.RtpExtensionBuilder.Contains | src/rtp_extension_builder.cpp:101-114 | whether an id is in the list |
| RtpBuilder.ListedExact | src/rtp_extension_builder.cpp:101-114 | an id counts as contained exactly when an element has it that is not an empty last one |
| RtpFraming.Generate | src/rtp_packet.cpp:161-201 | the bytes of a packet |
| RtpFraming.PacketExample | src/rtp_packet.cpp:161-201 | a packet byte by byte |
| RtpFraming.WriteExtension | src/rtp_packet.cpp:11-29 | the extension rounded up to words with zeros |
| RtpFraming.FromUdpPacket | src/rtp_packet.cpp:276-336 | the packet in a datagram, or none |
| RtpFraming.AcceptedExactly | src/rtp_packet.cpp:276-336 | which datagrams are accepted |
| RtpFraming.ArrivedExact | src/rtp_packet.cpp:298-318 | an extension arrives unchanged exactly when it is empty or of a known kind and made of elements to its last byte |
| RtpFraming.RoundTrip | src/rtp_packet.cpp:161-336 | every field of a packet comes back, for every padding |
| RtpFraming.GenerateRtx | src/rtp_packet.cpp:228-264 | the bytes of a retransmission |
| RtpFraming.RtxRoundTrip | src/jitter_buffer.cpp:80-102 | a packet counts the same, by sequence number, payload, timestamp and marker, whether it arrives itself or as its retransmission |
| RtpFraming.DatagramFits | src/rtp_packet.cpp:161-201 | a datagram has the size the packetizers reckon with, so it fits exactly when they say so |

## Left out

- Sockets, event loops, DTLS, ciphers, HMAC, certificates, STUN, ICE and SDP: foreign calls and I/O. Decryption and the cookie's HMAC are parameters.
- Bandwidth, trend and round-trip estimation (`PublishPacketHistory::update`, filters): floating point heuristics.
- `TwccReceive.RtpExtensionSourceTwcc.OnReceivedRtcpPacket`: stops before `update()` and the probing timer.
- `TwccSubscribe.SubscribePacketHistory.Generate`: requires that the loop ends, which `TwccPlan.ReturnsExactly` characterises; on every other window the code loops forever.
- `SctpSession.SctpSession.Start`: requires a new session, because a second start would leave a timer that nothing cancels.
- `SctpSession.SctpSession.OnReceiveDataChunk`: channels and their receive buffers are values inside the session, so sharing of a buffer between channels is not modelled.
- RE-CONFIG (closing channels), HEARTBEAT and the verification tag check of the SCTP session: no state the theorems speak of.
- `SctpNetwork.RunSafe`: a chunk is delivered less than 2^31 numbers late and less than 2^16 early, and an acknowledgement while all unacknowledged numbers are within 2^16 of its cumulative one; beyond that the 16-bit offsets of the code lie (`SctpAcks.LongOffsetLies`).
- `SctpDelivery.StreamDelivered`: the network keeps the fragments of each message in order; `SctpReassembly.ArrivalOrderExactly` says exactly what becomes of a message when it does not.
- `JitterBuffer.JitterBuffer.Consume`: requires that the packet is not the one that does not fit; sequence numbers and timestamps come extended, as `ExtendedValues` proves, and RTX payloads unwrapped as in `RtpFraming.RtxRoundTrip`.
- `JitterBuffer.JitterBuffer.ProcessDeque`: the depacketizer is any function of all the lists it was given so far; the capture time header extension is left out.
- `getTimeoutMillis` of the jitter buffer: a hint for the event loop.
- `Crc32c.Crc32cUpdate`: the eight tables are what their recurrence gives, except for the one entry that differs; the other literals are not part of this model. Words are little-endian.
- `ReplayProtection.ReplayProtection.Set`: window sizes that are a multiple of 8 and divide the value range, as the one in use does.
- `AnnexB.FindNextNalu`: finds nothing in a buffer of fewer than four bytes, where the source's unsigned bound wraps around and it can look past the end.
- `NalObjects.Depacketizer.Extract`: all packets of a list share a timestamp; a fragment without a first one is ignored where the code would fault.
- `NalObjects.Packetizer.Generate`: SRTP overheads that leave at least 1000 bytes; no units of no bytes, whose type the code reads from a byte that is not theirs; the sequence numbers and timestamps of packets are not part of it.
- `NalPackets.UnitFits`: not claimed for the aggregation packet of the parameter sets, which the code does not limit.
- `VpxObjects.Depacketizer.Extract`: requires a packet, as the code does.
- `RtpFraming.RoundTrip`: extensions of at most 65535 words, as the length field allows; contributing sources are not read by the code and not part of the model.
- `RtpBuilder.RtpExtensionBuilder.AddOrReplaceU16Value`: requires that an element with that id has two bytes, which the code asserts.
- `isFrameStart` of H.264 and H.265, `addU32Value`, `addU64Value`, `isTimeToGenerate`, `setCodecSpecificData` (the sets start as any values): nothing the theorems need.
- AV1: not modelled; the sources for sending and receiving do not agree with each other.
