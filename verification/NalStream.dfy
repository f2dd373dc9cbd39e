// A stream of H.264 or H.265 frames from packetizer to depacketizer (src/packetizer_h264.cpp,
// src/packetizer_h265.cpp, src/depacketizer_h264.cpp, src/depacketizer_h265.cpp).
module NalStream {
  import opened Wire
  import opened AnnexB
  import opened RtpVideo
  import opened NalPackets

  datatype Frame = Frame(timestamp: nat, nalus: seq<bytes>)

  // Frames that can be sent and that end with a unit that is sent.
  ghost predicate FramesOk(codec: Codec, frames: seq<Frame>) {
    forall k :: 0 <= k < |frames| ==> StreamFrameOk(codec, frames[k].nalus)
  }

  ghost predicate StreamFrameOk(codec: Codec, nalus: seq<bytes>) {
    FrameOk(codec, nalus) && Finished(codec, nalus) && NonEmptyUnits(nalus)
  }

  ghost function Sent(codec: Codec, s: Sets, nalus: seq<bytes>, basic: nat, sources: Sources, drawn: nat): Progress
    requires basic >= 1000 && NonEmptyUnits(nalus)
  {
    PacketizeAll(codec, Progress(s, false, [], drawn), nalus, basic, sources)
  }

  // What the depacketizer gives out when it is handed the packets of one frame after another.
  ghost function ReadStream(codec: Codec, d: Depacketizer, s: Sets, frames: seq<Frame>, basic: nat, sources: Sources,
                            drawn: nat): seq<bytes>
    requires basic >= 1000 && FramesOk(codec, frames)
    decreases |frames|
  {
    if frames == [] then []
    else
      assert StreamFrameOk(codec, frames[0].nalus);
      var g := Sent(codec, s, frames[0].nalus, basic, sources, drawn);
      var r := ReadAll(codec, Reading(d, [], None), frames[0].timestamp, g.packets);
      r.out + ReadStream(codec, r.d, g.s, frames[1..], basic, sources, g.drawn)
  }

  function KeepAll(codec: Codec, s: Sets, nalus: seq<bytes>): Sets
    decreases |nalus|
  {
    if nalus == [] then s
    else if nalus[0] == [] then KeepAll(codec, s, nalus[1..])
    else KeepAll(codec, Next(codec, s, nalus[0]), nalus[1..])
  }

  // Every frame with four-byte start codes, the sets known by then before its first key unit.
  function Expected(codec: Codec, s: Sets, frames: seq<Frame>): seq<bytes>
    decreases |frames|
  {
    if frames == [] then []
    else [Flat(Emitted(codec, s, false, frames[0].nalus))] + Expected(codec, KeepAll(codec, s, frames[0].nalus), frames[1..])
  }

  lemma {:induction false} PacketizeKeeps(codec: Codec, g: Progress, nalus: seq<bytes>, basic: nat, sources: Sources)
    requires basic >= 1000 && FrameOk(codec, nalus) && NonEmptyUnits(nalus) && SetsFit(codec, g.s)
    ensures
      var g' := PacketizeAll(codec, g, nalus, basic, sources);
      g'.s == KeepAll(codec, g.s, nalus) && SetsFit(codec, g'.s)
    decreases |nalus|
  {
    hide Packetize, SetsFit, FrameUnitOk, KindOf, TypeOf;
    if nalus != [] {
      TurnState(codec, g, nalus[0], |nalus| == 1, basic, sources);
      PacketizeKeeps(codec, Packetize(codec, g, nalus[0], |nalus| == 1, basic, sources), nalus[1..], basic, sources);
    }
  }

  // What one frame of a stream does to a reader between frames.
  lemma SentState(codec: Codec, s: Sets, nalus: seq<bytes>, basic: nat, sources: Sources, drawn: nat)
    requires basic >= 1000 && StreamFrameOk(codec, nalus) && SetsFit(codec, s)
    ensures
      var g := Sent(codec, s, nalus, basic, sources, drawn);
      g.s == KeepAll(codec, s, nalus) && SetsFit(codec, g.s)
  {
    hide PacketizeAll, SetsFit, FrameOk;
    PacketizeKeeps(codec, Progress(s, false, [], drawn), nalus, basic, sources);
  }

  // Nothing has been collected of the first frame: what there is has another timestamp.
  predicate NothingLeft(d: Depacketizer, frames: seq<Frame>) {
    frames == [] || d.frame == [] || d.lastTimestamp != frames[0].timestamp
  }

  // In sync, every frame comes out, in order.
  lemma {:induction false} InSync(codec: Codec, d: Depacketizer, s: Sets, frames: seq<Frame>, basic: nat, sources: Sources,
                                  drawn: nat)
    requires basic >= 1000 && FramesOk(codec, frames) && SetsFit(codec, s)
    requires Synchronised(codec, d) && NothingLeft(d, frames)
    ensures ReadStream(codec, d, s, frames, basic, sources, drawn) == Expected(codec, s, frames)
    decreases |frames|
  {
    hide PacketizeAll, ReadAll, Flat, Emitted, SetsFit, Synchronised, FrameOk;
    if frames != [] {
      var nalus, timestamp := frames[0].nalus, frames[0].timestamp;
      assert StreamFrameOk(codec, nalus);
      var r0, g := Reading(d, [], None), Sent(codec, s, nalus, basic, sources, drawn);
      ReadNone(codec, r0, timestamp);
      SentState(codec, s, nalus, basic, sources, drawn);
      ReadFrame(codec, r0, timestamp, Progress(s, false, [], drawn), nalus, basic, sources, [], []);
      var flat := Flat(Emitted(codec, s, false, nalus));
      assert [] + flat == flat && [] + [flat] == [flat];
      InSync(codec, ReadAll(codec, r0, timestamp, g.packets).d, g.s, frames[1..], basic, sources, g.drawn);
    }
  }

  lemma ReadNone(codec: Codec, r: Reading, timestamp: nat)
    ensures ReadAll(codec, r, timestamp, []) == r
  {
  }

  // From any state between frames, a stream comes out whole from a frame that starts one.
  lemma FromKey(codec: Codec, d: Depacketizer, s: Sets, frames: seq<Frame>, basic: nat, sources: Sources, drawn: nat)
    requires basic >= 1000 && FramesOk(codec, frames) && SetsFit(codec, s) && SetsNamed(codec, s) && NothingLeft(d, frames)
    requires frames != [] && NonEmptyUnits(frames[0].nalus) && StartsStream(codec, s, frames[0].nalus)
    ensures ReadStream(codec, d, s, frames, basic, sources, drawn) == Expected(codec, s, frames)
  {
    hide PacketizeAll, ReadAll, Flat, Emitted, SetsFit, SetsNamed, Synchronised, StartsStream, FrameOk;
    var nalus, timestamp := frames[0].nalus, frames[0].timestamp;
    assert StreamFrameOk(codec, nalus);
    var r0, g := Reading(d, [], None), Sent(codec, s, nalus, basic, sources, drawn);
    ReadNone(codec, r0, timestamp);
    SentState(codec, s, nalus, basic, sources, drawn);
    ReadFirstFrame(codec, r0, timestamp, Progress(s, false, [], drawn), nalus, basic, sources, [], []);
    var flat := Flat(Emitted(codec, s, false, nalus));
    assert [] + flat == flat && [] + [flat] == [flat];
    InSync(codec, ReadAll(codec, r0, timestamp, g.packets).d, g.s, frames[1..], basic, sources, g.drawn);
  }

  // ----- Before the first key frame -----

  ghost predicate OnlySlices(codec: Codec, nalus: seq<bytes>) {
    forall k :: 0 <= k < |nalus| ==> nalus[k] != [] && KindOf(codec, TypeOf(codec, nalus[k][0])) == Slice
  }

  // Out of sync, slices leave no trace.
  lemma {:induction false} SlicesDropped(codec: Codec, r0: Reading, timestamp: nat, g: Progress, nalus: seq<bytes>,
                                         basic: nat, sources: Sources)
    requires basic >= 1000 && FrameOk(codec, nalus) && OnlySlices(codec, nalus) && NonEmptyUnits(nalus)
    requires !Synchronised(codec, r0.d) && Core(ReadAll(codec, r0, timestamp, g.packets)) == Core(r0)
    ensures Core(ReadAll(codec, r0, timestamp, PacketizeAll(codec, g, nalus, basic, sources).packets)) == Core(r0)
    decreases |nalus|
  {
    hide ReadAll, UnitPackets, KindOf, TypeOf, Synchronised, UnitOk;
    if nalus != [] {
      var nalu, atEnd := nalus[0], |nalus| == 1;
      var r, unit := ReadAll(codec, r0, timestamp, g.packets), UnitPackets(codec, nalu, atEnd, basic, sources, g.drawn).0;
      assert FrameUnitOk(codec, nalu);
      ReadAppend(codec, r0, timestamp, g.packets, unit);
      ReadUnit(codec, r, timestamp, nalu, atEnd, basic, sources, g.drawn);
      SliceDropped(codec, r, timestamp, atEnd, nalu);
      SlicesDropped(codec, r0, timestamp, Packetize(codec, g, nalu, atEnd, basic, sources), nalus[1..], basic, sources);
    }
  }

  lemma SliceDropped(codec: Codec, r: Reading, timestamp: nat, marker: bool, nalu: bytes)
    requires !Synchronised(codec, r.d) && nalu != [] && KindOf(codec, TypeOf(codec, nalu[0])) == Slice
    ensures Deliver(codec, r, timestamp, marker, nalu) == r
  {
  }

  lemma {:induction false} SlicesKeepNothing(codec: Codec, s: Sets, nalus: seq<bytes>)
    requires OnlySlices(codec, nalus)
    ensures KeepAll(codec, s, nalus) == s
    decreases |nalus|
  {
    hide KindOf, TypeOf;
    if nalus != [] {
      SlicesKeepNothing(codec, s, nalus[1..]);
    }
  }

  // A reader that joins while frames of slices only are under way gives out exactly the stream from the
  // frame that starts it, every frame once and in order, for every choice of padding and extensions.
  lemma {:induction false} JoinedStream(codec: Codec, d: Depacketizer, s: Sets, before: seq<Frame>, frames: seq<Frame>,
                                        basic: nat, sources: Sources, drawn: nat)
    requires basic >= 1000 && FramesOk(codec, before) && FramesOk(codec, frames) && FramesOk(codec, before + frames)
    requires SetsFit(codec, s) && SetsNamed(codec, s) && NothingLeft(d, frames) && !Synchronised(codec, d)
    requires forall k :: 0 <= k < |before| ==> OnlySlices(codec, before[k].nalus)
    requires frames != [] && NonEmptyUnits(frames[0].nalus) && StartsStream(codec, s, frames[0].nalus)
    ensures ReadStream(codec, d, s, before + frames, basic, sources, drawn) == Expected(codec, s, frames)
    decreases |before|
  {
    hide PacketizeAll, ReadAll, SetsFit, SetsNamed, Synchronised, StartsStream, FrameOk, OnlySlices;
    if before == [] {
      assert before + frames == frames;
      FromKey(codec, d, s, frames, basic, sources, drawn);
    } else {
      var all, nalus, timestamp := before + frames, before[0].nalus, before[0].timestamp;
      assert all[0] == before[0] && all[1..] == before[1..] + frames;
      assert StreamFrameOk(codec, nalus) && OnlySlices(codec, nalus);
      var r0, g := Reading(d, [], None), Sent(codec, s, nalus, basic, sources, drawn);
      ReadNone(codec, r0, timestamp);
      SentState(codec, s, nalus, basic, sources, drawn);
      SlicesKeepNothing(codec, s, nalus);
      SlicesDropped(codec, r0, timestamp, Progress(s, false, [], drawn), nalus, basic, sources);
      assert ReadAll(codec, r0, timestamp, g.packets).out == [];
      JoinedStream(codec, d, s, before[1..], frames, basic, sources, g.drawn);
    }
  }

  // ----- Losses -----

  // A frame of which all packets arrive, or only these, whatever they are.
  datatype Lossy = Lossy(frame: Frame, arrived: Option<seq<Rtp>>)

  ghost predicate LossyOk(codec: Codec, fs: seq<Lossy>) {
    && (forall k :: 0 <= k < |fs| ==> StreamFrameOk(codec, fs[k].frame.nalus))
    && forall j, k :: 0 <= j < k < |fs| ==> fs[j].frame.timestamp < fs[k].frame.timestamp
  }

  // What comes out of the packets of each frame.
  ghost function ReadLossy(codec: Codec, d: Depacketizer, s: Sets, fs: seq<Lossy>, basic: nat, sources: Sources,
                           drawn: nat): seq<seq<bytes>>
    requires basic >= 1000 && LossyOk(codec, fs)
    decreases |fs|
  {
    if fs == [] then []
    else
      assert StreamFrameOk(codec, fs[0].frame.nalus);
      var g := Sent(codec, s, fs[0].frame.nalus, basic, sources, drawn);
      var packets := if fs[0].arrived.Some? then fs[0].arrived.value else g.packets;
      var r := ReadAll(codec, Reading(d, [], None), fs[0].frame.timestamp, packets);
      [r.out] + ReadLossy(codec, r.d, g.s, fs[1..], basic, sources, g.drawn)
  }

  // Every frame that has arrived complete has come out as itself.
  ghost predicate Unspoilt(codec: Codec, s: Sets, fs: seq<Lossy>, outs: seq<seq<bytes>>)
    decreases |fs|
  {
    |outs| == |fs|
    && (fs != [] ==>
          && (fs[0].arrived.None? ==> outs[0] == [Flat(Emitted(codec, s, false, fs[0].frame.nalus))])
          && Unspoilt(codec, KeepAll(codec, s, fs[0].frame.nalus), fs[1..], outs[1..]))
  }

  // Nothing collected is as new as this.
  predicate Older(d: Depacketizer, timestamp: nat) { d.frame == [] || d.lastTimestamp < timestamp }

  // Any packets at all leave the reader in sync, and nothing newer than themselves.
  lemma {:induction false} AnyPackets(codec: Codec, r: Reading, timestamp: nat, ps: seq<Rtp>)
    requires Synchronised(codec, r.d) && Older(r.d, timestamp + 1)
    ensures
      var d := ReadAll(codec, r, timestamp, ps).d;
      Synchronised(codec, d) && Older(d, timestamp + 1)
    decreases |ps|
  {
    hide Deliver, DeliverAp, DeliverFu, Synchronised;
    if ps != [] {
      AnyPackets(codec, r, timestamp, ps[..|ps| - 1]);
      var before, p := ReadAll(codec, r, timestamp, ps[..|ps| - 1]), ps[|ps| - 1];
      if |p.payload| >= 2 {
        var n := HeaderLen(codec);
        AnyUnit(codec, before, timestamp, p.marker, p.payload);
        AnyAggregate(codec, before, timestamp, p.marker, p.payload[n..]);
        AnyFragment(codec, before, timestamp, p.marker, p.payload[..n], p.payload[n..]);
      }
    }
  }

  lemma AnyUnit(codec: Codec, r: Reading, timestamp: nat, marker: bool, nalu: bytes)
    requires Synchronised(codec, r.d) && Older(r.d, timestamp + 1)
    ensures
      var d := Deliver(codec, r, timestamp, marker, nalu).d;
      Synchronised(codec, d) && Older(d, timestamp + 1)
  {
    hide KindOf, TypeOf;
  }

  lemma {:induction false} AnyAggregate(codec: Codec, r: Reading, timestamp: nat, marker: bool, b: bytes)
    requires Synchronised(codec, r.d) && Older(r.d, timestamp + 1)
    ensures
      var d := DeliverAp(codec, r, timestamp, marker, b).d;
      Synchronised(codec, d) && Older(d, timestamp + 1)
    decreases |b|
  {
    hide Deliver, Synchronised;
    if |b| >= 2 {
      var size := ReadU16(b);
      if size <= |b| - 2 && size >= HeaderLen(codec) {
        AnyUnit(codec, r, timestamp, marker, b[2..2 + size]);
        AnyAggregate(codec, Deliver(codec, r, timestamp, marker, b[2..2 + size]), timestamp, marker, b[2 + size..]);
      }
    }
  }

  lemma AnyFragment(codec: Codec, r: Reading, timestamp: nat, marker: bool, indicator: bytes, b: bytes)
    requires |indicator| == HeaderLen(codec) && Synchronised(codec, r.d) && Older(r.d, timestamp + 1)
    ensures
      var d := DeliverFu(codec, r, timestamp, marker, indicator, b).d;
      Synchronised(codec, d) && Older(d, timestamp + 1)
  {
    hide Deliver, Synchronised, Rebuilt;
    if b != [] {
      var fu := if b[0] / 128 % 2 == 1 then Some(Rebuilt(codec, indicator, b[0])) else r.fu;
      if fu.Some? {
        var whole := r.(fu := Some(fu.value + b[1..]));
        AnyUnit(codec, whole, timestamp, marker, whole.fu.value);
      }
    }
  }

  // A reader in sync: whatever is lost of other frames, their last packets included, and whatever comes of
  // them all the same, every frame that arrives complete comes out as exactly its own units.
  lemma {:induction false} LossyInSync(codec: Codec, d: Depacketizer, s: Sets, fs: seq<Lossy>, basic: nat, sources: Sources,
                                       drawn: nat)
    requires basic >= 1000 && LossyOk(codec, fs) && SetsFit(codec, s) && Synchronised(codec, d)
    requires fs != [] ==> Older(d, fs[0].frame.timestamp)
    ensures Unspoilt(codec, s, fs, ReadLossy(codec, d, s, fs, basic, sources, drawn))
    decreases |fs|
  {
    hide PacketizeAll, ReadAll, Flat, Emitted, SetsFit, Synchronised, FrameOk;
    if fs != [] {
      var nalus, timestamp := fs[0].frame.nalus, fs[0].frame.timestamp;
      assert StreamFrameOk(codec, nalus);
      var r0, g := Reading(d, [], None), Sent(codec, s, nalus, basic, sources, drawn);
      var packets := if fs[0].arrived.Some? then fs[0].arrived.value else g.packets;
      SentState(codec, s, nalus, basic, sources, drawn);
      AnyPackets(codec, r0, timestamp, packets);
      ReadNone(codec, r0, timestamp);
      ReadFrame(codec, r0, timestamp, Progress(s, false, [], drawn), nalus, basic, sources, [], []);
      var flat := Flat(Emitted(codec, s, false, nalus));
      assert [] + flat == flat && [] + [flat] == [flat];
      var r := ReadAll(codec, r0, timestamp, packets);
      LossyInSync(codec, r.d, g.s, fs[1..], basic, sources, g.drawn);
      var rest := ReadLossy(codec, r.d, g.s, fs[1..], basic, sources, g.drawn);
      assert ([r.out] + rest)[1..] == rest;
    }
  }

  // The same from a frame that starts the stream, whatever the reader has seen or missed before.
  lemma LossyFromKey(codec: Codec, d: Depacketizer, s: Sets, fs: seq<Lossy>, basic: nat, sources: Sources, drawn: nat)
    requires basic >= 1000 && LossyOk(codec, fs) && SetsFit(codec, s) && SetsNamed(codec, s)
    requires fs != [] && fs[0].arrived.None? && Older(d, fs[0].frame.timestamp)
    requires NonEmptyUnits(fs[0].frame.nalus) && StartsStream(codec, s, fs[0].frame.nalus)
    ensures Unspoilt(codec, s, fs, ReadLossy(codec, d, s, fs, basic, sources, drawn))
  {
    hide PacketizeAll, ReadAll, Flat, Emitted, SetsFit, SetsNamed, Synchronised, StartsStream, FrameOk;
    var nalus, timestamp := fs[0].frame.nalus, fs[0].frame.timestamp;
    assert StreamFrameOk(codec, nalus);
    var r0, g := Reading(d, [], None), Sent(codec, s, nalus, basic, sources, drawn);
    SentState(codec, s, nalus, basic, sources, drawn);
    ReadNone(codec, r0, timestamp);
    ReadFirstFrame(codec, r0, timestamp, Progress(s, false, [], drawn), nalus, basic, sources, [], []);
    var flat := Flat(Emitted(codec, s, false, nalus));
    assert [] + flat == flat && [] + [flat] == [flat];
    var r := ReadAll(codec, r0, timestamp, g.packets);
    LossyInSync(codec, r.d, g.s, fs[1..], basic, sources, g.drawn);
    var rest := ReadLossy(codec, r.d, g.s, fs[1..], basic, sources, g.drawn);
    assert ([r.out] + rest)[1..] == rest;
  }

  // Out of sync nothing but slices is dropped: a unit joins the frame unless it is empty or such a slice.
  lemma DroppedExactly(codec: Codec, r: Reading, timestamp: nat, marker: bool, nalu: bytes)
    ensures
      var dropped := nalu == [] || (!Synchronised(codec, r.d) && KindOf(codec, TypeOf(codec, nalu[0])) == Slice);
      var start := if r.d.lastTimestamp != timestamp then [] else r.d.frame;
      var r' := Deliver(codec, r, timestamp, marker, nalu);
      if dropped then r' == r
      else
        && r'.d.lastTimestamp == timestamp && r'.d.have >= r.d.have
        && r'.d.frame == (if marker then [] else start + [0, 0, 0, 1] + nalu)
        && r'.out == r.out + if marker then [start + [0, 0, 0, 1] + nalu] else []
  {
    hide TypeOf, KindOf;
  }
}
