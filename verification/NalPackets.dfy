// H.264 and H.265 frames as RTP payloads and back (src/packetizer_h264.cpp, src/depacketizer_h264.cpp,
// src/packetizer_h265.cpp, src/depacketizer_h265.cpp); sections 5.6, 5.7.1 and 5.8 of RFC 6184 and
// section 4.4 of RFC 7798. The sources for the two codecs are the same code up to header bits, unit types
// and the video parameter set, so one model takes the codec as a parameter.
module NalPackets {
  import opened Wire
  import opened AnnexB
  import opened RtpVideo

  // Types above those of units: aggregation packets and fragments.
  function ApType(codec: Codec): nat { if codec.H264? then 24 else 48 }

  function FuType(codec: Codec): nat { if codec.H264? then 28 else 49 }

  // The largest type of a unit that travels alone.
  function MaxSingle(codec: Codec): nat { if codec.H264? then 22 else 40 }

  // ----- Headers -----

  function Nri(b: uint8): nat { b / 32 % 4 * 32 }

  function LayerId(b0: uint8, b1: uint8): nat { b0 % 2 * 32 + b1 / 8 % 32 }

  function UnitHeader(naluType: nat, layerId: nat, temporalId: nat): bytes {
    WriteU16((naluType * 512 + layerId * 8 + temporalId) % 0x1_0000)
  }

  // What a fragment starts with: the unit's header, with the type for fragments instead of its own.
  function FuIndicator(codec: Codec, nalu: bytes): (r: bytes)
    requires |nalu| >= 2
    ensures |r| == HeaderLen(codec)
  {
    match codec
    case H264 => [(Nri(nalu[0]) + FuType(codec)) % 0x100]
    case H265 => UnitHeader(FuType(codec), LayerId(nalu[0], nalu[1]), nalu[1] % 8)
  }

  function FuFlags(first: bool, last: bool, naluType: nat): uint8 {
    ((if first then 128 else 0) + (if last then 64 else 0) + naluType) % 0x100
  }

  // The type in the flag byte of a fragment.
  function FlagType(codec: Codec, flags: uint8): nat { if codec.H264? then flags % 32 else flags % 64 }

  // The header of the unit, rebuilt from a fragment.
  function Rebuilt(codec: Codec, indicator: bytes, flags: uint8): bytes
    requires |indicator| == HeaderLen(codec)
  {
    match codec
    case H264 => [(Nri(indicator[0]) + FlagType(codec, flags)) % 0x100]
    case H265 => UnitHeader(FlagType(codec, flags), ReadU16(indicator) / 8 % 64, ReadU16(indicator) % 8)
  }

  // ----- Writing -----

  function Fragment(codec: Codec, nalu: bytes, atEnd: bool, p: Piece): Rtp
    requires |nalu| >= 2
  {
    Rtp(p.last && atEnd, p.choice.padding as int, p.choice.extension,
        FuIndicator(codec, nalu) + [FuFlags(p.first, p.last, TypeOf(codec, nalu[0]))] + p.data)
  }

  function Fragments(codec: Codec, nalu: bytes, atEnd: bool, ps: seq<Piece>): seq<Rtp>
    requires |nalu| >= 2
  {
    if ps == [] then [] else [Fragment(codec, nalu, atEnd, ps[0])] + Fragments(codec, nalu, atEnd, ps[1..])
  }

  // The room for data in a fragment.
  function FuRoom(codec: Codec, basic: nat): nat
    requires basic >= 1000
  {
    basic - 1 - HeaderLen(codec)
  }

  // The pieces of a unit too large to travel alone.
  function UnitPieces(codec: Codec, nalu: bytes, basic: nat, sources: Sources, drawn: nat): seq<Piece>
    requires basic >= 1000 && |nalu| > 100
  {
    Pieces(nalu[HeaderLen(codec)..], true, FuRoom(codec, basic), true, sources, drawn)
  }

  // One unit: alone in a packet when it fits, in fragments otherwise.
  function UnitPackets(codec: Codec, nalu: bytes, atEnd: bool, basic: nat, sources: Sources, drawn: nat): (seq<Rtp>, nat)
    requires nalu != [] && basic >= 1000
  {
    var c := sources(drawn);
    AdjustPositive(basic, c);
    if AdjustPacketSize(basic, c) >= |nalu| then ([Rtp(atEnd, c.padding as int, c.extension, nalu)], drawn + 1)
    else
      var ps := UnitPieces(codec, nalu, basic, sources, drawn);
      (Fragments(codec, nalu, atEnd, ps), drawn + |ps|)
  }

  // The parameter sets, empty when not known.
  datatype Sets = Sets(vps: bytes, sps: bytes, pps: bytes)

  predicate Complete(codec: Codec, s: Sets) { s.sps != [] && s.pps != [] && (codec.H265? ==> s.vps != []) }

  function SetList(codec: Codec, s: Sets): seq<bytes> { if codec.H264? then [s.sps, s.pps] else [s.vps, s.sps, s.pps] }

  function Max(a: nat, b: nat): nat { if a < b then b else a }

  function ApHeader(codec: Codec, s: Sets): (r: bytes)
    requires Complete(codec, s)
    ensures |r| == HeaderLen(codec)
  {
    match codec
    case H264 => [(Max(Nri(s.sps[0]), Nri(s.pps[0])) + ApType(codec)) % 0x100]
    case H265 => [ApType(codec) * 2, 0]
  }

  function Aggregate(units: seq<bytes>): bytes {
    if units == [] then [] else WriteU16(|units[0]| % 0x1_0000) + units[0] + Aggregate(units[1..])
  }

  // The parameter sets in one aggregation packet.
  function ApPayload(codec: Codec, s: Sets): bytes
    requires Complete(codec, s)
  {
    ApHeader(codec, s) + Aggregate(SetList(codec, s))
  }

  // ----- A frame -----

  datatype Progress = Progress(s: Sets, added: bool, packets: seq<Rtp>, drawn: nat)

  function Keep(s: Sets, kind: Kind, nalu: bytes): Sets {
    match kind
    case Vps => s.(vps := nalu)
    case Sps => s.(sps := nalu)
    case Pps => s.(pps := nalu)
    case _ => s
  }

  // One turn of the loop over units.
  function Packetize(codec: Codec, g: Progress, nalu: bytes, atEnd: bool, basic: nat, sources: Sources): Progress
    requires nalu != [] && basic >= 1000
  {
    var kind := KindOf(codec, TypeOf(codec, nalu[0]));
    if IsParameter(kind) then g.(s := Keep(g.s, kind, nalu))
    else
      var h := if kind == Key then WithParameters(codec, g, sources) else g;
      var unit := UnitPackets(codec, nalu, atEnd, basic, sources, h.drawn);
      h.(packets := h.packets + unit.0, drawn := unit.1)
  }

  // The parameter sets go before the first key unit of a frame.
  function WithParameters(codec: Codec, g: Progress, sources: Sources): Progress {
    if !g.added && Complete(codec, g.s) then
      g.(added := true, drawn := g.drawn + 1,
         packets := g.packets + [Rtp(false, 0, sources(g.drawn).extension, ApPayload(codec, g.s))])
    else g.(added := true)
  }

  ghost predicate NonEmptyUnits(nalus: seq<bytes>) { forall k :: 0 <= k < |nalus| ==> nalus[k] != [] }

  ghost function PacketizeAll(codec: Codec, g: Progress, nalus: seq<bytes>, basic: nat, sources: Sources): Progress
    requires basic >= 1000 && NonEmptyUnits(nalus)
    decreases |nalus|
  {
    if nalus == [] then g
    else PacketizeAll(codec, Packetize(codec, g, nalus[0], |nalus| == 1, basic, sources), nalus[1..], basic, sources)
  }

  // ----- Reading -----

  // mHaveBits, mFrameBuffer, mLastRtpTimestamp
  datatype Depacketizer = Depacketizer(have: set<Kind>, frame: bytes, lastTimestamp: nat)

  const ANNEX_B: bytes := [0, 0, 0, 1]

  // The frames so far and the unit being put together from fragments, which stays there when it is done.
  datatype Reading = Reading(d: Depacketizer, out: seq<bytes>, fu: Option<bytes>)

  function Needed(codec: Codec): set<Kind> { if codec.H264? then {Sps, Pps, Key} else {Vps, Sps, Pps, Key} }

  predicate Synchronised(codec: Codec, d: Depacketizer) { Needed(codec) <= d.have }

  // Out of sync, only a slice that is not a key frame is dropped; anything else may bring it in sync.
  function Noticed(codec: Codec, d: Depacketizer, kind: Kind): Option<Depacketizer> {
    if Synchronised(codec, d) then Some(d)
    else match kind
      case Slice => None
      case Other => Some(d)
      case _ => Some(d.(have := d.have + {kind}))
  }

  // A unit joins the frame; the marker ends it.
  function Deliver(codec: Codec, r: Reading, timestamp: nat, marker: bool, nalu: bytes): Reading {
    if nalu == [] then r
    else
      var noticed := Noticed(codec, r.d, KindOf(codec, TypeOf(codec, nalu[0])));
      if noticed.None? then r
      else
        var frame := Current(r.d, timestamp) + ANNEX_B + nalu;
        if marker then r.(d := noticed.value.(frame := [], lastTimestamp := timestamp), out := r.out + [frame])
        else r.(d := noticed.value.(frame := frame, lastTimestamp := timestamp))
  }

  // What has been collected of the frame with this timestamp.
  function Current(d: Depacketizer, timestamp: nat): bytes { if d.lastTimestamp != timestamp then [] else d.frame }

  // The units of an aggregation packet. One without a whole header ends it.
  function DeliverAp(codec: Codec, r: Reading, timestamp: nat, marker: bool, b: bytes): Reading
    decreases |b|
  {
    if |b| < 2 then r
    else
      var size := ReadU16(b);
      if size > |b| - 2 || size < HeaderLen(codec) then r
      else DeliverAp(codec, Deliver(codec, r, timestamp, marker, b[2..2 + size]), timestamp, marker, b[2 + size..])
  }

  function DeliverFu(codec: Codec, r: Reading, timestamp: nat, marker: bool, indicator: bytes, b: bytes): Reading
    requires |indicator| == HeaderLen(codec)
  {
    if b == [] then r
    else
      var first, last := b[0] / 128 % 2 == 1, b[0] / 64 % 2 == 1;
      var fu := if first then Some(Rebuilt(codec, indicator, b[0])) else r.fu;
      if fu.None? then r
      else
        var whole := r.(fu := Some(fu.value + b[1..]));
        if last then Deliver(codec, whole, timestamp, marker, whole.fu.value) else whole
  }

  function ReadPacket(codec: Codec, r: Reading, timestamp: nat, p: Rtp): Reading {
    if |p.payload| < 2 then r
    else
      var naluType, n := TypeOf(codec, p.payload[0]), HeaderLen(codec);
      if naluType == ApType(codec) then DeliverAp(codec, r, timestamp, p.marker, p.payload[n..])
      else if naluType == FuType(codec) then DeliverFu(codec, r, timestamp, p.marker, p.payload[..n], p.payload[n..])
      else if naluType <= MaxSingle(codec) then Deliver(codec, r, timestamp, p.marker, p.payload)
      else r
  }

  function ReadAll(codec: Codec, r: Reading, timestamp: nat, ps: seq<Rtp>): Reading {
    if ps == [] then r else ReadPacket(codec, ReadAll(codec, r, timestamp, ps[..|ps| - 1]), timestamp, ps[|ps| - 1])
  }

  // ----- Reading undoes writing -----

  lemma {:induction false} ReadAppend(codec: Codec, r: Reading, timestamp: nat, a: seq<Rtp>, b: seq<Rtp>)
    ensures ReadAll(codec, r, timestamp, a + b) == ReadAll(codec, ReadAll(codec, r, timestamp, a), timestamp, b)
  {
    hide ReadPacket;
    if b == [] {
      assert a + b == a;
    } else {
      ReadAppend(codec, r, timestamp, a, b[..|b| - 1]);
      assert (a + b)[..|a + b| - 1] == a + b[..|b| - 1];
    }
  }

  lemma ReadOne(codec: Codec, r: Reading, timestamp: nat, p: Rtp)
    ensures ReadAll(codec, r, timestamp, [p]) == ReadPacket(codec, r, timestamp, p)
  {
    hide ReadPacket;
    assert [p][..0] == [];
  }

  // The header of a fragment gives back the unit's header and the two flags.
  lemma FuHeaders(codec: Codec, nalu: bytes, first: bool, last: bool)
    requires |nalu| >= 2 && nalu[0] < 128
    ensures
      var indicator, flags := FuIndicator(codec, nalu), FuFlags(first, last, TypeOf(codec, nalu[0]));
      && TypeOf(codec, indicator[0]) == FuType(codec)
      && Rebuilt(codec, indicator, flags) == nalu[..HeaderLen(codec)]
      && (flags / 128 % 2 == 1) == first && (flags / 64 % 2 == 1) == last
  {
    hide Nri, FuFlags;
    TypeBound(codec, nalu[0]);
    FlagByte(codec, first, last, TypeOf(codec, nalu[0]));
    if codec.H264? {
      ByteParts(nalu[0]);
      IndicatorByte(nalu[0]);
    } else {
      Headers265(nalu, FuFlags(first, last, TypeOf(codec, nalu[0])));
    }
  }

  lemma Headers265(nalu: bytes, flags: uint8)
    requires |nalu| >= 2 && nalu[0] < 128 && FlagType(H265, flags) == TypeOf(H265, nalu[0])
    ensures
      var indicator := FuIndicator(H265, nalu);
      TypeOf(H265, indicator[0]) == FuType(H265) && Rebuilt(H265, indicator, flags) == nalu[..2]
  {
    hide FlagType, WriteU16, ReadU16, LayerId;
    HeaderParts(nalu[0], nalu[1]);
    HeaderBytes(FuType(H265), nalu[0] % 2, nalu[1]);
    HeaderBytes(TypeOf(H265, nalu[0]), nalu[0] % 2, nalu[1]);
    HeaderFields(nalu[0] % 2, nalu[1]);
  }

  // The ids as the reader of a fragment finds them.
  lemma HeaderFields(low: uint8, b1: uint8)
    requires low < 2
    ensures
      var h := ReadU16([98 + low, b1]);
      h / 8 % 64 * 8 + h % 8 == low * 256 + b1
  {
  }

  lemma TypeBound(codec: Codec, b: uint8)
    requires b < 128
    ensures TypeOf(codec, b) < if codec.H264? then 32 else 64
  {
  }

  lemma ByteParts(b: uint8)
    ensures b < 128 ==> Nri(b) + b % 32 == b
  {
  }

  lemma IndicatorByte(b: uint8)
    ensures (Nri(b) + 28) % 0x100 % 32 == 28 && Nri((Nri(b) + 28) % 0x100) == Nri(b)
  {
  }

  lemma FlagByte(codec: Codec, first: bool, last: bool, naluType: nat)
    requires naluType < if codec.H264? then 32 else 64
    ensures
      var flags := FuFlags(first, last, naluType);
      && FlagType(codec, flags) == naluType && (flags / 128 % 2 == 1) == first && (flags / 64 % 2 == 1) == last
  {
  }

  // The layer and temporal ids are nine bits of the header.
  lemma HeaderParts(b0: uint8, b1: uint8)
    ensures LayerId(b0, b1) * 8 + b1 % 8 == b0 % 2 * 256 + b1
  {
  }

  lemma HeaderBytes(naluType: nat, low: nat, b1: uint8)
    requires naluType < 64 && low < 2
    ensures (naluType * 512 + (low * 256 + b1)) % 0x1_0000 == (naluType * 2 + low) * 256 + b1
    ensures WriteU16((naluType * 512 + (low * 256 + b1)) % 0x1_0000) == [naluType * 2 + low, b1]
  {
  }

  // The state a fragment leaves behind.
  lemma ReadFragment(codec: Codec, r: Reading, timestamp: nat, nalu: bytes, done: bytes, atEnd: bool, p: Piece)
    requires |nalu| >= 2 && nalu[0] < 128 && (p.last ==> nalu == done + p.data)
    requires if p.first then done == nalu[..HeaderLen(codec)] else r.fu == Some(done)
    ensures
      var r', rtp := r.(fu := Some(done + p.data)), Fragment(codec, nalu, atEnd, p);
      ReadPacket(codec, r, timestamp, rtp) == if p.last then Deliver(codec, r', timestamp, atEnd, nalu) else r'
  {
    hide Deliver, Rebuilt, FuIndicator, FuFlags;
    FuHeaders(codec, nalu, p.first, p.last);
    var indicator, flags := FuIndicator(codec, nalu), FuFlags(p.first, p.last, TypeOf(codec, nalu[0]));
    var payload, n := Fragment(codec, nalu, atEnd, p).payload, HeaderLen(codec);
    assert payload[..n] == indicator && payload[0] == indicator[0];
    assert payload[n..] == [flags] + p.data;
    assert payload[n..][1..] == p.data;
    TypesDiffer(codec);
  }

  lemma TypesDiffer(codec: Codec)
    ensures MaxSingle(codec) < ApType(codec) < FuType(codec)
  {
  }

  // However the pieces are cut, their fragments put the unit together.
  lemma {:induction false} ReadFragments(codec: Codec, r: Reading, timestamp: nat, nalu: bytes, done: bytes, data: bytes,
                                         first: bool, atEnd: bool, room: nat, sources: Sources, drawn: nat)
    requires |nalu| >= 2 && nalu[0] < 128 && nalu == done + data && data != [] && room > 0 && (first ==> |data| > 10)
    requires if first then done == nalu[..HeaderLen(codec)] else r.fu == Some(done)
    ensures ReadAll(codec, r, timestamp, Fragments(codec, nalu, atEnd, Pieces(data, first, room, true, sources, drawn)))
            == Deliver(codec, r.(fu := Some(nalu)), timestamp, atEnd, nalu)
    decreases |data|
  {
    hide Deliver, ReadPacket, Fragment, AdjustPacketSize;
    var c := sources(drawn);
    AdjustPositive(room, c);
    var size := PieceSize(room, true, c, first, |data|);
    var ps := Pieces(data, first, room, true, sources, drawn);
    var p := ps[0];
    ReadFragment(codec, r, timestamp, nalu, done, atEnd, p);
    var rest := Fragments(codec, nalu, atEnd, ps[1..]);
    ReadAppend(codec, r, timestamp, [Fragment(codec, nalu, atEnd, p)], rest);
    ReadOne(codec, r, timestamp, Fragment(codec, nalu, atEnd, p));
    if size < |data| {
      var r' := ReadPacket(codec, r, timestamp, Fragment(codec, nalu, atEnd, p));
      assert done + data[..size] + data[size..] == done + data;
      assert ps[1..] == Pieces(data[size..], false, room, true, sources, drawn + 1);
      ReadFragments(codec, r', timestamp, nalu, done + data[..size], data[size..], false, atEnd, room, sources, drawn + 1);
    } else {
      assert ps[1..] == [];
    }
  }

  // A unit that may travel alone, with a byte besides an H.264 header.
  predicate UnitOk(codec: Codec, nalu: bytes) {
    |nalu| >= 2 && nalu[0] < 128 && TypeOf(codec, nalu[0]) <= MaxSingle(codec)
  }

  // Everything but the fragment buffer.
  function Core(r: Reading): (Depacketizer, seq<bytes>) { (r.d, r.out) }

  lemma DeliverCore(codec: Codec, r: Reading, fu: Option<bytes>, timestamp: nat, marker: bool, nalu: bytes)
    ensures Core(Deliver(codec, r.(fu := fu), timestamp, marker, nalu)) == Core(Deliver(codec, r, timestamp, marker, nalu))
  {
  }

  // However a unit travels, it is delivered whole, with the marker if it is the frame's last.
  lemma ReadUnit(codec: Codec, r: Reading, timestamp: nat, nalu: bytes, atEnd: bool, basic: nat, sources: Sources,
                 drawn: nat)
    requires UnitOk(codec, nalu) && basic >= 1000
    ensures Core(ReadAll(codec, r, timestamp, UnitPackets(codec, nalu, atEnd, basic, sources, drawn).0))
            == Core(Deliver(codec, r, timestamp, atEnd, nalu))
  {
    hide Deliver, Fragments, AdjustPacketSize, Pieces;
    var c := sources(drawn);
    AdjustPositive(basic, c);
    if AdjustPacketSize(basic, c) >= |nalu| {
      TypesDiffer(codec);
      ReadOne(codec, r, timestamp, Rtp(atEnd, c.padding as int, c.extension, nalu));
    } else {
      var n := HeaderLen(codec);
      assert nalu == nalu[..n] + nalu[n..];
      ReadFragments(codec, r, timestamp, nalu, nalu[..n], nalu[n..], true, atEnd, FuRoom(codec, basic), sources, drawn);
      DeliverCore(codec, r, Some(nalu), timestamp, atEnd, nalu);
    }
  }

  // A parameter set that an aggregation packet can carry.
  predicate SetFits(codec: Codec, nalu: bytes) { HeaderLen(codec) <= |nalu| < 0x1_0000 }

  predicate SetFitsOrNone(codec: Codec, nalu: bytes) { nalu == [] || SetFits(codec, nalu) }

  ghost predicate AllFit(codec: Codec, units: seq<bytes>) { forall k :: 0 <= k < |units| ==> SetFits(codec, units[k]) }

  function DeliverEach(codec: Codec, r: Reading, timestamp: nat, units: seq<bytes>): Reading
    decreases |units|
  {
    if units == [] then r else DeliverEach(codec, Deliver(codec, r, timestamp, false, units[0]), timestamp, units[1..])
  }

  lemma {:induction false} ReadAggregate(codec: Codec, r: Reading, timestamp: nat, units: seq<bytes>)
    requires AllFit(codec, units)
    ensures DeliverAp(codec, r, timestamp, false, Aggregate(units)) == DeliverEach(codec, r, timestamp, units)
    decreases |units|
  {
    hide Deliver;
    if units != [] {
      var nalu, rest := units[0], Aggregate(units[1..]);
      var b := Aggregate(units);
      assert b == WriteU16(|nalu|) + (nalu + rest);
      ReadWriteU16(|nalu|, nalu + rest);
      assert b[2..2 + |nalu|] == nalu && b[2 + |nalu|..] == rest;
      ReadAggregate(codec, Deliver(codec, r, timestamp, false, nalu), timestamp, units[1..]);
    }
  }

  predicate SetsFit(codec: Codec, s: Sets) {
    SetFitsOrNone(codec, s.vps) && SetFitsOrNone(codec, s.sps) && SetFitsOrNone(codec, s.pps)
  }

  lemma ApHeaderByte(codec: Codec, s: Sets)
    requires Complete(codec, s)
    ensures TypeOf(codec, ApHeader(codec, s)[0]) == ApType(codec)
  {
    hide Nri;
    if codec.H264? {
      NriBound(s.sps[0]);
      NriBound(s.pps[0]);
      TypeKept(Max(Nri(s.sps[0]), Nri(s.pps[0])));
    }
  }

  lemma TypeKept(nri: nat)
    requires nri % 32 == 0 && nri <= 96
    ensures nri + 24 < 0x100 && (nri + 24) % 32 == 24
  {
  }

  lemma NriBound(b: uint8)
    ensures Nri(b) % 32 == 0 && Nri(b) <= 96
  {
  }

  lemma ReadAp(codec: Codec, r: Reading, timestamp: nat, s: Sets, extension: nat)
    requires Complete(codec, s) && SetsFit(codec, s)
    ensures ReadPacket(codec, r, timestamp, Rtp(false, 0, extension, ApPayload(codec, s)))
            == DeliverEach(codec, r, timestamp, SetList(codec, s))
  {
    hide DeliverEach, ApHeader, Aggregate, DeliverFu, DeliverAp;
    ApHeaderByte(codec, s);
    var payload, n := ApPayload(codec, s), HeaderLen(codec);
    var units := SetList(codec, s);
    assert payload[n..] == Aggregate(units);
    assert payload[0] == ApHeader(codec, s)[0];
    AggregateLong(codec, units);
    ReadAggregate(codec, r, timestamp, units);
  }

  lemma AggregateLong(codec: Codec, units: seq<bytes>)
    requires units != []
    ensures |Aggregate(units)| >= 2
  {
  }

  // ----- The frame that comes out -----

  // The units that reach the decoder: parameter sets only before the first key unit.
  function Emitted(codec: Codec, s: Sets, added: bool, nalus: seq<bytes>): seq<bytes>
    decreases |nalus|
  {
    if nalus == [] then []
    else if nalus[0] == [] then Emitted(codec, s, added, nalus[1..])
    else
      var nalu, rest := nalus[0], nalus[1..];
      var kind := KindOf(codec, TypeOf(codec, nalu[0]));
      TurnUnits(codec, s, added, kind, nalu) + Emitted(codec, Keep(s, kind, nalu), added || kind == Key, rest)
  }

  // What one unit adds.
  function TurnUnits(codec: Codec, s: Sets, added: bool, kind: Kind, nalu: bytes): seq<bytes> {
    if IsParameter(kind) then []
    else if kind == Key && !added && Complete(codec, s) then SetList(codec, s) + [nalu]
    else [nalu]
  }

  function Flat(units: seq<bytes>): bytes { if units == [] then [] else ANNEX_B + units[0] + Flat(units[1..]) }

  // In sync, with the frame so far.
  ghost predicate Collected(codec: Codec, r: Reading, timestamp: nat, frame: bytes, out: seq<bytes>) {
    Synchronised(codec, r.d) && Current(r.d, timestamp) == frame && r.out == out
  }

  // In sync, between frames.
  ghost predicate Done(codec: Codec, r: Reading, out: seq<bytes>) {
    Synchronised(codec, r.d) && r.d.frame == [] && r.out == out
  }

  // After a unit: with the marker the frame is out.
  ghost predicate After(codec: Codec, r: Reading, timestamp: nat, marker: bool, frame: bytes, out: seq<bytes>) {
    if marker then Done(codec, r, out + [frame]) else Collected(codec, r, timestamp, frame, out)
  }

  lemma DeliverCollects(codec: Codec, r: Reading, timestamp: nat, marker: bool, frame: bytes, out: seq<bytes>, nalu: bytes)
    requires Collected(codec, r, timestamp, frame, out) && nalu != []
    ensures After(codec, Deliver(codec, r, timestamp, marker, nalu), timestamp, marker, frame + (ANNEX_B + nalu), out)
  {
    hide Needed;
    assert frame + ANNEX_B + nalu == frame + (ANNEX_B + nalu);
  }

  lemma AfterCore(codec: Codec, r: Reading, r': Reading, timestamp: nat, marker: bool, frame: bytes, out: seq<bytes>)
    requires After(codec, r, timestamp, marker, frame, out) && Core(r) == Core(r')
    ensures After(codec, r', timestamp, marker, frame, out)
  {
  }

  lemma {:induction false} DeliverEachCollects(codec: Codec, r: Reading, timestamp: nat, frame: bytes, out: seq<bytes>,
                                               units: seq<bytes>)
    requires Collected(codec, r, timestamp, frame, out) && AllFit(codec, units)
    ensures Collected(codec, DeliverEach(codec, r, timestamp, units), timestamp, frame + Flat(units), out)
    decreases |units|
  {
    hide Collected, Deliver;
    if units == [] {
      assert frame + [] == frame;
    } else {
      DeliverCollects(codec, r, timestamp, false, frame, out, units[0]);
      DeliverEachCollects(codec, Deliver(codec, r, timestamp, false, units[0]), timestamp, frame + (ANNEX_B + units[0]), out, units[1..]);
      assert frame + (ANNEX_B + units[0]) + Flat(units[1..]) == frame + (ANNEX_B + units[0] + Flat(units[1..]));
    }
  }

  ghost predicate FrameOk(codec: Codec, nalus: seq<bytes>) {
    forall k :: 0 <= k < |nalus| ==> FrameUnitOk(codec, nalus[k])
  }

  predicate FrameUnitOk(codec: Codec, nalu: bytes) {
    UnitOk(codec, nalu) && (IsParameter(KindOf(codec, TypeOf(codec, nalu[0]))) ==> |nalu| < 0x1_0000)
  }

  lemma {:induction false} FlatAppend(a: seq<bytes>, b: seq<bytes>)
    ensures Flat(a + b) == Flat(a) + Flat(b)
  {
    if a == [] {
      assert a + b == b;
    } else {
      FlatAppend(a[1..], b);
      assert (a + b)[1..] == a[1..] + b;
      assert ANNEX_B + a[0] + (Flat(a[1..]) + Flat(b)) == ANNEX_B + a[0] + Flat(a[1..]) + Flat(b);
    }
  }

  lemma FlatOne(nalu: bytes)
    ensures Flat([nalu]) == ANNEX_B + nalu
  {
    var rest: seq<bytes> := [nalu][1..];
    assert rest == [];
  }

  lemma FlatNone()
    ensures Flat([]) == []
  {
  }

  // The parameter sets, when they go out.
  lemma ReadParameters(codec: Codec, r0: Reading, timestamp: nat, g: Progress, sources: Sources, frame: bytes, out: seq<bytes>)
    requires Collected(codec, ReadAll(codec, r0, timestamp, g.packets), timestamp, frame, out) && SetsFit(codec, g.s)
    ensures
      var sets := if !g.added && Complete(codec, g.s) then SetList(codec, g.s) else [];
      Collected(codec, ReadAll(codec, r0, timestamp, WithParameters(codec, g, sources).packets), timestamp, frame + Flat(sets), out)
  {
    hide Collected, Deliver, ReadPacket, ApPayload, Flat, ReadAll;
    FlatNone();
    assert frame + [] == frame;
    if !g.added && Complete(codec, g.s) {
      var r := ReadAll(codec, r0, timestamp, g.packets);
      var ap := Rtp(false, 0, sources(g.drawn).extension, ApPayload(codec, g.s));
      ReadAppend(codec, r0, timestamp, g.packets, [ap]);
      ReadOne(codec, r, timestamp, ap);
      ReadAp(codec, r, timestamp, g.s, ap.extension);
      DeliverEachCollects(codec, r, timestamp, frame, out, SetList(codec, g.s));
    }
  }

  // A unit that is not a parameter set.
  lemma ReadUnitAfter(codec: Codec, r0: Reading, timestamp: nat, packets: seq<Rtp>, nalu: bytes, atEnd: bool, basic: nat,
                      sources: Sources, drawn: nat, frame: bytes, out: seq<bytes>)
    requires Collected(codec, ReadAll(codec, r0, timestamp, packets), timestamp, frame, out)
    requires UnitOk(codec, nalu) && basic >= 1000
    ensures After(codec, ReadAll(codec, r0, timestamp, packets + UnitPackets(codec, nalu, atEnd, basic, sources, drawn).0),
                  timestamp, atEnd, frame + (ANNEX_B + nalu), out)
  {
    hide Collected, Deliver, UnitPackets, ReadAll, Core, After;
    var r, unit := ReadAll(codec, r0, timestamp, packets), UnitPackets(codec, nalu, atEnd, basic, sources, drawn).0;
    ReadAppend(codec, r0, timestamp, packets, unit);
    ReadUnit(codec, r, timestamp, nalu, atEnd, basic, sources, drawn);
    DeliverCollects(codec, r, timestamp, atEnd, frame, out, nalu);
    AfterCore(codec, Deliver(codec, r, timestamp, atEnd, nalu), ReadAll(codec, r, timestamp, unit), timestamp, atEnd,
              frame + (ANNEX_B + nalu), out);
  }

  // The marker goes with a last unit that is sent.
  predicate Ends(codec: Codec, nalu: bytes, atEnd: bool)
    requires nalu != []
  {
    atEnd && !IsParameter(KindOf(codec, TypeOf(codec, nalu[0])))
  }

  // One turn of the loop.
  lemma ReadTurn(codec: Codec, r0: Reading, timestamp: nat, g: Progress, nalu: bytes, atEnd: bool, basic: nat,
                 sources: Sources, frame: bytes, out: seq<bytes>)
    requires Collected(codec, ReadAll(codec, r0, timestamp, g.packets), timestamp, frame, out) && SetsFit(codec, g.s)
    requires UnitOk(codec, nalu) && basic >= 1000
    ensures
      var kind := KindOf(codec, TypeOf(codec, nalu[0]));
      After(codec, ReadAll(codec, r0, timestamp, Packetize(codec, g, nalu, atEnd, basic, sources).packets), timestamp,
            Ends(codec, nalu, atEnd), frame + Flat(TurnUnits(codec, g.s, g.added, kind, nalu)), out)
  {
    hide Collected, ReadAll, UnitPackets, Flat, WithParameters, KindOf, TypeOf, SetList, Done;
    FlatNone();
    assert frame + [] == frame;
    var kind := KindOf(codec, TypeOf(codec, nalu[0]));
    if !IsParameter(kind) {
      FlatOne(nalu);
      if kind == Key {
        var sets := if !g.added && Complete(codec, g.s) then SetList(codec, g.s) else [];
        ReadParameters(codec, r0, timestamp, g, sources, frame, out);
        var h := WithParameters(codec, g, sources);
        ReadUnitAfter(codec, r0, timestamp, h.packets, nalu, atEnd, basic, sources, h.drawn, frame + Flat(sets), out);
        FlatAppend(sets, [nalu]);
        assert frame + Flat(sets) + (ANNEX_B + nalu) == frame + (Flat(sets) + (ANNEX_B + nalu));
        assert [] + [nalu] == [nalu];
      } else {
        ReadUnitAfter(codec, r0, timestamp, g.packets, nalu, atEnd, basic, sources, g.drawn, frame, out);
      }
    }
  }

  lemma TurnState(codec: Codec, g: Progress, nalu: bytes, atEnd: bool, basic: nat, sources: Sources)
    requires FrameUnitOk(codec, nalu) && basic >= 1000 && SetsFit(codec, g.s)
    ensures
      var kind, g' := KindOf(codec, TypeOf(codec, nalu[0])), Packetize(codec, g, nalu, atEnd, basic, sources);
      SetsFit(codec, g'.s) && g'.added == (g.added || kind == Key) && g'.s == Keep(g.s, kind, nalu)
  {
    hide UnitPackets, ApPayload, KindOf, TypeOf;
  }

  // The last unit decides whether the frame comes out.
  predicate Finished(codec: Codec, nalus: seq<bytes>) {
    nalus != [] && nalus[|nalus| - 1] != [] && Ends(codec, nalus[|nalus| - 1], true)
  }

  lemma {:induction false} ReadFrame(codec: Codec, r0: Reading, timestamp: nat, g: Progress, nalus: seq<bytes>, basic: nat,
                                     sources: Sources, frame: bytes, out: seq<bytes>)
    requires Collected(codec, ReadAll(codec, r0, timestamp, g.packets), timestamp, frame, out) && SetsFit(codec, g.s)
    requires FrameOk(codec, nalus) && basic >= 1000 && NonEmptyUnits(nalus)
    ensures
      After(codec, ReadAll(codec, r0, timestamp, PacketizeAll(codec, g, nalus, basic, sources).packets), timestamp,
            Finished(codec, nalus), frame + Flat(Emitted(codec, g.s, g.added, nalus)), out)
    decreases |nalus|
  {
    hide Collected, ReadAll, Packetize, Flat, TurnUnits, KindOf, TypeOf, Keep, SetsFit, UnitOk, Done;
    if nalus == [] {
      FlatNone();
      assert frame + [] == frame;
    } else {
      var nalu, g' := nalus[0], Packetize(codec, g, nalus[0], |nalus| == 1, basic, sources);
      var kind := KindOf(codec, TypeOf(codec, nalu[0]));
      ReadTurn(codec, r0, timestamp, g, nalu, |nalus| == 1, basic, sources, frame, out);
      TurnState(codec, g, nalu, |nalus| == 1, basic, sources);
      var units := TurnUnits(codec, g.s, g.added, kind, nalu);
      var more := Emitted(codec, g'.s, g'.added, nalus[1..]);
      FlatAppend(units, more);
      assert frame + Flat(units) + Flat(more) == frame + (Flat(units) + Flat(more));
      if |nalus| == 1 {
        assert nalus[1..] == [] && units + [] == units;
      } else {
        ReadFrame(codec, r0, timestamp, g', nalus[1..], basic, sources, frame + Flat(units), out);
      }
    }
  }

  lemma FrameUnitsNonEmpty(codec: Codec, nalus: seq<bytes>)
    requires FrameOk(codec, nalus)
    ensures NonEmptyUnits(nalus)
  {
  }

  // Round trip: a frame in Annex B form, whatever start codes it uses, comes out of a synchronised
  // reader as one frame: its units in order with four-byte start codes, the parameter sets moved before
  // the first key unit. This holds for both codecs and every choice of padding and extensions, and whatever
  // is left over of a frame with another timestamp. A frame whose last unit is a parameter set has no marker
  // and does not come out at all.
  lemma FrameRoundTrip(codec: Codec, s: Sets, us: seq<Coded>, basic: nat, sources: Sources, drawn: nat,
                       d: Depacketizer, timestamp: nat)
    requires AllClean(us) && FrameOk(codec, Plain(us)) && SetsFit(codec, s) && basic >= 1000
    requires Synchronised(codec, d) && (d.frame == [] || d.lastTimestamp != timestamp)
    ensures
      var nalus := Nalus(Stream(us));
      && nalus == Plain(us) && NonEmptyUnits(nalus)
      && var packets := PacketizeAll(codec, Progress(s, false, [], drawn), nalus, basic, sources).packets;
         ReadAll(codec, Reading(d, [], None), timestamp, packets).out
         == if Finished(codec, nalus) then [Flat(Emitted(codec, s, false, nalus))] else []
  {
    hide PacketizeAll, Flat, Emitted, AllClean, Nalus, Stream, FrameOk, SetsFit, Finished;
    ParseStream(us);
    FrameUnitsNonEmpty(codec, Plain(us));
    var r0 := Reading(d, [], None);
    assert ReadAll(codec, r0, timestamp, []) == r0;
    ReadFrame(codec, r0, timestamp, Progress(s, false, [], drawn), Plain(us), basic, sources, [], []);
    var flat := Flat(Emitted(codec, s, false, Plain(us)));
    assert [] + flat == flat && [] + [flat] == [flat];
  }

  // ----- Joining a stream -----

  function Next(codec: Codec, s: Sets, nalu: bytes): Sets
    requires nalu != []
  {
    Keep(s, KindOf(codec, TypeOf(codec, nalu[0])), nalu)
  }

  // The first unit that is sent is a key unit, and the sets are known by then.
  ghost predicate StartsStream(codec: Codec, s: Sets, nalus: seq<bytes>)
    requires NonEmptyUnits(nalus)
    decreases |nalus|
  {
    nalus != []
    && var kind := KindOf(codec, TypeOf(codec, nalus[0][0]));
       if IsParameter(kind) then StartsStream(codec, Next(codec, s, nalus[0]), nalus[1..])
       else kind == Key && Complete(codec, s)
  }

  // Each set is of its own kind.
  predicate SetsNamed(codec: Codec, s: Sets) { NamedOrNone(codec, s.vps, Vps) && NamedOrNone(codec, s.sps, Sps) && NamedOrNone(codec, s.pps, Pps) }

  predicate NamedOrNone(codec: Codec, nalu: bytes, kind: Kind) {
    nalu == [] || KindOf(codec, TypeOf(codec, nalu[0])) == kind
  }

  // What has been collected, in sync or not.
  ghost predicate Loose(r: Reading, timestamp: nat, frame: bytes, out: seq<bytes>) {
    Current(r.d, timestamp) == frame && r.out == out
  }

  lemma DeliverNotices(codec: Codec, r: Reading, timestamp: nat, frame: bytes, out: seq<bytes>, nalu: bytes, kind: Kind)
    requires Loose(r, timestamp, frame, out) && nalu != [] && KindOf(codec, TypeOf(codec, nalu[0])) == kind
    requires kind in Needed(codec)
    ensures
      var r' := Deliver(codec, r, timestamp, false, nalu);
      Loose(r', timestamp, frame + (ANNEX_B + nalu), out) && r'.d.have >= r.d.have && kind in r'.d.have
  {
    assert frame + ANNEX_B + nalu == frame + (ANNEX_B + nalu);
  }

  // The parameter sets bring in everything but the key unit.
  lemma SetsNotice(codec: Codec, r: Reading, timestamp: nat, frame: bytes, out: seq<bytes>, s: Sets)
    requires Loose(r, timestamp, frame, out) && Complete(codec, s) && SetsNamed(codec, s)
    ensures
      var r' := DeliverEach(codec, r, timestamp, SetList(codec, s));
      Loose(r', timestamp, frame + Flat(SetList(codec, s)), out) && Needed(codec) - {Key} <= r'.d.have
  {
    hide Loose, Deliver, TypeOf, KindOf;
    var sps, pps := s.sps, s.pps;
    var r1, f1, units := r, frame, [sps, pps];
    if codec.H265? {
      DeliverNotices(codec, r, timestamp, frame, out, s.vps, Vps);
      r1, f1 := Deliver(codec, r, timestamp, false, s.vps), frame + (ANNEX_B + s.vps);
      assert SetList(codec, s)[1..] == units;
    }
    DeliverNotices(codec, r1, timestamp, f1, out, sps, Sps);
    var r2 := Deliver(codec, r1, timestamp, false, sps);
    DeliverNotices(codec, r2, timestamp, f1 + (ANNEX_B + sps), out, pps, Pps);
    DeliverTwo(codec, r1, timestamp, sps, pps);
    FlatTwo(f1, sps, pps);
    if codec.H265? {
      FlatAppend([s.vps], units);
      FlatOne(s.vps);
      assert [s.vps] + units == SetList(codec, s);
      Assoc(frame, ANNEX_B + s.vps, Flat(units));
    }
  }

  lemma DeliverTwo(codec: Codec, r: Reading, timestamp: nat, a: bytes, b: bytes)
    ensures DeliverEach(codec, r, timestamp, [a, b])
            == Deliver(codec, Deliver(codec, r, timestamp, false, a), timestamp, false, b)
  {
    hide Deliver;
    var both, last := [a, b], [b];
    assert both[1..] == last && last[1..] == [];
    var r' := Deliver(codec, r, timestamp, false, a);
    assert DeliverEach(codec, r', timestamp, last)
        == DeliverEach(codec, Deliver(codec, r', timestamp, false, b), timestamp, []);
  }

  lemma FlatTwo(frame: bytes, a: bytes, b: bytes)
    ensures frame + (ANNEX_B + a) + (ANNEX_B + b) == frame + Flat([a, b])
  {
    FlatOne(a);
    FlatOne(b);
    FlatAppend([a], [b]);
    assert [a] + [b] == [a, b];
  }

  // Then the key unit brings the reader in sync.
  lemma KeyNotices(codec: Codec, r: Reading, timestamp: nat, marker: bool, frame: bytes, out: seq<bytes>, nalu: bytes)
    requires Loose(r, timestamp, frame, out) && nalu != [] && KindOf(codec, TypeOf(codec, nalu[0])) == Key
    requires Needed(codec) - {Key} <= r.d.have
    ensures After(codec, Deliver(codec, r, timestamp, marker, nalu), timestamp, marker, frame + (ANNEX_B + nalu), out)
  {
    assert frame + ANNEX_B + nalu == frame + (ANNEX_B + nalu);
  }

  // The turn of the first key unit, from any state of the reader.
  lemma KeyTurn(codec: Codec, r0: Reading, timestamp: nat, g: Progress, nalu: bytes, atEnd: bool, basic: nat,
                sources: Sources, frame: bytes, out: seq<bytes>)
    requires Loose(ReadAll(codec, r0, timestamp, g.packets), timestamp, frame, out) && SetsFit(codec, g.s)
    requires UnitOk(codec, nalu) && KindOf(codec, TypeOf(codec, nalu[0])) == Key && basic >= 1000
    requires !g.added && Complete(codec, g.s) && SetsNamed(codec, g.s)
    ensures
      After(codec, ReadAll(codec, r0, timestamp, Packetize(codec, g, nalu, atEnd, basic, sources).packets), timestamp,
            atEnd, frame + Flat(SetList(codec, g.s) + [nalu]), out)
  {
    hide Loose, ReadAll, UnitPackets, Flat, KindOf, TypeOf, SetList, ApPayload, Deliver, DeliverEach, Core, After, ReadPacket, SetsFit, SetsNamed;
    var r, h := ReadAll(codec, r0, timestamp, g.packets), WithParameters(codec, g, sources);
    var ap := Rtp(false, 0, sources(g.drawn).extension, ApPayload(codec, g.s));
    var unit := UnitPackets(codec, nalu, atEnd, basic, sources, h.drawn).0;
    ReadAppend(codec, r0, timestamp, g.packets, [ap]);
    ReadOne(codec, r, timestamp, ap);
    ReadAp(codec, r, timestamp, g.s, ap.extension);
    SetsNotice(codec, r, timestamp, frame, out, g.s);
    var r1, f1 := DeliverEach(codec, r, timestamp, SetList(codec, g.s)), frame + Flat(SetList(codec, g.s));
    ReadAppend(codec, r0, timestamp, h.packets, unit);
    ReadUnit(codec, r1, timestamp, nalu, atEnd, basic, sources, h.drawn);
    KeyNotices(codec, r1, timestamp, atEnd, f1, out, nalu);
    AfterCore(codec, Deliver(codec, r1, timestamp, atEnd, nalu), ReadAll(codec, r1, timestamp, unit), timestamp, atEnd,
              f1 + (ANNEX_B + nalu), out);
    FlatAppend(SetList(codec, g.s), [nalu]);
    FlatOne(nalu);
    Assoc(frame, Flat(SetList(codec, g.s)), ANNEX_B + nalu);
  }

  lemma NextNamed(codec: Codec, s: Sets, nalu: bytes)
    requires SetsNamed(codec, s) && nalu != []
    ensures SetsNamed(codec, Next(codec, s, nalu))
  {
    hide TypeOf, KindOf;
  }

  // A frame that starts a stream comes out whole, whatever the reader has seen or missed before.
  lemma {:induction false} ReadFirstFrame(codec: Codec, r0: Reading, timestamp: nat, g: Progress, nalus: seq<bytes>,
                                          basic: nat, sources: Sources, frame: bytes, out: seq<bytes>)
    requires Loose(ReadAll(codec, r0, timestamp, g.packets), timestamp, frame, out)
    requires SetsFit(codec, g.s) && SetsNamed(codec, g.s) && !g.added
    requires FrameOk(codec, nalus) && basic >= 1000 && NonEmptyUnits(nalus) && StartsStream(codec, g.s, nalus)
    ensures
      After(codec, ReadAll(codec, r0, timestamp, PacketizeAll(codec, g, nalus, basic, sources).packets), timestamp,
            Finished(codec, nalus), frame + Flat(Emitted(codec, g.s, false, nalus)), out)
    decreases |nalus|
  {
    hide Loose, ReadAll, Flat, KindOf, TypeOf, Keep, SetsFit, SetsNamed, UnitOk, Done, Collected, Complete, SetList, UnitPackets, WithParameters;
    var nalu, g' := nalus[0], Packetize(codec, g, nalus[0], |nalus| == 1, basic, sources);
    var kind := KindOf(codec, TypeOf(codec, nalu[0]));
    TurnState(codec, g, nalu, |nalus| == 1, basic, sources);
    if IsParameter(kind) {
      NextNamed(codec, g.s, nalu);
      ReadFirstFrame(codec, r0, timestamp, g', nalus[1..], basic, sources, frame, out);
      assert [] + Emitted(codec, g'.s, false, nalus[1..]) == Emitted(codec, g'.s, false, nalus[1..]);
    } else {
      KeyTurn(codec, r0, timestamp, g, nalu, |nalus| == 1, basic, sources, frame, out);
      var units := SetList(codec, g.s) + [nalu];
      var more := Emitted(codec, g'.s, g'.added, nalus[1..]);
      FlatAppend(units, more);
      Assoc(frame, Flat(units), Flat(more));
      if |nalus| == 1 {
        assert nalus[1..] == [] && units + [] == units;
      } else {
        ReadFrame(codec, r0, timestamp, g', nalus[1..], basic, sources, frame + Flat(units), out);
      }
    }
  }

  // ----- Sizes -----

  // A fragment never both starts and ends a unit.
  predicate NotBothEnds(codec: Codec, p: Rtp) {
    |p.payload| > HeaderLen(codec) && TypeOf(codec, p.payload[0]) == FuType(codec) ==>
      var flags := p.payload[HeaderLen(codec)];
      !(flags / 128 % 2 == 1 && flags / 64 % 2 == 1)
  }

  // Of the packets, none starts and ends a unit; `modest` says whether the sizes are claimed too.
  ghost predicate PacketsFit(codec: Codec, packets: seq<Rtp>, basic: nat, modest: bool) {
    forall k :: 0 <= k < |packets| ==> NotBothEnds(codec, packets[k]) && (modest ==> WithinSize(packets[k], basic))
  }

  lemma {:induction false} FragmentsFit(codec: Codec, nalu: bytes, atEnd: bool, ps: seq<Piece>, room: nat, modest: bool)
    requires |nalu| >= 2 && nalu[0] < 128
    requires forall k :: 0 <= k < |ps| ==> !(ps[k].first && ps[k].last) && (modest ==> PieceFits(ps[k], room))
    ensures PacketsFit(codec, Fragments(codec, nalu, atEnd, ps), room + 1 + HeaderLen(codec), modest)
    decreases |ps|
  {
    hide FuIndicator, FuFlags, Rebuilt;
    if ps != [] {
      FuHeaders(codec, nalu, ps[0].first, ps[0].last);
      FragmentsFit(codec, nalu, atEnd, ps[1..], room, modest);
    }
  }

  // No fragment both starts and ends a unit, and with modest padding and extensions every packet fits.
  lemma UnitFits(codec: Codec, nalu: bytes, atEnd: bool, basic: nat, sources: Sources, drawn: nat)
    requires UnitOk(codec, nalu) && basic >= 1000
    ensures PacketsFit(codec, UnitPackets(codec, nalu, atEnd, basic, sources, drawn).0, basic, Modest(sources, FuRoom(codec, basic)))
  {
    hide AdjustPacketSize, Fragments, Pieces;
    var c := sources(drawn);
    AdjustPositive(basic, c);
    var modest := Modest(sources, FuRoom(codec, basic));
    if AdjustPacketSize(basic, c) < |nalu| {
      var data, room := nalu[HeaderLen(codec)..], FuRoom(codec, basic);
      PiecesWellCut(data, true, room, true, sources, drawn);
      if modest {
        PiecesFit(data, true, room, true, sources, drawn);
      }
      FragmentsFit(codec, nalu, atEnd, UnitPieces(codec, nalu, basic, sources, drawn), room, modest);
    } else if modest {
      assert ModestChoice(c, FuRoom(codec, basic));
      AdjustFits(basic, c);
    }
  }

  // With modest padding and extensions every fragment but the last fills its packet; only a first one that
  // would take everything leaves ten bytes.
  lemma UnitFull(codec: Codec, nalu: bytes, atEnd: bool, basic: nat, sources: Sources, drawn: nat, k: nat)
    requires UnitOk(codec, nalu) && basic >= 1000 && Modest(sources, FuRoom(codec, basic))
    requires k + 1 < |UnitPackets(codec, nalu, atEnd, basic, sources, drawn).0|
    ensures
      var p := UnitPackets(codec, nalu, atEnd, basic, sources, drawn).0[k];
      |p.payload| + p.padding + p.extension == basic || (k == 0 && |p.payload| == |nalu| - 9)
  {
    hide AdjustPacketSize, Pieces, FuFlags, FuIndicator;
    AdjustPositive(basic, sources(drawn));
    var room := FuRoom(codec, basic);
    var ps := UnitPieces(codec, nalu, basic, sources, drawn);
    FragmentIsAt(codec, nalu, atEnd, ps, k);
    PiecesFull(nalu[HeaderLen(codec)..], true, room, true, sources, drawn, k);
    assert ModestChoice(sources(drawn + k), room);
    AdjustFits(room, sources(drawn + k));
  }

  lemma {:induction false} FragmentIsAt(codec: Codec, nalu: bytes, atEnd: bool, ps: seq<Piece>, k: nat)
    requires |nalu| >= 2
    ensures |Fragments(codec, nalu, atEnd, ps)| == |ps|
    ensures k < |ps| ==> Fragments(codec, nalu, atEnd, ps)[k] == Fragment(codec, nalu, atEnd, ps[k])
    decreases |ps|
  {
    hide Fragment;
    if ps != [] {
      FragmentIsAt(codec, nalu, atEnd, ps[1..], if k == 0 then 0 else k - 1);
    }
  }

  // ----- Fragment headers byte by byte -----

  lemma HeaderExamples(b: uint8)
    ensures FuIndicator(H264, [0x65, b]) == [0x7C] && FuFlags(true, false, TypeOf(H264, 0x65)) == 0x85
    ensures FuIndicator(H265, [0x26, 0x01]) == [0x62, 0x01] && FuFlags(false, true, TypeOf(H265, 0x26)) == 0x53
  {
    hide Nri, LayerId, UnitHeader;
    NriExample();
    LayerExample();
    UnitExample();
  }

  // What becomes of a packet, by its first byte.
  lemma PacketKinds(r: Reading, timestamp: nat, p: Rtp)
    requires |p.payload| >= 2
    ensures
      var b := p.payload[0] % 32;
      ReadPacket(H264, r, timestamp, p)
      == if b <= 22 then Deliver(H264, r, timestamp, p.marker, p.payload)
         else if b == 24 then DeliverAp(H264, r, timestamp, p.marker, p.payload[1..])
         else if b == 28 then DeliverFu(H264, r, timestamp, p.marker, p.payload[..1], p.payload[1..])
         else r
    ensures
      var b := p.payload[0] % 128;
      ReadPacket(H265, r, timestamp, p)
      == if b < 82 then Deliver(H265, r, timestamp, p.marker, p.payload)
         else if b == 96 || b == 97 then DeliverAp(H265, r, timestamp, p.marker, p.payload[2..])
         else if b == 98 || b == 99 then DeliverFu(H265, r, timestamp, p.marker, p.payload[..2], p.payload[2..])
         else r
  {
    hide Deliver, DeliverAp, DeliverFu;
    TypeBits(p.payload[0]);
  }

  lemma NriExample()
    ensures Nri(0x65) == 0x60
  {
  }

  lemma LayerExample()
    ensures LayerId(0x26, 0x01) == 0
  {
  }

  lemma UnitExample()
    ensures UnitHeader(49, 0, 1) == [0x62, 0x01]
  {
  }
}
