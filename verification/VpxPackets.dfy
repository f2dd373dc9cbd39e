// VP8 and VP9 frames as RTP payloads and back (src/packetizer_vp8.cpp, src/packetizer_vp9.cpp,
// src/depacketizer_vp8.cpp, src/depacketizer_vp9.cpp).
module VpxPackets {
  import opened Wire
  import opened RtpVideo
  import opened VpxDescriptors

  datatype Codec = Vp8 | Vp9

  function DescriptorLen(codec: Codec): nat { if codec.Vp8? then 1 else 3 }

  // ----- Key frames -----

  predicate IsKeyVp8(frame: bytes) { |frame| >= 3 && frame[0] % 2 == 0 }

  // Two bits of marker, the profile, a reserved bit in profile 3, show_existing_frame, frame_type.
  predicate IsKeyVp9(frame: bytes) {
    && |frame| >= 1 && frame[0] / 64 == 2
    && if Bit(frame[0], 32) && Bit(frame[0], 16) then !Bit(frame[0], 4) && !Bit(frame[0], 2)
       else !Bit(frame[0], 8) && !Bit(frame[0], 4)
  }

  predicate IsKey(codec: Codec, frame: bytes) { if codec.Vp8? then IsKeyVp8(frame) else IsKeyVp9(frame) }

  // A frame that is sent at all.
  predicate Sendable(codec: Codec, frame: bytes) { |frame| >= if codec.Vp8? then 3 else 1 }

  // ----- Writing -----

  function Vp8Header(key: bool, first: bool): nat { (if key then 0 else 32) + (if first then 16 else 0) }

  function Vp9Header(key: bool, first: bool, last: bool): nat {
    0x80 + (if key then 0 else 0x40) + (if first then 8 else 0) + (if last then 4 else 0)
  }

  function Header(codec: Codec, key: bool, pictureId: nat, p: Piece): bytes
    requires pictureId < 0x8000
  {
    match codec
    case Vp8 => [Vp8Header(key, p.first)]
    case Vp9 => [Vp9Header(key, p.first, p.last), 0x80 + pictureId / 0x100, pictureId % 0x100]
  }

  function Packet(codec: Codec, key: bool, pictureId: nat, p: Piece): Rtp
    requires pictureId < 0x8000
  {
    Rtp(p.last, p.choice.padding as int, p.choice.extension, Header(codec, key, pictureId, p) + p.data)
  }

  function Packets(codec: Codec, key: bool, pictureId: nat, ps: seq<Piece>): (r: seq<Rtp>)
    requires pictureId < 0x8000
    ensures |r| == |ps|
  {
    if ps == [] then [] else [Packet(codec, key, pictureId, ps[0])] + Packets(codec, key, pictureId, ps[1..])
  }

  // The pieces of a frame; `basic` leaves room for the descriptor.
  function FramePieces(codec: Codec, frame: bytes, basic: nat, sources: Sources, drawn: nat): seq<Piece>
    requires basic > DescriptorLen(codec)
  {
    if Sendable(codec, frame) then Pieces(frame, true, basic - DescriptorLen(codec), false, sources, drawn) else []
  }

  function FramePackets(codec: Codec, frame: bytes, pictureId: nat, basic: nat, sources: Sources, drawn: nat): seq<Rtp>
    requires pictureId < 0x8000 && basic > DescriptorLen(codec)
  {
    Packets(codec, IsKey(codec, frame), pictureId, FramePieces(codec, frame, basic, sources, drawn))
  }

  // ----- Reading -----

  // The payload without its descriptor.
  function Stripped(codec: Codec, payload: bytes): Option<bytes> {
    match codec
    case Vp8 => (match ParseVp8(payload) case Failed => None case Parsed(_, rest) => Some(rest))
    case Vp9 => (match ParseVp9(payload) case Failed => None case Parsed(_, rest) => Some(rest))
  }

  // What the packets carry, if all their descriptors are well formed.
  function Carried(codec: Codec, ps: seq<Rtp>): Option<bytes> {
    if ps == [] then Some([])
    else
      var before, last := Carried(codec, ps[..|ps| - 1]), Stripped(codec, ps[|ps| - 1].payload);
      if before.Some? && last.Some? then Some(before.value + last.value) else None
  }

  // The flag says whether a key frame has been seen.
  function Read(codec: Codec, seen: bool, ps: seq<Rtp>): (bool, seq<bytes>)
    requires ps != []
  {
    match Carried(codec, ps)
    case None => (seen, [])
    case Some(frame) =>
      if frame == [] || !(seen || IsKey(codec, frame)) then (seen, [])
      else (true, if ps[|ps| - 1].marker then [frame] else [])
  }

  // ----- Reading undoes writing -----

  // The header that the packetizer writes is a descriptor: its fields are what it means.
  lemma HeaderIsDescriptor(codec: Codec, key: bool, pictureId: nat, p: Piece)
    requires pictureId < 0x8000
    ensures
      var b := Header(codec, key, pictureId, p) + p.data;
      match codec
      case Vp8 => ParseVp8(b) == Parsed(Vp8Descriptor(Vp8Header(key, p.first), None), p.data)
      case Vp9 => ParseVp9(b) == Parsed(Vp9Descriptor(!key, false, p.first, p.last, false, Some(Long(pictureId)), None, [], None), p.data)
  {
    match codec
    case Vp8 =>
    case Vp9 => {
      hide ParseVp9, EncodePicture, Vp9Flags;
      var d := Vp9Descriptor(!key, false, p.first, p.last, false, Some(Long(pictureId)), None, [], None);
      PictureBytes(pictureId);
      FlagsOf(d, key);
      Vp9Inverse(d, p.data);
    }
  }

  lemma PictureBytes(pictureId: nat)
    requires pictureId < 0x8000
    ensures EncodePicture(Some(Long(pictureId))) == [0x80 + pictureId / 0x100, pictureId % 0x100]
  {
  }

  lemma FlagsOf(d: Vp9Descriptor, key: bool)
    requires d.inter == !key && !d.flexible && d.picture.Some? && d.layers.None? && d.scalability.None? && !d.z
    ensures Vp9Flags(d) == Vp9Header(key, d.start, d.end)
  {
  }

  lemma PacketStripped(codec: Codec, key: bool, pictureId: nat, p: Piece)
    requires pictureId < 0x8000
    ensures Stripped(codec, Packet(codec, key, pictureId, p).payload) == Some(p.data)
  {
    hide ParseVp8, ParseVp9, Header;
    HeaderIsDescriptor(codec, key, pictureId, p);
  }

  lemma {:induction false} CarriedAppend(codec: Codec, a: seq<Rtp>, b: seq<Rtp>)
    requires Carried(codec, a).Some? && Carried(codec, b).Some?
    ensures Carried(codec, a + b) == Some(Carried(codec, a).value + Carried(codec, b).value)
    decreases |b|
  {
    hide Stripped;
    if b == [] {
      assert a + b == a && Carried(codec, a).value + [] == Carried(codec, a).value;
    } else {
      CarriedAppend(codec, a, b[..|b| - 1]);
      assert (a + b)[..|a + b| - 1] == a + b[..|b| - 1];
      Assoc(Carried(codec, a).value, Carried(codec, b[..|b| - 1]).value, Stripped(codec, b[|b| - 1].payload).value);
    }
  }

  lemma {:induction false} CarriedIsJoin(codec: Codec, key: bool, pictureId: nat, ps: seq<Piece>)
    requires pictureId < 0x8000
    ensures Carried(codec, Packets(codec, key, pictureId, ps)) == Some(Join(ps))
    decreases |ps|
  {
    hide Stripped, Packet;
    if ps != [] {
      var p := Packet(codec, key, pictureId, ps[0]);
      PacketStripped(codec, key, pictureId, ps[0]);
      CarriedIsJoin(codec, key, pictureId, ps[1..]);
      assert [p][..0] == [];
      assert [] + ps[0].data == ps[0].data;
      CarriedAppend(codec, [p], Packets(codec, key, pictureId, ps[1..]));
    }
  }

  lemma {:induction false} PacketAt(codec: Codec, key: bool, pictureId: nat, ps: seq<Piece>, k: nat)
    requires pictureId < 0x8000 && k < |ps|
    ensures Packets(codec, key, pictureId, ps)[k] == Packet(codec, key, pictureId, ps[k])
    decreases k
  {
    hide Packet;
    if k > 0 {
      PacketAt(codec, key, pictureId, ps[1..], k - 1);
    }
  }

  // Round trip: a frame comes out as it went in, unless no key frame has come yet. This holds for every
  // choice of padding and extensions and any room at all beside the descriptor.
  lemma FrameRoundTrip(codec: Codec, frame: bytes, pictureId: nat, basic: nat, sources: Sources, drawn: nat, seen: bool)
    requires pictureId < 0x8000 && basic > DescriptorLen(codec) && Sendable(codec, frame)
    ensures
      var packets := FramePackets(codec, frame, pictureId, basic, sources, drawn);
      && packets != []
      && Read(codec, seen, packets) == if seen || IsKey(codec, frame) then (true, [frame]) else (false, [])
  {
    hide Pieces, Packet, Packets, Carried, IsKey;
    var room, ps, key := basic - DescriptorLen(codec), FramePieces(codec, frame, basic, sources, drawn), IsKey(codec, frame);
    PiecesJoin(frame, true, room, false, sources, drawn);
    PiecesWellCut(frame, true, room, false, sources, drawn);
    CarriedIsJoin(codec, key, pictureId, ps);
    PacketAt(codec, key, pictureId, ps, |ps| - 1);
    LastMarked(codec, key, pictureId, ps[|ps| - 1]);
  }

  lemma LastMarked(codec: Codec, key: bool, pictureId: nat, p: Piece)
    requires pictureId < 0x8000
    ensures Packet(codec, key, pictureId, p).marker == p.last
  {
  }

  // ----- Runs -----

  // What a fresh depacketizer gives out when it is handed the packets of one frame after another.
  function ReadFrames(codec: Codec, seen: bool, frames: seq<bytes>, pictureId: nat, basic: nat, sources: Sources, drawn: nat)
    : seq<bytes>
    requires pictureId < 0x8000 && basic > DescriptorLen(codec)
    decreases |frames|
  {
    if frames == [] then []
    else
      var ps := FramePackets(codec, frames[0], pictureId, basic, sources, drawn);
      var r := if ps == [] then (seen, []) else Read(codec, seen, ps);
      r.1 + ReadFrames(codec, r.0, frames[1..], (pictureId + 1) % 0x8000, basic, sources, drawn + |ps|)
  }

  // From the first key frame on, the frames that can be sent.
  function FromKey(codec: Codec, seen: bool, frames: seq<bytes>): seq<bytes>
    decreases |frames|
  {
    if frames == [] then []
    else
      var now := seen || (Sendable(codec, frames[0]) && IsKey(codec, frames[0]));
      (if now && Sendable(codec, frames[0]) then [frames[0]] else []) + FromKey(codec, now, frames[1..])
  }

  // Over every run, exactly the frames from the first key frame on come out, in order, across the wrap of
  // the picture id.
  lemma {:induction false} RunRoundTrip(codec: Codec, seen: bool, frames: seq<bytes>, pictureId: nat, basic: nat,
                                        sources: Sources, drawn: nat)
    requires pictureId < 0x8000 && basic > DescriptorLen(codec)
    ensures ReadFrames(codec, seen, frames, pictureId, basic, sources, drawn) == FromKey(codec, seen, frames)
    decreases |frames|
  {
    hide FramePackets, Read, IsKey, Sendable;
    if frames != [] {
      var ps := FramePackets(codec, frames[0], pictureId, basic, sources, drawn);
      var r := if ps == [] then (seen, []) else Read(codec, seen, ps);
      RunRoundTrip(codec, r.0, frames[1..], (pictureId + 1) % 0x8000, basic, sources, drawn + |ps|);
      if Sendable(codec, frames[0]) {
        FrameRoundTrip(codec, frames[0], pictureId, basic, sources, drawn, seen);
      } else {
        NothingSent(codec, frames[0], pictureId, basic, sources, drawn);
      }
    }
  }

  lemma NothingSent(codec: Codec, frame: bytes, pictureId: nat, basic: nat, sources: Sources, drawn: nat)
    requires pictureId < 0x8000 && basic > DescriptorLen(codec) && !Sendable(codec, frame)
    ensures FramePackets(codec, frame, pictureId, basic, sources, drawn) == []
  {
  }

  // ----- What each packet says -----

  predicate StartsFrame(codec: Codec, payload: bytes) {
    payload != [] && match codec
                     case Vp8 => Bit(payload[0], 16) && payload[0] % 8 == 0
                     case Vp9 => Bit(payload[0], 8)
  }

  // Exactly the first packet of a frame is taken for the start of one, exactly the last carries the marker,
  // and with modest padding and extensions each fits.
  lemma PacketsMarked(codec: Codec, frame: bytes, pictureId: nat, basic: nat, sources: Sources, drawn: nat, k: nat)
    requires pictureId < 0x8000 && basic > DescriptorLen(codec)
    requires k < |FramePackets(codec, frame, pictureId, basic, sources, drawn)|
    ensures
      var packets := FramePackets(codec, frame, pictureId, basic, sources, drawn);
      && (StartsFrame(codec, packets[k].payload) <==> k == 0)
      && (packets[k].marker <==> k == |packets| - 1)
      && |packets[k].payload| > DescriptorLen(codec)
      && (Modest(sources, basic - DescriptorLen(codec)) ==> WithinSize(packets[k], basic))
  {
    hide Pieces, Packets, IsKey, Vp8Header, Vp9Header;
    var room, ps, key := basic - DescriptorLen(codec), FramePieces(codec, frame, basic, sources, drawn), IsKey(codec, frame);
    PiecesWellCut(frame, true, room, false, sources, drawn);
    if Modest(sources, room) {
      PiecesFit(frame, true, room, false, sources, drawn);
    }
    PacketAt(codec, key, pictureId, ps, k);
    HeaderStarts(key, ps[k].first, ps[k].last);
  }

  // With modest padding and extensions every packet but the last is full.
  lemma PacketsFull(codec: Codec, frame: bytes, pictureId: nat, basic: nat, sources: Sources, drawn: nat, k: nat)
    requires pictureId < 0x8000 && basic > DescriptorLen(codec) && Modest(sources, basic - DescriptorLen(codec))
    requires k + 1 < |FramePackets(codec, frame, pictureId, basic, sources, drawn)|
    ensures
      var p := FramePackets(codec, frame, pictureId, basic, sources, drawn)[k];
      |p.payload| + p.padding + p.extension == basic
  {
    hide Pieces, Packets, IsKey, Vp8Header, Vp9Header, AdjustPacketSize;
    var room, ps, key := basic - DescriptorLen(codec), FramePieces(codec, frame, basic, sources, drawn), IsKey(codec, frame);
    PacketAt(codec, key, pictureId, ps, k);
    PiecesFull(frame, true, room, false, sources, drawn, k);
    assert ModestChoice(sources(drawn + k), room);
    AdjustFits(room, sources(drawn + k));
  }

  lemma HeaderStarts(key: bool, first: bool, last: bool)
    ensures Bit(Vp8Header(key, first), 16) == first && Vp8Header(key, first) % 8 == 0
    ensures Bit(Vp9Header(key, first, last), 8) == first
  {
  }

  // ----- Descriptors byte by byte -----

  lemma HeaderExamples(c: Choice, data: bytes)
    ensures Header(Vp8, true, 0, Piece(true, false, c, data)) == [0x10] && Header(Vp8, false, 0, Piece(false, true, c, data)) == [0x20]
    ensures Header(Vp9, true, 0x1234, Piece(true, false, c, data)) == [0x88, 0x92, 0x34]
    ensures Header(Vp9, false, 0x1234, Piece(false, true, c, data)) == [0xC4, 0x92, 0x34]
  {
  }
}
