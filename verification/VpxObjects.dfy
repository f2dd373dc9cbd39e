// The descriptor parsers, packetizers and depacketizers of VP8 and VP9 as they run
// (src/depacketizer_vp8.cpp, src/codec_vp9.cpp, src/packetizer_vp8.cpp, src/packetizer_vp9.cpp).
module VpxObjects {
  import opened Wire
  import opened RtpVideo
  import opened VpxDescriptors
  import opened VpxPackets

  // ----- Descriptors -----

  method ExtractVp8(data: bytes) returns (ok: bool, payload: bytes)
    ensures
      match ParseVp8(data)
      case Failed => !ok
      case Parsed(_, rest) => ok && payload == rest
  {
    hide Bit;
    ok, payload := false, [];
    var rest := data;
    if |rest| < 1 {
      return;
    }
    var header := rest[0];
    rest := rest[1..];
    if header >= 0x80 {
      if |rest| < 1 {
        return;
      }
      var flags := rest[0];
      rest := rest[1..];
      if Bit(flags, 0x80) {
        if |rest| < 1 {
          return;
        }
        var pictureId0 := rest[0];
        rest := rest[1..];
        if pictureId0 >= 0x80 {
          if |rest| < 1 {
            return;
          }
          rest := rest[1..];
        }
      }
      if Bit(flags, 0x40) {
        if |rest| < 1 {
          return;
        }
        rest := rest[1..];
      }
      if Bit(flags, 0x20) || Bit(flags, 0x10) {
        if |rest| < 1 {
          return;
        }
        rest := rest[1..];
      }
    }
    return true, rest;
  }

  // The fields of the descriptor that the source keeps.
  datatype Fields = Fields(inter: bool, start: bool, end: bool, pictureId: nat)

  function FieldsOf(d: Vp9Descriptor): Fields {
    Fields(d.inter, d.start, d.end, if d.picture.Some? then d.picture.value.id else 0)
  }

  // Where the cursor stands after a part of the descriptor.
  predicate Reached<T>(data: bytes, next: Option<nat>, r: Parsed<T>) {
    if r.Failed? then next.None? else next.Some? && next.value <= |data| && data[next.value..] == r.rest
  }

  method ParsePayloadDescriptor(data: bytes) returns (ok: bool, desc: Fields, payload: bytes)
    ensures
      match ParseVp9(data)
      case Failed => !ok
      case Parsed(d, rest) => ok && desc == FieldsOf(d) && payload == rest
  {
    hide Bit, ParsePicture, ParseLayers, ParseRefs, ParseScalability;
    ok, desc, payload := false, Fields(false, false, false, 0), [];
    if |data| < 1 {
      return;
    }
    var flags := data[0];
    var flagI, flagP, flagL, flagF := Bit(flags, 0x80), Bit(flags, 0x40), Bit(flags, 0x20), Bit(flags, 0x10);
    var next, pictureId := SkipPicture(data, 1, flagI);
    if next.None? {
      return;
    }
    desc := Fields(flagP, Bit(flags, 8), Bit(flags, 4), pictureId);
    next := SkipLayers(data, next.value, flagL, flagF);
    if next.None? {
      return;
    }
    RefsNone(data[next.value..]);
    if flagF && flagP {
      next := SkipRefs(data, next.value);
      if next.None? {
        return;
      }
    }
    next := SkipScalability(data, next.value, Bit(flags, 2));
    if next.None? {
      return;
    }
    return true, desc, data[next.value..];
  }

  lemma RefsNone(b: bytes)
    ensures ParseRefs(b, 0) == Parsed([], b)
  {
  }

  method SkipPicture(data: bytes, start: nat, present: bool) returns (next: Option<nat>, pictureId: nat)
    requires start <= |data|
    ensures
      var r := ParsePicture(data[start..], present);
      Reached(data, next, r) && (r.Parsed? ==> pictureId == if r.value.Some? then r.value.value.id else 0)
  {
    var pos := start;
    next, pictureId := None, 0;
    if present {
      if pos >= |data| {
        return;
      }
      var m := data[pos];
      pos := pos + 1;
      if m >= 0x80 {
        if pos >= |data| {
          return;
        }
        pictureId := (m as int - 0x80) * 0x100 + data[pos] as int;
        pos := pos + 1;
      } else {
        pictureId := m as int;
      }
    }
    next := Some(pos);
  }

  method SkipLayers(data: bytes, start: nat, present: bool, flexible: bool) returns (next: Option<nat>)
    requires start <= |data|
    ensures Reached(data, next, ParseLayers(data[start..], present, flexible))
  {
    var pos := start;
    if present {
      if pos >= |data| {
        return None;
      }
      var indices := data[pos];
      pos := pos + 1;
      if !flexible && indices % 2 == 0 {
        if pos >= |data| {
          return None;
        }
        pos := pos + 1;
      }
    }
    return Some(pos);
  }

  method SkipRefs(data: bytes, start: nat) returns (next: Option<nat>)
    requires start <= |data|
    ensures Reached(data, next, ParseRefs(data[start..], 3))
  {
    var pos := start;
    for i := 0 to 3
      invariant start <= pos <= |data|
      invariant SameRest(ParseRefs(data[pos..], 3 - i), ParseRefs(data[start..], 3))
    {
      if pos >= |data| {
        return None;
      }
      var ref := data[pos];
      assert data[pos..][0] == ref && data[pos..][1..] == data[pos + 1..];
      pos := pos + 1;
      if ref % 2 == 0 {
        break;
      }
    }
    return Some(pos);
  }

  // Two parses that fail alike and stop at the same place.
  predicate SameRest<T>(a: Parsed<T>, b: Parsed<T>) {
    a.Failed? == b.Failed? && (a.Parsed? ==> a.rest == b.rest)
  }

  // One picture of the group taken off.
  lemma PartSkipped(data: bytes, pos: nat, count: nat)
    requires pos < |data| && count > 0
    ensures
      var next := pos + 1 + data[pos] as int / 4 % 4;
      if next > |data| then ParseGroup(data[pos..], count).Failed?
      else SameRest(ParseGroup(data[next..], count - 1), ParseGroup(data[pos..], count))
  {
    hide ParseGroup;
    var b, next := data[pos..], pos + 1 + data[pos] as int / 4 % 4;
    GroupStep(b, count);
    if next <= |data| {
      assert b[next - pos..] == data[next..];
    }
  }

  lemma GroupStep(b: bytes, count: nat)
    requires count > 0
    ensures
      var p, r := ParsePart(b), ParseGroup(b, count);
      if p.Failed? then r.Failed? else SameRest(ParseGroup(p.rest, count - 1), r)
  {
    hide ParsePart;
  }

  lemma NoPart(count: nat)
    requires count > 0
    ensures ParseGroup([], count).Failed?
  {
  }

  method SkipGroup(data: bytes, start: nat, count: nat) returns (next: Option<nat>)
    requires start <= |data|
    ensures Reached(data, next, ParseGroup(data[start..], count))
  {
    hide ParsePart;
    var pos := start;
    for i := 0 to count
      invariant start <= pos <= |data|
      invariant SameRest(ParseGroup(data[pos..], count - i), ParseGroup(data[start..], count))
    {
      if pos >= |data| {
        NoPart(count - i);
        assert data[pos..] == [];
        return None;
      }
      PartSkipped(data, pos, count - i);
      var refs := data[pos] as int / 4 % 4;
      pos := pos + 1;
      if pos + refs > |data| {
        return None;
      }
      pos := pos + refs;
    }
    return Some(pos);
  }

  method SkipScalability(data: bytes, start: nat, present: bool) returns (next: Option<nat>)
    requires start <= |data|
    ensures Reached(data, next, ParseScalability(data[start..], present))
  {
    hide Bit, ParseGroup;
    var pos := start;
    if present {
      if pos >= |data| {
        return None;
      }
      var ss := data[pos];
      pos := pos + 1;
      assert data[start..][1..] == data[pos..];
      if Bit(ss, 0x10) {
        var skip := (ss as int / 0x20 + 1) * 4;
        if pos + skip > |data| {
          return None;
        }
        assert data[pos..][skip..] == data[pos + skip..];
        pos := pos + skip;
      }
      if Bit(ss, 8) {
        if pos >= |data| {
          return None;
        }
        var count := data[pos];
        assert data[pos..][1..] == data[pos + 1..];
        pos := pos + 1;
        next := SkipGroup(data, pos, count as int);
        return;
      }
    }
    return Some(pos);
  }

  // ----- Packetizing -----

  // PacketizerVP8 has no picture id: there it means nothing.
  class Packetizer {
    const codec: Codec
    var pictureId: nat
    // Choices drawn from the extension sources.
    var drawn: nat

    constructor (codec: Codec)
      ensures this.codec == codec && pictureId == 0 && drawn == 0
    {
      this.codec := codec;
      pictureId, drawn := 0, 0;
    }

    method Generate(frame: bytes, overhead: nat, sources: Sources) returns (packets: seq<Rtp>)
      requires pictureId < 0x8000 && MAX_RTP - RTP_HEADER - overhead > DescriptorLen(codec)
      modifies this
      ensures
        && packets == FramePackets(codec, frame, old(pictureId), MAX_RTP - RTP_HEADER - overhead, sources, old(drawn))
        && pictureId == (old(pictureId) + 1) % 0x8000 && drawn == old(drawn) + |packets|
    {
      hide Pieces, Packet, Packets, AdjustPacketSize, IsKey;
      var id, key := pictureId, IsKey(codec, frame);
      pictureId := (pictureId + 1) % 0x8000;
      packets := [];
      var offset, packetNumber, room := 0, 0, MAX_RTP - RTP_HEADER - overhead - DescriptorLen(codec);
      if !Sendable(codec, frame) {
        NoPackets(codec, key, id);
        return;
      }
      ghost var ps := Pieces(frame, true, room, false, sources, drawn);
      assert frame[0..] == frame;
      while offset < |frame|
        invariant pictureId == (id + 1) % 0x8000 && offset <= |frame| && (packetNumber == 0 <==> offset == 0)
        invariant
          var rest := Pieces(frame[offset..], packetNumber == 0, room, false, sources, drawn);
          && Packets(codec, key, id, ps) == packets + Packets(codec, key, id, rest)
          && old(drawn) + |ps| == drawn + |rest|
        decreases |frame| - offset
      {
        var choice, currSize := sources(drawn), |frame| - offset;
        var packetSize := AdjustPacketSize(room, choice);
        AdjustPositive(room, choice);
        PacketsStep(codec, key, id, frame, offset, packetNumber == 0, room, sources, drawn, packets);
        var isEnd := currSize <= packetSize;
        var writeNow := if currSize < packetSize then currSize else packetSize;
        packets := packets + [Packet(codec, key, id, Piece(packetNumber == 0, isEnd, choice, frame[offset..offset + writeNow]))];
        drawn := drawn + 1;
        offset := offset + writeNow;
        packetNumber := packetNumber + 1;
      }
      NoPackets(codec, key, id);
      NoPieces(frame, room, sources, drawn);
      assert packets + [] == packets;
    }
  }

  lemma NoPackets(codec: Codec, key: bool, pictureId: nat)
    requires pictureId < 0x8000
    ensures Packets(codec, key, pictureId, []) == []
  {
  }

  lemma NoPieces(frame: bytes, room: nat, sources: Sources, drawn: nat)
    requires room > 0
    ensures Pieces(frame[|frame|..], false, room, false, sources, drawn) == []
  {
  }

  lemma PacketsStep(codec: Codec, key: bool, pictureId: nat, frame: bytes, offset: nat, first: bool, room: nat,
                    sources: Sources, drawn: nat, packets: seq<Rtp>)
    requires pictureId < 0x8000 && offset < |frame| && room > 0
    ensures
      var c := sources(drawn);
      var next := PieceEnd(frame, offset, first, room, false, c);
      && offset < next <= |frame|
      && var ps := Pieces(frame[offset..], first, room, false, sources, drawn);
         var rest := Pieces(frame[next..], false, room, false, sources, drawn + 1);
         var p := Packet(codec, key, pictureId, Piece(first, next == |frame|, c, frame[offset..next]));
         && |ps| == |rest| + 1
         && packets + Packets(codec, key, pictureId, ps) == packets + [p] + Packets(codec, key, pictureId, rest)
  {
    hide Packet, Pieces, AdjustPacketSize;
    PiecesStep(frame, offset, first, room, false, sources, drawn);
    var next := PieceEnd(frame, offset, first, room, false, sources(drawn));
    PacketsCons(codec, key, pictureId, Piece(first, next == |frame|, sources(drawn), frame[offset..next]),
                Pieces(frame[next..], false, room, false, sources, drawn + 1));
  }

  lemma PacketsCons(codec: Codec, key: bool, pictureId: nat, p: Piece, ps: seq<Piece>)
    requires pictureId < 0x8000
    ensures Packets(codec, key, pictureId, [p] + ps) == [Packet(codec, key, pictureId, p)] + Packets(codec, key, pictureId, ps)
  {
    hide Packet;
    assert ([p] + ps)[1..] == ps;
  }

  // ----- Depacketizing -----

  class Depacketizer {
    const codec: Codec
    var seenKeyFrame: bool

    constructor (codec: Codec)
      ensures this.codec == codec && !seenKeyFrame
    {
      this.codec := codec;
      seenKeyFrame := false;
    }

    method Extract(packets: seq<Rtp>) returns (out: seq<bytes>)
      requires packets != []
      modifies this
      ensures (seenKeyFrame, out) == Read(codec, old(seenKeyFrame), packets)
    {
      hide ParseVp8, ParseVp9, IsKey;
      out := [];
      var buf: bytes := [];
      for i := 0 to |packets|
        invariant Carried(codec, packets[..i]) == Some(buf) && seenKeyFrame == old(seenKeyFrame)
      {
        assert packets[..i + 1][..i] == packets[..i];
        var ok, payload := false, [];
        if codec == Vp8 {
          ok, payload := ExtractVp8(packets[i].payload);
        } else {
          var desc;
          ok, desc, payload := ParsePayloadDescriptor(packets[i].payload);
        }
        if !ok {
          CarriedNone(codec, packets, i + 1);
          return;
        }
        buf := buf + payload;
      }
      assert packets[..|packets|] == packets;
      if buf == [] {
        return;
      }
      if !seenKeyFrame {
        if IsKey(codec, buf) {
          seenKeyFrame := true;
        } else {
          return;
        }
      }
      if packets[|packets| - 1].marker {
        out := [buf];
      }
    }
  }

  // One malformed descriptor spoils the list.
  lemma {:induction false} CarriedNone(codec: Codec, ps: seq<Rtp>, k: nat)
    requires k <= |ps| && Carried(codec, ps[..k]).None?
    ensures Carried(codec, ps).None?
    decreases |ps| - k
  {
    hide Stripped;
    if k == |ps| {
      assert ps[..k] == ps;
    } else {
      assert ps[..k + 1][..k] == ps[..k];
      CarriedNone(codec, ps, k + 1);
    }
  }
}
