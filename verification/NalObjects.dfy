// The packetizer and depacketizer objects for H.264 and H.265 (src/packetizer_h264.cpp,
// src/packetizer_h265.cpp, src/depacketizer_h264.cpp, src/depacketizer_h265.cpp).
module NalObjects {
  import opened Wire
  import opened AnnexB
  import opened RtpVideo
  import opened NalPackets

  // PacketizerH264 has no video parameter set: there it stays empty.
  class Packetizer {
    const codec: Codec
    var vps: bytes
    var sps: bytes
    var pps: bytes
    // Choices drawn from the extension sources.
    var drawn: nat

    constructor (codec: Codec)
      ensures this.codec == codec && ToSets() == Sets([], [], []) && drawn == 0
    {
      this.codec := codec;
      vps, sps, pps, drawn := [], [], [], 0;
    }

    function ToSets(): Sets reads this { Sets(vps, sps, pps) }

    method Generate(frame: bytes, overhead: nat, sources: Sources) returns (packets: seq<Rtp>)
      requires MAX_RTP - RTP_HEADER - overhead >= 1000 && NonEmptyUnits(Nalus(frame))
      modifies this
      ensures
        var g := PacketizeAll(codec, Progress(old(ToSets()), false, [], old(drawn)), Nalus(frame),
                              MAX_RTP - RTP_HEADER - overhead, sources);
        packets == g.packets && ToSets() == g.s && drawn == g.drawn
    {
      hide PacketizeAll, Packetize, NalusFrom, FindNext;
      var basic := MAX_RTP - RTP_HEADER - overhead;
      var parser := new NaluParser(frame);
      var added := false;
      packets := [];
      ghost var g0 := Progress(ToSets(), false, [], drawn);
      while parser.HasCurrent()
        invariant parser.Valid() && fresh(parser) && NonEmptyUnits(parser.Rest()) && parser.buf == frame
        invariant PacketizeAll(codec, Progress(ToSets(), added, packets, drawn), parser.Rest(), basic, sources)
               == PacketizeAll(codec, g0, Nalus(frame), basic, sources)
        decreases |frame| - parser.pos
      {
        var nalu, atEnd := parser.CurrData(), parser.IsAtEnd();
        PacketizeStep(codec, Progress(ToSets(), added, packets, drawn), parser.Rest(), basic, sources);
        added, packets := GenerateOne(nalu, atEnd, added, packets, basic, sources);
        parser.Next();
      }
      RestDone(parser);
      PacketizeDone(codec, Progress(ToSets(), added, packets, drawn), basic, sources);
    }

    // The packets of one unit.
    method GenerateOne(nalu: bytes, atEnd: bool, added: bool, before: seq<Rtp>, basic: nat, sources: Sources)
      returns (addedNow: bool, packets: seq<Rtp>)
      requires nalu != [] && basic >= 1000
      modifies this
      ensures Progress(ToSets(), addedNow, packets, drawn)
              == Packetize(codec, Progress(old(ToSets()), added, before, old(drawn)), nalu, atEnd, basic, sources)
    {
      hide Fragments, ApPayload, AdjustPacketSize, UnitPieces, KindOf, TypeOf;
      addedNow, packets := added, before;
      var kind := KindOf(codec, TypeOf(codec, nalu[0]));
      if kind == Vps {
        vps := nalu;
      } else if kind == Sps {
        sps := nalu;
      } else if kind == Pps {
        pps := nalu;
      } else if kind == Key {
        if !added && sps != [] && pps != [] && (codec == H264 || vps != []) {
          packets := packets + [Rtp(false, 0, sources(drawn).extension, ApPayload(codec, ToSets()))];
          drawn := drawn + 1;
        }
        addedNow := true;
      }
      if !IsParameter(kind) {
        var choice := sources(drawn);
        var packetSize := AdjustPacketSize(basic, choice);
        AdjustPositive(basic, choice);
        if packetSize >= |nalu| {
          packets := packets + [Rtp(atEnd, choice.padding as int, choice.extension, nalu)];
          drawn := drawn + 1;
        } else {
          packets := GenerateFragments(nalu, atEnd, packets, basic, sources);
        }
      }
    }

    method GenerateFragments(nalu: bytes, atEnd: bool, before: seq<Rtp>, basic: nat, sources: Sources)
      returns (packets: seq<Rtp>)
      requires |nalu| > 100 && basic >= 1000
      modifies this`drawn
      ensures
        var ps := UnitPieces(codec, nalu, basic, sources, old(drawn));
        packets == before + Fragments(codec, nalu, atEnd, ps) && drawn == old(drawn) + |ps|
    {
      hide Pieces, Fragments, AdjustPacketSize, FuIndicator, FuFlags;
      var offset, packetNumber, room := HeaderLen(codec), 0, FuRoom(codec, basic);
      ghost var ps := Pieces(nalu[offset..], true, room, true, sources, drawn);
      packets := before;
      while offset < |nalu|
        invariant HeaderLen(codec) <= offset <= |nalu| && (packetNumber == 0 ==> offset == HeaderLen(codec))
        invariant
          var rest := Pieces(nalu[offset..], packetNumber == 0, room, true, sources, drawn);
          && before + Fragments(codec, nalu, atEnd, ps) == packets + Fragments(codec, nalu, atEnd, rest)
          && old(drawn) + |ps| == drawn + |rest|
        decreases |nalu| - offset
      {
        var choice, currSize := sources(drawn), |nalu| - offset;
        var packetSize := AdjustPacketSize(room, choice);
        AdjustPositive(room, choice);
        FragmentsStep(codec, nalu, offset, packetNumber == 0, atEnd, room, sources, drawn, packets);
        if packetNumber == 0 && packetSize >= currSize {
          packetSize := currSize - 10;
        }
        var isEnd := currSize <= packetSize;
        var writeNow := if currSize < packetSize then currSize else packetSize;
        var flags := FuFlags(packetNumber == 0, isEnd, TypeOf(codec, nalu[0]));
        var payload := FuIndicator(codec, nalu) + [flags] + nalu[offset..offset + writeNow];
        packets := packets + [Rtp(isEnd && atEnd, choice.padding as int, choice.extension, payload)];
        drawn := drawn + 1;
        offset := offset + writeNow;
        packetNumber := packetNumber + 1;
      }
      FragmentsDone(codec, nalu, atEnd, room, sources, drawn);
      assert packets + [] == packets;
    }
  }

  // Packets of one list share their timestamp.
  class Depacketizer {
    const codec: Codec
    var haveBits: set<Kind>
    var frameBuffer: bytes
    var lastRtpTimestamp: nat
    // The frames and the fragment buffer of the call under way.
    var out: seq<bytes>
    var fuBuf: Option<bytes>

    constructor (codec: Codec)
      ensures this.codec == codec && ToReading() == Reading(NalPackets.Depacketizer({}, [], 0), [], None)
    {
      this.codec := codec;
      haveBits, frameBuffer, lastRtpTimestamp, out, fuBuf := {}, [], 0, [], None;
    }

    function ToReading(): Reading reads this {
      Reading(NalPackets.Depacketizer(haveBits, frameBuffer, lastRtpTimestamp), out, fuBuf)
    }

    method Extract(packets: seq<Rtp>, timestamp: nat) returns (frames: seq<bytes>)
      modifies this
      ensures ToReading() == ReadAll(codec, old(ToReading()).(out := [], fu := None), timestamp, packets) && frames == out
    {
      hide DeliverFu, DeliverAp, Deliver;
      out, fuBuf := [], None;
      ghost var r := ToReading();
      for i := 0 to |packets|
        invariant ToReading() == ReadAll(codec, r, timestamp, packets[..i])
      {
        assert packets[..i + 1][..i] == packets[..i];
        var packet := packets[i];
        if |packet.payload| >= 2 {
          var naluType, n := TypeOf(codec, packet.payload[0]), HeaderLen(codec);
          if naluType == ApType(codec) {
            ExtractAp(packet.payload[n..], timestamp, packet.marker);
          } else if naluType == FuType(codec) {
            ExtractFu(packet.payload[..n], packet.payload[n..], timestamp, packet.marker);
          } else if naluType <= MaxSingle(codec) {
            ExtractImpl(packet.payload, timestamp, packet.marker);
          }
        }
      }
      assert packets[..|packets|] == packets;
      frames := out;
    }

    method ExtractAp(b: bytes, timestamp: nat, marker: bool)
      modifies this
      ensures ToReading() == DeliverAp(codec, old(ToReading()), timestamp, marker, b)
    {
      hide Deliver, ReadU16;
      var rest := b;
      while |rest| >= 2
        invariant DeliverAp(codec, ToReading(), timestamp, marker, rest)
               == DeliverAp(codec, old(ToReading()), timestamp, marker, b)
        decreases |rest|
      {
        var size := ReadU16(rest);
        if |rest| - 2 >= size && size >= HeaderLen(codec) {
          ExtractImpl(rest[2..2 + size], timestamp, marker);
          rest := rest[2 + size..];
        } else {
          break;
        }
      }
    }

    method ExtractFu(indicator: bytes, b: bytes, timestamp: nat, marker: bool)
      requires |indicator| == HeaderLen(codec)
      modifies this
      ensures ToReading() == DeliverFu(codec, old(ToReading()), timestamp, marker, indicator, b)
    {
      hide Deliver, Rebuilt;
      if |b| >= 1 {
        var flags := b[0];
        var fuIsStart, fuIsEnd := flags / 128 % 2 == 1, flags / 64 % 2 == 1;
        if fuIsStart {
          fuBuf := Some(Rebuilt(codec, indicator, flags));
        }
        if fuBuf.Some? {
          fuBuf := Some(fuBuf.value + b[1..]);
          if fuIsEnd {
            ExtractImpl(fuBuf.value, timestamp, marker);
          }
        }
      }
    }

    method ExtractImpl(nalu: bytes, timestamp: nat, marker: bool)
      modifies this
      ensures ToReading() == Deliver(codec, old(ToReading()), timestamp, marker, nalu)
    {
      hide KindOf, TypeOf;
      if nalu == [] {
        return;
      }
      if !(Needed(codec) <= haveBits) {
        var kind := KindOf(codec, TypeOf(codec, nalu[0]));
        if kind == Slice {
          return;
        }
        if kind != Other {
          haveBits := haveBits + {kind};
        }
      }
      if lastRtpTimestamp != timestamp {
        lastRtpTimestamp := timestamp;
        frameBuffer := [];
      }
      frameBuffer := frameBuffer + ANNEX_B;
      frameBuffer := frameBuffer + nalu;
      if marker {
        out := out + [frameBuffer];
        frameBuffer := [];
      }
    }
  }

  lemma PacketizeStep(codec: Codec, g: Progress, nalus: seq<bytes>, basic: nat, sources: Sources)
    requires basic >= 1000 && NonEmptyUnits(nalus) && nalus != []
    ensures NonEmptyUnits(nalus[1..])
    ensures PacketizeAll(codec, g, nalus, basic, sources)
            == PacketizeAll(codec, Packetize(codec, g, nalus[0], |nalus| == 1, basic, sources), nalus[1..], basic, sources)
  {
    hide Packetize;
  }

  lemma PacketizeDone(codec: Codec, g: Progress, basic: nat, sources: Sources)
    requires basic >= 1000
    ensures PacketizeAll(codec, g, [], basic, sources) == g
  {
  }

  lemma RestDone(parser: NaluParser)
    requires parser.Valid() && !parser.HasCurrent()
    ensures parser.Rest() == []
  {
  }

  lemma FragmentsStep(codec: Codec, nalu: bytes, offset: nat, first: bool, atEnd: bool, room: nat, sources: Sources,
                      drawn: nat, packets: seq<Rtp>)
    requires 2 <= |nalu| && offset < |nalu| && room > 0 && (first ==> |nalu| - offset > 10)
    ensures
      var c := sources(drawn);
      var next := PieceEnd(nalu, offset, first, room, true, c);
      && offset < next <= |nalu|
      && var ps := Pieces(nalu[offset..], first, room, true, sources, drawn);
         var rest := Pieces(nalu[next..], false, room, true, sources, drawn + 1);
         var p := Fragment(codec, nalu, atEnd, Piece(first, next == |nalu|, c, nalu[offset..next]));
         && |ps| == |rest| + 1
         && packets + Fragments(codec, nalu, atEnd, ps) == packets + [p] + Fragments(codec, nalu, atEnd, rest)
  {
    hide Fragment, Pieces, AdjustPacketSize;
    PiecesStep(nalu, offset, first, room, true, sources, drawn);
    var next := PieceEnd(nalu, offset, first, room, true, sources(drawn));
    FragmentsCons(codec, nalu, atEnd, Piece(first, next == |nalu|, sources(drawn), nalu[offset..next]),
                  Pieces(nalu[next..], false, room, true, sources, drawn + 1));
  }

  lemma FragmentsCons(codec: Codec, nalu: bytes, atEnd: bool, p: Piece, ps: seq<Piece>)
    requires |nalu| >= 2
    ensures Fragments(codec, nalu, atEnd, [p] + ps) == [Fragment(codec, nalu, atEnd, p)] + Fragments(codec, nalu, atEnd, ps)
  {
    hide Fragment;
    assert ([p] + ps)[1..] == ps;
  }

  lemma FragmentsDone(codec: Codec, nalu: bytes, atEnd: bool, room: nat, sources: Sources, drawn: nat)
    requires |nalu| >= 2 && room > 0
    ensures Pieces(nalu[|nalu|..], false, room, true, sources, drawn) == []
    ensures Fragments(codec, nalu, atEnd, []) == []
  {
  }
}
