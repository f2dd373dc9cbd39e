// How video packetizers cut data into RTP payloads (src/packetizer_video.cpp, and the loops that use it).
module RtpVideo {
  import opened Wire

  const MAX_RTP := 1200
  const RTP_HEADER := 12
  const MIN_PAYLOAD := 600

  // What the codecs fill in: the size of the extension stands for the extension.
  datatype Rtp = Rtp(marker: bool, padding: nat, extension: nat, payload: bytes)

  // The padding and the extension size that the extension sources choose for one packet.
  datatype Choice = Choice(padding: uint8, extension: nat)

  type Sources = nat -> Choice

  function AdjustPacketSize(basic: nat, c: Choice): int {
    var lessPadding := if c.padding > 0 && c.padding as int <= basic / 2 then basic - c.padding as int else basic;
    if c.extension == 0 || c.extension + MIN_PAYLOAD > basic then lessPadding else lessPadding - c.extension
  }

  // Some payload always fits.
  lemma AdjustPositive(basic: nat, c: Choice)
    requires basic > 0
    ensures AdjustPacketSize(basic, c) > 0
    ensures basic >= 900 ==> AdjustPacketSize(basic, c) >= 300
  {
  }

  // What fits is exactly what the padding and the extension leave.
  lemma AdjustFits(basic: nat, c: Choice)
    requires 2 * c.padding as int <= basic && c.extension + 600 <= basic
    ensures AdjustPacketSize(basic, c) + c.padding as int + c.extension == basic
  {
  }

  // ----- Pieces -----

  datatype Piece = Piece(first: bool, last: bool, choice: Choice, data: bytes)

  // With `split`, the first piece never takes everything.
  function PieceSize(room: nat, split: bool, c: Choice, first: bool, left: nat): int {
    var size := AdjustPacketSize(room, c);
    if split && first && size >= left then left - 10 else size
  }

  // `drawn` counts the choices made so far.
  function Pieces(data: bytes, first: bool, room: nat, split: bool, sources: Sources, drawn: nat): seq<Piece>
    requires room > 0 && (split && first ==> |data| > 10)
    decreases |data|
  {
    if data == [] then []
    else
      var c := sources(drawn);
      AdjustPositive(room, c);
      var size := PieceSize(room, split, c, first, |data|);
      if |data| <= size then [Piece(first, true, c, data)]
      else [Piece(first, false, c, data[..size])] + Pieces(data[size..], false, room, split, sources, drawn + 1)
  }

  // Where the piece that starts at `offset` ends.
  function PieceEnd(all: bytes, offset: nat, first: bool, room: nat, split: bool, c: Choice): int
    requires offset <= |all|
  {
    var size := PieceSize(room, split, c, first, |all| - offset);
    if |all| - offset <= size then |all| else offset + size
  }

  // One turn of a loop that cuts `all`.
  lemma PiecesStep(all: bytes, offset: nat, first: bool, room: nat, split: bool, sources: Sources, drawn: nat)
    requires offset < |all| && room > 0 && (split && first ==> |all| - offset > 10)
    ensures
      var c := sources(drawn);
      var next := PieceEnd(all, offset, first, room, split, c);
      && offset < next <= |all|
      && Pieces(all[offset..], first, room, split, sources, drawn)
         == [Piece(first, next == |all|, c, all[offset..next])] + Pieces(all[next..], false, room, split, sources, drawn + 1)
  {
    hide AdjustPacketSize;
    var c, data := sources(drawn), all[offset..];
    AdjustPositive(room, c);
    var size, next := PieceSize(room, split, c, first, |data|), PieceEnd(all, offset, first, room, split, c);
    if |data| <= size {
      assert all[next..] == [] && all[offset..next] == data;
    } else {
      assert data[size..] == all[next..] && data[..size] == all[offset..next];
    }
  }

  function Join(ps: seq<Piece>): bytes { if ps == [] then [] else ps[0].data + Join(ps[1..]) }

  lemma {:induction false} PiecesJoin(data: bytes, first: bool, room: nat, split: bool, sources: Sources, drawn: nat)
    requires room > 0 && (split && first ==> |data| > 10)
    ensures Join(Pieces(data, first, room, split, sources, drawn)) == data
    decreases |data|
  {
    hide AdjustPacketSize;
    if data != [] {
      var c := sources(drawn);
      AdjustPositive(room, c);
      var size := PieceSize(room, split, c, first, |data|);
      var ps := Pieces(data, first, room, split, sources, drawn);
      if |data| <= size {
        assert Join(ps[1..]) == [];
      } else {
        PiecesJoin(data[size..], false, room, split, sources, drawn + 1);
        assert ps[1..] == Pieces(data[size..], false, room, split, sources, drawn + 1);
      }
    }
  }

  // Exactly the first piece says so, and exactly the last; no piece is empty, or both when they may not be.
  ghost predicate WellCut(ps: seq<Piece>, first: bool, split: bool) {
    forall k :: 0 <= k < |ps| ==>
      && ps[k].first == (first && k == 0) && ps[k].last == (k == |ps| - 1)
      && ps[k].data != [] && !(split && ps[k].first && ps[k].last)
  }

  lemma {:induction false} PiecesWellCut(data: bytes, first: bool, room: nat, split: bool, sources: Sources, drawn: nat)
    requires room > 0 && (split && first ==> |data| > 10)
    ensures WellCut(Pieces(data, first, room, split, sources, drawn), first, split)
    ensures data != [] ==> Pieces(data, first, room, split, sources, drawn) != []
    decreases |data|
  {
    hide AdjustPacketSize;
    if data != [] {
      var c := sources(drawn);
      AdjustPositive(room, c);
      var size := PieceSize(room, split, c, first, |data|);
      if size < |data| {
        PiecesWellCut(data[size..], false, room, split, sources, drawn + 1);
      }
    }
  }

  // Every piece but the last is as large as fits; only a first piece that would take everything, and may
  // not, leaves ten bytes.
  lemma {:induction false} PiecesFull(data: bytes, first: bool, room: nat, split: bool, sources: Sources, drawn: nat, k: nat)
    requires room > 0 && (split && first ==> |data| > 10)
    requires k + 1 < |Pieces(data, first, room, split, sources, drawn)|
    ensures
      var p := Pieces(data, first, room, split, sources, drawn)[k];
      && p.choice == sources(drawn + k)
      && (|p.data| == AdjustPacketSize(room, p.choice)
          || (split && first && k == 0 && |p.data| == |data| - 10 < |data| <= AdjustPacketSize(room, p.choice)))
    decreases |data|
  {
    hide AdjustPacketSize;
    var c := sources(drawn);
    AdjustPositive(room, c);
    var size := PieceSize(room, split, c, first, |data|);
    if size < |data| && k > 0 {
      PiecesFull(data[size..], false, room, split, sources, drawn + 1, k - 1);
    }
  }

  // Padding and extension leave at least 600 bytes of a packet for the payload.
  ghost predicate Modest(sources: Sources, room: nat) {
    forall k: nat :: ModestChoice(sources(k), room)
  }

  predicate ModestChoice(c: Choice, room: nat) {
    2 * c.padding as int <= room && c.extension + MIN_PAYLOAD <= room
  }

  predicate PieceFits(p: Piece, room: nat) { |p.data| + p.choice.padding as int + p.choice.extension <= room }

  lemma {:induction false} PiecesFit(data: bytes, first: bool, room: nat, split: bool, sources: Sources, drawn: nat)
    requires room > 0 && (split && first ==> |data| > 10) && Modest(sources, room)
    ensures forall k :: 0 <= k < |Pieces(data, first, room, split, sources, drawn)| ==>
              PieceFits(Pieces(data, first, room, split, sources, drawn)[k], room)
    decreases |data|
  {
    hide AdjustPacketSize;
    if data != [] {
      var c := sources(drawn);
      AdjustPositive(room, c);
      assert ModestChoice(c, room);
      AdjustFits(room, c);
      var size := PieceSize(room, split, c, first, |data|);
      if size < |data| {
        PiecesFit(data[size..], false, room, split, sources, drawn + 1);
      }
    }
  }

  predicate WithinSize(p: Rtp, basic: nat) { |p.payload| + p.padding + p.extension <= basic }
}
