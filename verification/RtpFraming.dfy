// RTP packets as datagrams, and retransmission (src/rtp_packet.cpp, and the unwrapping in
// src/jitter_buffer.cpp); sections 5.1 and 5.3.1 of RFC 3550 and section 4 of RFC 4588.
module RtpFraming {
  import opened Wire
  import opened RtpExtensions
  import RtpBuilder
  import RtpVideo

  datatype Packet = Packet(marker: bool, payloadId: uint8, sequence: uint16, timestamp: uint32, ssrc: uint32,
                           padding: uint8, extension: Extension, payload: bytes)

  // ----- Writing -----

  function HeaderWord(pad: bool, ext: bool, marker: bool, payloadId: uint8): uint16 {
    0x8000 + (if pad then 0x2000 else 0) + (if ext then 0x1000 else 0) + (if marker then 0x80 else 0) + payloadId % 0x80
  }

  function FixedHeader(p: Packet): (r: bytes)
    ensures |r| == 12
  {
    WriteU16(HeaderWord(p.padding != 0, !Empty(p.extension), p.marker, p.payloadId))
    + WriteU16(p.sequence) + WriteU32(p.timestamp) + WriteU32(p.ssrc)
  }

  function ToWord(n: nat): nat { (4 - n % 4) % 4 }

  function ExtensionBytes(e: Extension): bytes {
    if Empty(e) then []
    else WriteU16(e.id) + WriteU16((|e.data| + 3) / 4 % 0x1_0000) + (e.data + Zeros(ToWord(|e.data|)))
  }

  function PaddingBytes(n: uint8): bytes { if n == 0 then [] else Zeros(n - 1) + [n] }

  function Datagram(p: Packet): bytes {
    FixedHeader(p) + (ExtensionBytes(p.extension) + (p.payload + PaddingBytes(p.padding)))
  }

  method WriteExtension(buf: bytes, e: Extension) returns (r: bytes)
    ensures r == buf + ExtensionBytes(e)
  {
    hide Zeros, ToWord;
    r := buf;
    if Empty(e) {
      return;
    }
    var size := |e.data|;
    r := r + WriteU16(e.id);
    r := r + WriteU16((size + 3) / 4 % 0x1_0000);
    r := r + e.data;
    r := FillWord(r, size);
  }

  method FillWord(buf: bytes, size: nat) returns (r: bytes)
    ensures r == buf + Zeros(ToWord(size))
  {
    hide Zeros;
    r := buf;
    var padding := size;
    EmptyZeros();
    while padding % 4 != 0
      invariant size <= padding && r == buf + Zeros(padding - size) && ToWord(size) == padding - size + ToWord(padding)
      decreases ToWord(padding)
    {
      ZerosMore(padding - size);
      r := r + [0];
      padding := padding + 1;
    }
  }

  lemma ZerosMore(n: nat)
    ensures Zeros(n) + [0] == Zeros(n + 1)
  {
    RepeatSnoc<uint8>(0, n);
  }

  method WritePadding(buf: bytes, padding: uint8) returns (r: bytes)
    ensures r == buf + PaddingBytes(padding)
  {
    if padding == 0 {
      return buf;
    }
    r := buf + Zeros(padding as int - 1);
    r := r + [padding];
  }

  method Generate(p: Packet) returns (buf: bytes)
    ensures buf == Datagram(p)
  {
    hide ExtensionBytes, PaddingBytes, HeaderWord, WriteU32;
    buf := WriteU16(HeaderWord(p.padding != 0, !Empty(p.extension), p.marker, p.payloadId));
    buf := buf + WriteU16(p.sequence);
    buf := buf + WriteU32(p.timestamp);
    buf := buf + WriteU32(p.ssrc);
    buf := WriteExtension(buf, p.extension);
    buf := buf + p.payload;
    buf := WritePadding(buf, p.padding);
  }

  // ----- Reading -----

  function Trim(e: Extension): Extension { if Empty(e) then e else Extension(e.id, Trimmed(e.id, e.data)) }

  // The extension and the bytes behind it.
  function ReadExtension(b: bytes, present: bool): Parsed<Extension> {
    if !present then Parsed(NONE, b)
    else if |b| < 4 then Failed
    else
      var id, size := ReadU16(b), ReadU16(b[2..]) * 4;
      if |b| - 4 < size then Failed
      else Parsed(if IsValidId(id) then Trim(Extension(id, b[4..4 + size])) else NONE, b[4 + size..])
  }

  // The last byte of the padding counts it.
  function Unpadded(b: bytes, padded: bool): Option<bytes> {
    if !padded then Some(b)
    else if b == [] || b[|b| - 1] as int > |b| then None
    else Some(b[..|b| - b[|b| - 1] as int])
  }

  function Flagged(header: uint16, weight: nat): bool
    requires weight > 0
  {
    header / weight % 2 == 1
  }

  function FromUdp(data: bytes): Option<Packet> {
    if |data| < 12 then None
    else
      var header := ReadU16(data);
      match ReadExtension(data[12..], Flagged(header, 0x1000))
      case Failed => None
      case Parsed(e, rest) =>
        match Unpadded(rest, Flagged(header, 0x2000))
        case None => None
        case Some(payload) =>
          Some(Packet(Flagged(header, 0x80), header % 0x80, ReadU16(data[2..]), ReadU32(data[4..]), ReadU32(data[8..]),
                      0, e, payload))
  }

  // The extension in front of the payload.
  method TakeExtension(b: bytes) returns (ok: bool, extension: Extension, rest: bytes)
    ensures ReadExtension(b, true) == if ok then Parsed(extension, rest) else Failed
  {
    hide ReadU16, Trimmed, IsValidId;
    ok, extension, rest := false, NONE, b;
    if |b| < 4 {
      return;
    }
    var extId, extSize := ReadU16(b), ReadU16(b[2..]) * 4;
    if |b| - 4 < extSize {
      return;
    }
    if IsValidId(extId) {
      var e := new RtpBuilder.RtpExtension(extId, b[4..4 + extSize]);
      e.TrimPadding();
      extension := e.ToExtension();
    }
    return true, extension, b[4 + extSize..];
  }

  lemma NoExtension(data: bytes)
    ensures |data| >= 12 ==> ReadExtension(data[12..], false) == Parsed(NONE, data[12..])
  {
  }

  method FromUdpPacket(data: bytes) returns (packet: Option<Packet>)
    ensures packet == FromUdp(data)
  {
    hide ReadU16, ReadU32, ReadExtension, Flagged;
    NoExtension(data);
    if |data| < 4 + 4 + 4 {
      return None;
    }
    var header := ReadU16(data);
    var sequence, timestamp, ssrc := ReadU16(data[2..]), ReadU32(data[4..]), ReadU32(data[8..]);
    var extension, payload := NONE, data[12..];
    if Flagged(header, 0x1000) {
      var ok;
      ok, extension, payload := TakeExtension(payload);
      if !ok {
        return None;
      }
    }
    if Flagged(header, 0x2000) {
      if payload == [] {
        return None;
      }
      var paddingCount := payload[|payload| - 1] as int;
      if paddingCount > |payload| {
        return None;
      }
      payload := payload[..|payload| - paddingCount];
    }
    return Some(Packet(Flagged(header, 0x80), header % 0x80, sequence, timestamp, ssrc, 0, extension, payload));
  }

  // ----- Reading undoes writing -----

  lemma HeaderBits(pad: bool, ext: bool, marker: bool, payloadId: uint8)
    ensures
      var w := HeaderWord(pad, ext, marker, payloadId);
      && (w / 0x2000 % 2 == 1) == pad && (w / 0x1000 % 2 == 1) == ext && (w / 0x80 % 2 == 1) == marker
      && w % 0x80 == payloadId % 0x80
  {
  }

  // What arrives of an extension: nothing of one whose id is not known.
  function Arrived(e: Extension): Extension {
    if Empty(e) || !IsValidId(e.id) then NONE else Extension(e.id, Trimmed(e.id, e.data + Zeros(ToWord(|e.data|))))
  }

  // An extension arrives unchanged exactly when it is empty or made of elements to its last byte.
  lemma ArrivedExact(e: Extension)
    requires e.id == 0 <==> e.data == []
    ensures Arrived(e) == e <==> Empty(e) || (IsValidId(e.id) && WellFormed(e.id, e.data))
  {
    hide Trimmed, WellFormed, IsValidId, Zeros, ToWord;
    if !Empty(e) && IsValidId(e.id) {
      TrimExact(e.id, e.data, ToWord(|e.data|));
    }
  }

  lemma Words(n: nat)
    ensures (n + 3) / 4 * 4 == n + ToWord(n)
  {
  }

  lemma ExtensionBack(e: Extension, rest: bytes)
    requires |e.data| <= 4 * 0xFFFF
    ensures ReadExtension(ExtensionBytes(e) + rest, !Empty(e)) == Parsed(Arrived(e), rest)
  {
    hide Trimmed, Zeros, ToWord, IsValidId, WriteU16, ReadU16;
    if Empty(e) {
      assert [] + rest == rest;
    } else {
      var n := |e.data|;
      var words, padded := (n + 3) / 4, e.data + Zeros(ToWord(n));
      Words(n);
      ZerosLength(ToWord(n));
      var b, tail := ExtensionBytes(e) + rest, WriteU16(words) + (padded + rest);
      assert b == WriteU16(e.id) + tail;
      ReadWriteU16(e.id, tail);
      ReadWriteU16(words, padded + rest);
      assert b[2..] == tail && b[4..] == padded + rest;
      assert b[4..4 + words * 4] == padded && b[4 + words * 4..] == rest;
    }
  }

  lemma ZerosLength(n: nat)
    ensures |Zeros(n)| == n
  {
  }

  lemma PaddingBack(payload: bytes, padding: uint8)
    ensures Unpadded(payload + PaddingBytes(padding), padding != 0) == Some(payload)
  {
    hide Zeros;
    if padding != 0 {
      ZerosLength(padding - 1);
      var b := payload + PaddingBytes(padding);
      assert b[|b| - 1] == padding;
      assert b[..|b| - padding] == payload;
    } else {
      assert payload + [] == payload;
    }
  }

  lemma FixedBack(p: Packet, rest: bytes)
    ensures
      var b := FixedHeader(p) + rest;
      && ReadU16(b) == HeaderWord(p.padding != 0, !Empty(p.extension), p.marker, p.payloadId)
      && ReadU16(b[2..]) == p.sequence && ReadU32(b[4..]) == p.timestamp && ReadU32(b[8..]) == p.ssrc && b[12..] == rest
  {
    hide HeaderWord, WriteU16, WriteU32, ReadU16, ReadU32;
    var word := HeaderWord(p.padding != 0, !Empty(p.extension), p.marker, p.payloadId);
    U32Length(p.timestamp);
    U32Length(p.ssrc);
    FourParts(WriteU16(word), WriteU16(p.sequence), WriteU32(p.timestamp), WriteU32(p.ssrc), rest);
    var b8 := WriteU32(p.ssrc) + rest;
    var b4 := WriteU32(p.timestamp) + b8;
    ReadWriteU16(word, WriteU16(p.sequence) + b4);
    ReadWriteU16(p.sequence, b4);
    ReadWriteU32(p.timestamp, b8);
    ReadWriteU32(p.ssrc, rest);
  }

  lemma FourParts(a: bytes, b: bytes, c: bytes, d: bytes, rest: bytes)
    requires |a| == |b| == 2 && |c| == |d| == 4
    ensures
      var all := a + b + c + d + rest;
      && all == a + (b + (c + (d + rest))) && all[2..] == b + (c + (d + rest)) && all[4..] == c + (d + rest)
      && all[8..] == d + rest && all[12..] == rest
  {
  }

  lemma U32Length(v: uint32)
    ensures |WriteU32(v)| == 4
  {
  }

  // Every field of a packet comes back, for every padding; the padding itself is gone.
  lemma RoundTrip(p: Packet)
    requires p.payloadId < 0x80 && |p.extension.data| <= 4 * 0xFFFF
    ensures FromUdp(Datagram(p)) == Some(p.(padding := 0, extension := Arrived(p.extension)))
  {
    hide FixedHeader, HeaderWord, ExtensionBytes, PaddingBytes, ReadExtension, Unpadded, Arrived, ReadU16, ReadU32;
    HeaderBits(p.padding != 0, !Empty(p.extension), p.marker, p.payloadId);
    var body := p.payload + PaddingBytes(p.padding);
    FixedBack(p, ExtensionBytes(p.extension) + body);
    ExtensionBack(p.extension, body);
    PaddingBack(p.payload, p.padding);
  }

  // ----- Retransmission -----

  // What is sent again, with the numbers of the retransmission stream and the extension built for it.
  function Rtx(p: Packet, payloadId: uint8, sequence: uint16, ssrc: uint32, extension: Extension): Packet {
    p.(payloadId := payloadId, sequence := sequence, ssrc := ssrc, extension := extension,
       payload := WriteU16(p.sequence) + p.payload)
  }

  method GenerateRtx(p: Packet, extension: Extension, payloadId: uint8, sequence: uint16, ssrc: uint32) returns (buf: bytes)
    ensures buf == Datagram(Rtx(p, payloadId, sequence, ssrc, extension))
  {
    hide ExtensionBytes, PaddingBytes, HeaderWord, WriteU32;
    buf := WriteU16(HeaderWord(p.padding != 0, !Empty(extension), p.marker, payloadId));
    buf := buf + WriteU16(sequence);
    buf := buf + WriteU32(p.timestamp);
    buf := buf + WriteU32(ssrc);
    buf := WriteExtension(buf, extension);
    buf := buf + WriteU16(p.sequence);
    buf := buf + p.payload;
    buf := WritePadding(buf, p.padding);
  }

  // The sequence number and the payload that count, when the jitter buffer takes a packet.
  function Unwrapped(q: Packet, rtxSsrc: uint32, rtxPayloadId: uint8): Option<(uint16, bytes)> {
    if q.ssrc != rtxSsrc || q.payloadId != rtxPayloadId then Some((q.sequence, q.payload))
    else if |q.payload| < 2 then None
    else Some((ReadU16(q.payload), q.payload[2..]))
  }

  // A packet counts the same whether it arrives itself or as its retransmission.
  lemma RtxRoundTrip(p: Packet, rtxPayloadId: uint8, rtxSequence: uint16, rtxSsrc: uint32, extension: Extension)
    requires p.payloadId < 0x80 && rtxPayloadId < 0x80 && |p.extension.data| <= 4 * 0xFFFF && |extension.data| <= 4 * 0xFFFF
    requires p.ssrc != rtxSsrc || p.payloadId != rtxPayloadId
    ensures
      var direct, again := FromUdp(Datagram(p)), FromUdp(Datagram(Rtx(p, rtxPayloadId, rtxSequence, rtxSsrc, extension)));
      && direct.Some? && again.Some?
      && Unwrapped(direct.value, rtxSsrc, rtxPayloadId) == Unwrapped(again.value, rtxSsrc, rtxPayloadId) == Some((p.sequence, p.payload))
      && direct.value.timestamp == again.value.timestamp && direct.value.marker == again.value.marker
  {
    hide Datagram, FromUdp, Arrived, ReadU16, WriteU16;
    RoundTrip(p);
    RoundTrip(Rtx(p, rtxPayloadId, rtxSequence, rtxSsrc, extension));
    ReadWriteU16(p.sequence, p.payload);
  }

  // ----- Sizes -----

  // The bytes of a datagram are what the packetizers reckon with, so what fits there fits on the wire.
  lemma DatagramFits(p: Packet, r: RtpVideo.Rtp, overhead: nat)
    requires p.padding as int == r.padding && Size(p.extension) == r.extension && |p.payload| == |r.payload|
    requires overhead <= RtpVideo.MAX_RTP - RtpVideo.RTP_HEADER
    ensures |Datagram(p)| == RtpVideo.RTP_HEADER + |r.payload| + r.padding + r.extension
    ensures RtpVideo.WithinSize(r, RtpVideo.MAX_RTP - RtpVideo.RTP_HEADER - overhead) <==> |Datagram(p)| + overhead <= RtpVideo.MAX_RTP
  {
    hide HeaderWord, WriteU16, WriteU32, Zeros, ToWord;
    Words(|p.extension.data|);
    ZerosLength(ToWord(|p.extension.data|));
    if p.padding != 0 {
      ZerosLength(p.padding - 1);
    }
  }

  // ----- A packet byte by byte -----

  lemma PacketExample()
    ensures
      Datagram(Packet(true, 96, 0x1234, 0x0102_0304, 0x0A0B_0C0D, 2, Extension(TWO_BYTE, [1, 1, 7]), [9]))
      == [0xB0, 0xE0, 0x12, 0x34, 1, 2, 3, 4, 10, 11, 12, 13, 0x10, 0, 0, 1, 1, 1, 7, 0, 9, 0, 2]
  {
    ZeroExample();
  }

  lemma ZeroExample()
    ensures Zeros(1) == [0]
  {
    EmptyZeros();
    ZerosMore(0);
  }

  // What a datagram must be to be accepted: a whole header, a whole extension if one is announced, and
  // padding that does not count more bytes than there are.
  lemma AcceptedExactly(data: bytes)
    ensures
      FromUdp(data).Some? <==>
        && |data| >= 12
        && var words := if data[0] / 16 % 2 == 0 then 0 else if |data| < 16 then -1 else data[14] as int * 256 + data[15] as int;
           var start := if data[0] / 16 % 2 == 0 then 12 else 16 + 4 * words;
           && words >= 0 && start <= |data|
           && (data[0] / 32 % 2 == 1 ==> start < |data| && data[|data| - 1] as int <= |data| - start)
  {
    hide Trimmed, IsValidId;
    if |data| >= 12 {
      FlagBits(data[0], data[1]);
      assert data[12..] != [] ==> data[12..][|data| - 13] == data[|data| - 1];
      if |data| >= 16 {
        assert data[12..][2..][0] == data[14] && data[12..][2..][1] == data[15];
        var size := (data[14] as int * 256 + data[15] as int) * 4;
        assert ReadU16(data[12..][2..]) * 4 == size;
        if 16 + size <= |data| {
          assert data[12..][4 + size..] == data[16 + size..];
        }
      }
    }
  }

  lemma FlagBits(b0: uint8, b1: uint8)
    ensures ReadU16([b0, b1]) / 0x1000 % 2 == b0 / 16 % 2 && ReadU16([b0, b1]) / 0x2000 % 2 == b0 / 32 % 2
  {
    var x := b0 * 256 + b1;
    assert x / 0x1000 == b0 / 16;
    assert x / 0x2000 == b0 / 32;
  }
}
