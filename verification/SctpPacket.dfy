// SCTP packets: chunks framed, padded and checksummed, and read back
// (src/sctp/sctp_packet.cpp, src/sctp/sctp_packet_builder.cpp; RFC 4960 section 3), and the bodies of
// DATA and SACK chunks (src/sctp/sctp_session.cpp).
module SctpPacket {
  import opened Wire
  import opened Crc32c
  import opened SctpAcks
  import opened SctpSender

  datatype Chunk = Chunk(kind: uint8, flags: uint8, data: bytes)

  datatype Packet = Packet(srcPort: uint16, dstPort: uint16, tag: uint32, chunks: seq<Chunk>)

  // ----- Chunks -----

  // (n + 3) & ~3
  function Padded(n: nat): (r: nat)
    ensures n <= r < n + 4 && r % 4 == 0
  {
    (n + 3) / 4 * 4
  }

  function Length(data: bytes): uint16 { (4 + |data|) % 0x1_0000 }

  function Frame(c: Chunk): bytes {
    [c.kind, c.flags] + WriteU16(Length(c.data)) + c.data + Repeat<uint8>(0, Padded(Length(c.data)) - Length(c.data))
  }

  function FrameAll(cs: seq<Chunk>): bytes { if cs == [] then [] else FrameAll(cs[..|cs| - 1]) + Frame(cs[|cs| - 1]) }

  // The chunks of a packet body; None when a length is too short or runs past the end.
  function ParseChunks(b: bytes): Option<seq<Chunk>>
    decreases |b|
  {
    if |b| < 4 then Some([])
    else
      var size := ReadU16(b[2..]);
      if size < 4 || size - 4 > |b| - 4 then None
      else
        var next := if Padded(size) <= |b| then Padded(size) else |b|;
        var rest := ParseChunks(b[next..]);
        if rest.None? then None else Some([Chunk(b[0], b[1], b[4..size])] + rest.value)
  }

  // A chunk that its 16-bit length can describe.
  predicate Fits(c: Chunk) { 4 + |c.data| < 0x1_0000 }

  lemma FrameShape(c: Chunk, rest: bytes)
    requires Fits(c)
    ensures
      var b, size := Frame(c) + rest, 4 + |c.data|;
      && |Frame(c)| == Padded(size) && |b| >= 4 && b[0] == c.kind && b[1] == c.flags && ReadU16(b[2..]) == size
      && b[4..size] == c.data && b[Padded(size)..] == rest
  {
    var size := 4 + |c.data|;
    var pad := Repeat<uint8>(0, Padded(size) - size);
    var b := Frame(c) + rest;
    assert b[2..] == WriteU16(size) + (c.data + pad + rest);
    ReadWriteU16(size, c.data + pad + rest);
    assert b[4..] == c.data + pad + rest;
  }

  lemma {:induction false} ParseFramed(cs: seq<Chunk>, tail: bytes, after: seq<Chunk>)
    requires (forall k :: 0 <= k < |cs| ==> Fits(cs[k])) && ParseChunks(tail) == Some(after)
    ensures ParseChunks(FrameAll(cs) + tail) == Some(cs + after)
  {
    hide Frame, ParseChunks, Padded;
    if cs == [] {
      assert FrameAll(cs) + tail == tail && cs + after == after;
    } else {
      var init, c := cs[..|cs| - 1], cs[|cs| - 1];
      ParseOne(c, tail, after);
      ParseFramed(init, Frame(c) + tail, [c] + after);
      Assoc(FrameAll(init), Frame(c), tail);
      assert init + ([c] + after) == cs + after;
    }
  }

  // What follows the first n bytes once they are filled up to a multiple of four, or to the end.
  ghost function Behind(b: bytes, n: nat): bytes {
    var next := if n % 4 == 0 then n else n + 4 - n % 4;
    b[if next <= |b| then next else |b|..]
  }

  // How chunks lie in a packet body: a header of four bytes, with the length of header and data; the data;
  // then, up to the next multiple of four or the end, bytes that do not matter. Less than four bytes at the
  // end do not matter either.
  ghost predicate LaidOut(b: bytes, cs: seq<Chunk>)
    decreases |cs|
  {
    if cs == [] then |b| < 4
    else
      var n := 4 + |cs[0].data|;
      && n <= |b| && b[0] == cs[0].kind && b[1] == cs[0].flags && b[2] as int * 256 + b[3] as int == n && b[4..n] == cs[0].data
      && LaidOut(Behind(b, n), cs[1..])
  }

  lemma BehindIs(b: bytes, n: nat)
    ensures Behind(b, n) == b[if Padded(n) <= |b| then Padded(n) else |b|..]
  {
  }

  // The parser accepts exactly the bodies in which chunks are laid out, and finds them.
  lemma {:induction false} ParseExactly(b: bytes, cs: seq<Chunk>)
    ensures ParseChunks(b) == Some(cs) <==> LaidOut(b, cs)
    decreases |b|
  {
    hide Padded, ParseChunks, LaidOut, Behind, ReadU16;
    LaidOutFirst(b, cs);
    if |b| < 4 {
      ParseEmpty(b);
    } else {
      ParseFirst(b);
      var size := ReadU16(b[2..]);
      if size >= 4 && size - 4 <= |b| - 4 {
        BehindIs(b, size);
        var next := Behind(b, size);
        if cs != [] {
          ParseExactly(next, cs[1..]);
          FirstOf(Chunk(b[0], b[1], b[4..size]), ParseChunks(next), cs);
        }
      }
    }
  }

  lemma FirstOf(c: Chunk, more: Option<seq<Chunk>>, cs: seq<Chunk>)
    requires cs != []
    ensures (if more.None? then None else Some([c] + more.value)) == Some(cs) <==> c == cs[0] && more == Some(cs[1..])
  {
    if more.Some? {
      assert ([c] + more.value)[1..] == more.value;
    }
    assert [cs[0]] + cs[1..] == cs;
  }

  lemma ParseEmpty(b: bytes)
    requires |b| < 4
    ensures ParseChunks(b) == Some([])
  {
  }

  lemma LaidOutFirst(b: bytes, cs: seq<Chunk>)
    ensures cs == [] ==> (LaidOut(b, cs) <==> |b| < 4)
    ensures cs != [] ==>
              (LaidOut(b, cs) <==>
                |b| >= 4
                && var size := ReadU16(b[2..]);
                   && 4 <= size <= |b| && Chunk(b[0], b[1], b[4..size]) == cs[0]
                   && LaidOut(Behind(b, size), cs[1..]))
  {
    hide Behind;
  }

  lemma ParseOne(c: Chunk, tail: bytes, after: seq<Chunk>)
    requires Fits(c) && ParseChunks(tail) == Some(after)
    ensures ParseChunks(Frame(c) + tail) == Some([c] + after)
  {
    hide Frame, Padded, ReadU16;
    FrameShape(c, tail);
  }

  lemma ParseNothing()
    ensures ParseChunks([]) == Some([])
  {
  }

  // ----- The checksum -----

  function Octets(b: bytes): (r: octets)
    ensures |r| == |b|
  {
    if b == [] then [] else Octets(b[..|b| - 1]) + [b[|b| - 1] as bv8]
  }

  lemma {:induction false} OctetsAppend(a: bytes, b: bytes)
    ensures Octets(a + b) == Octets(a) + Octets(b)
  {
    if b == [] {
      assert a + b == a;
    } else {
      OctetsAppend(a, b[..|b| - 1]);
      assert (a + b)[..|a + b| - 1] == a + b[..|b| - 1];
    }
  }

  // crc32c_finalize, as the number whose bytes go on the wire lowest first.
  function Finalized(crc: bv32): uint32 { (!crc) as int }

  // The number in bytes 8 to 11, lowest first.
  function StoredCrc(b: bytes): uint32
    requires |b| >= 12
  {
    b[8] as int + b[9] as int * 0x100 + b[10] as int * 0x1_0000 + b[11] as int * 0x100_0000
  }

  function CrcBytes(crc: uint32): (b: bytes)
    ensures |b| == 4
  {
    [crc % 0x100, crc / 0x100 % 0x100, crc / 0x1_0000 % 0x100, crc / 0x100_0000]
  }

  lemma CrcBytesBack(crc: uint32)
    ensures
      var b := CrcBytes(crc);
      b[0] as int + b[1] as int * 0x100 + b[2] as int * 0x1_0000 + b[3] as int * 0x100_0000 == crc
  {
  }

  // Computed by the builder in one go, over the packet with a zero checksum.
  function BuiltCrc(b: bytes, misaligned: nat): uint32
    requires misaligned < 4
  {
    Finalized(Computed(Shipped, 0xFFFF_FFFF, Octets(b), misaligned))
  }

  const NO_CRC: bytes := [0, 0, 0, 0]

  // Computed by the parser in three pieces, with zeros in place of the checksum.
  function ParsedCrc(b: bytes, misaligned: nat, zerosMisaligned: nat): uint32
    requires misaligned < 4 && zerosMisaligned < 4 && |b| >= 12
  {
    var first := Computed(Shipped, 0xFFFF_FFFF, Octets(b[..8]), misaligned);
    var second := Computed(Shipped, first, Octets(NO_CRC), zerosMisaligned);
    Finalized(Computed(Shipped, second, Octets(b[12..]), misaligned))
  }

  // ----- Packets -----

  function Header(srcPort: uint16, dstPort: uint16, tag: uint32): (h: bytes)
    ensures |h| == 8
  {
    WriteU16(srcPort) + WriteU16(dstPort) + WriteU32(tag)
  }

  function Unsigned(p: Packet): bytes { Header(p.srcPort, p.dstPort, p.tag) + NO_CRC + FrameAll(p.chunks) }

  function Built(p: Packet, misaligned: nat): bytes
    requires misaligned < 4
  {
    Header(p.srcPort, p.dstPort, p.tag) + CrcBytes(BuiltCrc(Unsigned(p), misaligned)) + FrameAll(p.chunks)
  }

  function Parsed(b: bytes, misaligned: nat, zerosMisaligned: nat): Option<Packet>
    requires misaligned < 4 && zerosMisaligned < 4
  {
    if |b| < 12 || ParsedCrc(b, misaligned, zerosMisaligned) != StoredCrc(b) then None
    else
      var chunks := ParseChunks(b[12..]);
      if chunks.None? then None
      else Some(Packet(ReadU16(b), ReadU16(b[2..]), ReadU32(b[4..]), chunks.value))
  }

  // ----- When the two ends agree -----

  // The builder's single pass over the packet and the parser's pass over the chunks come to the same error.
  // The parser's passes over the header and over four zeros are too short for a block.
  predicate ErrorsAgree(p: Packet, built: nat, misaligned: nat)
    requires built < 4 && misaligned < 4
  {
    PassError(Octets(Unsigned(p)), built) == PassError(Octets(FrameAll(p.chunks)), misaligned)
  }

  // Neither the eight bytes of a header nor four zeros ever fill a block.
  lemma ShortPass(data: octets, misaligned: nat)
    requires |data| <= 8 && misaligned < 4
    ensures PassError(data, misaligned) == 0
  {
    hide Steps, Error, BlocksEnd;
    if |data| >= 4 {
      NoBlocks(|data|, misaligned);
      var end := BlocksEnd(|data|, misaligned);
      assert data[InitBytes(misaligned)..end] == [];
      NoError();
      StepsZero(|data| - end);
    }
  }

  lemma NoBlocks(size: nat, misaligned: nat)
    requires misaligned < 4 <= size <= 8
    ensures BlocksEnd(size, misaligned) == InitBytes(misaligned)
  {
  }

  lemma NoError()
    ensures Error([]) == 0
  {
  }

  lemma FinalizedInjective(x: bv32, y: bv32)
    ensures Finalized(x) == Finalized(y) <==> x == y
  {
    hide Xor;
    NotIsXor(x);
    NotIsXor(y);
    XorCancels(x, y, 0xFFFF_FFFF);
    AsInt(!x, !y);
  }

  lemma NotIsXor(x: bv32)
    ensures !x == Xor(x, 0xFFFF_FFFF)
  {
  }

  lemma AsInt(x: bv32, y: bv32)
    ensures x as int == y as int <==> x == y
  {
    assert (x as int) as bv32 == x && (y as int) as bv32 == y;
  }

  // The checksum that the RFC asks for.
  function TrueCrc(b: bytes): uint32 { Finalized(Fold(0xFFFF_FFFF, Octets(b))) }

  // The builder's checksum is right exactly when the errors of its blocks cancel out.
  lemma BuiltExactly(b: bytes, misaligned: nat)
    requires misaligned < 4
    ensures BuiltCrc(b, misaligned) == TrueCrc(b) <==> PassError(Octets(b), misaligned) == 0
  {
    hide Fold, Computed, PassError, Octets, Finalized, Xor;
    var data, start: bv32 := Octets(b), 0xFFFF_FFFF;
    ComputedIs(start, data, misaligned);
    XorSelf(Fold(start, data), PassError(data, misaligned));
    FinalizedInjective(Computed(Shipped, start, data, misaligned), Fold(start, data));
  }

  // The parser's register after its three passes.
  lemma ParsedIs(h: bytes, body: bytes, b: bytes, misaligned: nat, zerosMisaligned: nat)
    requires misaligned < 4 && zerosMisaligned < 4 && |h| == 8 && |b| >= 12 && b[..8] == h && b[12..] == body
    ensures ParsedCrc(b, misaligned, zerosMisaligned)
            == Finalized(Xor(Fold(0xFFFF_FFFF, Octets(h + NO_CRC + body)), PassError(Octets(body), misaligned)))
  {
    hide Fold, Computed, PassError, Octets, Finalized, Xor;
    var start: bv32 := 0xFFFF_FFFF;
    var first, second := Fold(start, Octets(h)), Fold(Fold(start, Octets(h)), Octets(NO_CRC));
    ShortPass(Octets(h), misaligned);
    ShortPass(Octets(NO_CRC), zerosMisaligned);
    ComputedIs(start, Octets(h), misaligned);
    ComputedIs(first, Octets(NO_CRC), zerosMisaligned);
    ComputedIs(second, Octets(body), misaligned);
    XorLaws(first, 0, 0);
    XorLaws(second, 0, 0);
    FoldAppend(start, Octets(h), Octets(NO_CRC));
    FoldAppend(start, Octets(h + NO_CRC), Octets(body));
    OctetsAppend(h, NO_CRC);
    OctetsAppend(h + NO_CRC, body);
  }

  lemma CrcsAgreeExactly(p: Packet, built: nat, misaligned: nat, zerosMisaligned: nat)
    requires built < 4 && misaligned < 4 && zerosMisaligned < 4
    ensures ParsedCrc(Unsigned(p), misaligned, zerosMisaligned) == BuiltCrc(Unsigned(p), built)
            <==> ErrorsAgree(p, built, misaligned)
  {
    hide Header, FrameAll, Fold, Computed, PassError, Octets, Finalized, Xor;
    BuiltParts(p, NO_CRC);
    var u, body, start: bv32 := Unsigned(p), FrameAll(p.chunks), 0xFFFF_FFFF;
    ParsedIs(Header(p.srcPort, p.dstPort, p.tag), body, u, misaligned, zerosMisaligned);
    ComputedIs(start, Octets(u), built);
    var f, e, e' := Fold(start, Octets(u)), PassError(Octets(u), built), PassError(Octets(body), misaligned);
    FinalizedInjective(Xor(f, e'), Xor(f, e));
    XorCancels(e', e, f);
  }

  lemma BuiltParts(p: Packet, crc: bytes)
    requires |crc| == 4
    ensures
      var b := Header(p.srcPort, p.dstPort, p.tag) + crc + FrameAll(p.chunks);
      && |b| >= 12 && b[..8] == Header(p.srcPort, p.dstPort, p.tag) && b[8..12] == crc && b[12..] == FrameAll(p.chunks)
      && ReadU16(b) == p.srcPort && ReadU16(b[2..]) == p.dstPort && ReadU32(b[4..]) == p.tag
  {
    hide WriteU16, WriteU32, ReadU16, ReadU32;
    var rest := crc + FrameAll(p.chunks);
    var b := Header(p.srcPort, p.dstPort, p.tag) + crc + FrameAll(p.chunks);
    U32Length(p.tag);
    assert b == WriteU16(p.srcPort) + (WriteU16(p.dstPort) + (WriteU32(p.tag) + rest));
    ReadWriteU16(p.srcPort, WriteU16(p.dstPort) + (WriteU32(p.tag) + rest));
    ReadWriteU16(p.dstPort, WriteU32(p.tag) + rest);
    ReadWriteU32(p.tag, rest);
    assert b[4..] == b[2..][2..];
  }

  lemma U32Length(v: uint32)
    ensures |WriteU32(v)| == 4
  {
  }

  // A packet is read back, every chunk of it, exactly when the errors of both ends agree, and refused
  // otherwise.
  lemma ParseBuilt(p: Packet, built: nat, misaligned: nat, zerosMisaligned: nat)
    requires built < 4 && misaligned < 4 && zerosMisaligned < 4 && forall k :: 0 <= k < |p.chunks| ==> Fits(p.chunks[k])
    ensures Parsed(Built(p, built), misaligned, zerosMisaligned)
            == if ErrorsAgree(p, built, misaligned) then Some(p) else None
  {
    hide Header, FrameAll, ParseChunks, CrcBytes, Computed, ReadU16, ReadU32, Octets, Finalized, ErrorsAgree;
    CrcsAgreeExactly(p, built, misaligned, zerosMisaligned);
    ReadSigned(p, BuiltCrc(Unsigned(p), built), misaligned, zerosMisaligned);
  }

  // A packet with some checksum is read back exactly when the parser comes to it.
  lemma ReadSigned(p: Packet, crc: uint32, misaligned: nat, zerosMisaligned: nat)
    requires misaligned < 4 && zerosMisaligned < 4 && forall k :: 0 <= k < |p.chunks| ==> Fits(p.chunks[k])
    ensures Parsed(Header(p.srcPort, p.dstPort, p.tag) + CrcBytes(crc) + FrameAll(p.chunks), misaligned, zerosMisaligned)
            == if ParsedCrc(Unsigned(p), misaligned, zerosMisaligned) == crc then Some(p) else None
  {
    hide Header, FrameAll, ParseChunks, CrcBytes, Computed, ReadU16, ReadU32, Octets, Finalized;
    BuiltParts(p, CrcBytes(crc));
    BuiltParts(p, NO_CRC);
    StoredIs(p, crc);
    ParseNothing();
    ParseFramed(p.chunks, [], []);
    assert FrameAll(p.chunks) + [] == FrameAll(p.chunks) && p.chunks + [] == p.chunks;
  }

  // A packet from an end with right tables is read back exactly when the errors in its chunks cancel out.
  lemma ParseTrue(p: Packet, misaligned: nat, zerosMisaligned: nat)
    requires misaligned < 4 && zerosMisaligned < 4 && forall k :: 0 <= k < |p.chunks| ==> Fits(p.chunks[k])
    ensures Parsed(Header(p.srcPort, p.dstPort, p.tag) + CrcBytes(TrueCrc(Unsigned(p))) + FrameAll(p.chunks), misaligned, zerosMisaligned)
            == if PassError(Octets(FrameAll(p.chunks)), misaligned) == 0 then Some(p) else None
  {
    hide Header, FrameAll, Parsed, CrcBytes, PassError, Octets, Finalized, Fold, ParsedCrc, Xor;
    ReadSigned(p, TrueCrc(Unsigned(p)), misaligned, zerosMisaligned);
    BuiltParts(p, NO_CRC);
    var body, f := FrameAll(p.chunks), Fold(0xFFFF_FFFF, Octets(Unsigned(p)));
    ParsedIs(Header(p.srcPort, p.dstPort, p.tag), body, Unsigned(p), misaligned, zerosMisaligned);
    FinalizedInjective(Xor(f, PassError(Octets(body), misaligned)), f);
    XorSelf(f, PassError(Octets(body), misaligned));
  }

  lemma StoredIs(p: Packet, crc: uint32)
    ensures StoredCrc(Header(p.srcPort, p.dstPort, p.tag) + CrcBytes(crc) + FrameAll(p.chunks)) == crc
  {
    hide CrcBytes, Header, FrameAll;
    var b := Header(p.srcPort, p.dstPort, p.tag) + CrcBytes(crc) + FrameAll(p.chunks);
    assert b[8] == CrcBytes(crc)[0] && b[9] == CrcBytes(crc)[1] && b[10] == CrcBytes(crc)[2] && b[11] == CrcBytes(crc)[3];
    CrcBytesBack(crc);
  }

  lemma {:induction false} OctetsAt(b: bytes, k: nat)
    requires k < |b|
    ensures Octets(b)[k] == b[k] as bv8
  {
    if k < |b| - 1 {
      OctetsAt(b[..|b| - 1], k);
    }
  }

  // Every packet of one chunk with these four bytes is refused by the very code that built it.
  lemma RefusedPacket(srcPort: uint16, dstPort: uint16, tag: uint32, kind: uint8, flags: uint8)
    ensures
      var p := Packet(srcPort, dstPort, tag, [Chunk(kind, flags, [0, 0xB5, 0, 0])]);
      !ErrorsAgree(p, 0, 0) && Parsed(Built(p, 0), 0, 0) == None
  {
    hide PassError, Octets, ErrorsAgree, Built, Parsed;
    var p := Packet(srcPort, dstPort, tag, [Chunk(kind, flags, [0, 0xB5, 0, 0])]);
    BadBody(p);
    var u, body := Unsigned(p), FrameAll(p.chunks);
    ShortPass(Octets(body), 0);
    BadPass(u);
    AgreeMeans(p);
    ParseBuilt(p, 0, 0, 0);
  }

  lemma AgreeMeans(p: Packet)
    ensures ErrorsAgree(p, 0, 0) <==> PassError(Octets(Unsigned(p)), 0) == PassError(Octets(FrameAll(p.chunks)), 0)
  {
  }

  lemma BadBody(p: Packet)
    requires |p.chunks| == 1 && p.chunks[0].data == [0, 0xB5, 0, 0]
    ensures |FrameAll(p.chunks)| == 8 && |Unsigned(p)| == 20 && Unsigned(p)[9] == 0 && Unsigned(p)[17] == 0xB5
  {
    hide Header;
    var c := p.chunks[0];
    assert p.chunks[..0] == [] && FrameAll(p.chunks) == [] + Frame(c);
    FrameShape(c, []);
    assert Frame(c)[5] == 0xB5;
    var h := Header(p.srcPort, p.dstPort, p.tag);
    assert (h + NO_CRC)[9] == NO_CRC[1];
  }

  lemma BadPass(u: bytes)
    requires |u| == 20 && u[9] == 0 && u[17] == 0xB5
    ensures PassError(Octets(u), 0) != 0
  {
    hide Octets, Error, Steps;
    OctetsAt(u, 9);
    OctetsAt(u, 17);
    var data := Octets(u);
    assert BlocksEnd(20, 0) == 20;
    var a, b := data[4..12], data[12..20];
    assert data[4..20] == [] + b[..0] + a + b && a[5] == 0 && b[5] == BAD_BYTE;
    OneBadByte(a, b, []);
    assert a + b + [] == data[4..20];
    StepsNonzero(Error(data[4..20]), 0);
  }

  lemma UnsignedSnoc(p: Packet, c: Chunk)
    ensures Unsigned(p.(chunks := p.chunks + [c])) == Unsigned(p) + Frame(c)
  {
    hide Header, Frame;
    assert (p.chunks + [c])[..|p.chunks|] == p.chunks;
    Assoc(Header(p.srcPort, p.dstPort, p.tag) + NO_CRC, FrameAll(p.chunks), Frame(c));
  }

  lemma FrameInSteps(before: bytes, c: Chunk)
    ensures
      var size := Length(c.data);
      var head := before + [c.kind, c.flags] + WriteU16(size);
      var body := if |c.data| > 0 then head + c.data else head;
      var whole := if Padded(size) > size then body + Repeat<uint8>(0, Padded(size) - size) else body;
      whole == before + Frame(c)
  {
    hide Padded, WriteU16;
    var size := Length(c.data);
    var pad, start := Repeat<uint8>(0, Padded(size) - size), [c.kind, c.flags] + WriteU16(size);
    assert before + [c.kind, c.flags] + WriteU16(size) == before + start;
    assert before + start + c.data + pad == before + (start + c.data + pad);
    assert c.data == [] ==> before + start + c.data == before + start;
    assert pad == [] ==> before + start + c.data + pad == before + start + c.data;
  }

  class SctpPacketBuilder {
    var buf: bytes
    ghost var packet: Packet

    ghost predicate Valid() reads this { buf == Unsigned(packet) }

    constructor (srcPort: uint16, dstPort: uint16, tag: uint32)
      ensures Valid() && packet == Packet(srcPort, dstPort, tag, [])
    {
      buf := WriteU16(srcPort) + WriteU16(dstPort) + WriteU32(tag) + NO_CRC;
      packet := Packet(srcPort, dstPort, tag, []);
      new;
      assert buf + [] == buf;
    }

    method AddChunk(kind: uint8, flags: uint8, data: bytes)
      requires Valid()
      modifies this
      ensures Valid() && packet == old(packet).(chunks := old(packet.chunks) + [Chunk(kind, flags, data)])
    {
      hide Unsigned, Frame, Padded, Repeat, WriteU16;
      var chunkLen := (4 + |data|) % 0x1_0000;
      var padded := Padded(chunkLen);
      FrameInSteps(buf, Chunk(kind, flags, data));
      UnsignedSnoc(packet, Chunk(kind, flags, data));
      buf := buf + [kind, flags] + WriteU16(chunkLen);
      if |data| > 0 {
        buf := buf + data;
      }
      if padded > chunkLen {
        buf := buf + Repeat<uint8>(0, padded - chunkLen);
      }
      packet := packet.(chunks := packet.chunks + [Chunk(kind, flags, data)]);
    }

    // Patches the checksum in.
    method Build(misaligned: nat) returns (r: bytes)
      requires Valid() && misaligned < 4
      modifies this
      ensures r == Built(old(packet), misaligned)
    {
      hide Header, FrameAll, CrcBytes, Computed, Octets;
      BuiltParts(packet, NO_CRC);
      var crc := Crc32cUpdate(0xFFFF_FFFF, Octets(buf), misaligned);
      var patch := CrcBytes(Finalized(crc));
      r := buf[..8] + patch + buf[12..];
      buf := [];
    }
  }

  method Parse(b: bytes, misaligned: nat, zerosMisaligned: nat) returns (r: Option<Packet>)
    requires misaligned < 4 && zerosMisaligned < 4
    ensures r == Parsed(b, misaligned, zerosMisaligned)
  {
    hide Computed, ParseChunks, Octets, ReadU16, ReadU32;
    if |b| < 12 {
      return None;
    }
    var crc := Crc32cUpdate(0xFFFF_FFFF, Octets(b[..8]), misaligned);
    crc := Crc32cUpdate(crc, Octets(NO_CRC), zerosMisaligned);
    crc := Crc32cUpdate(crc, Octets(b[12..]), misaligned);
    if Finalized(crc) != StoredCrc(b) {
      return None;
    }
    var chunks, ok := ReadChunks(b[12..]);
    if !ok {
      return None;
    }
    return Some(Packet(ReadU16(b), ReadU16(b[2..]), ReadU32(b[4..]), chunks));
  }

  // What has been read, in front of the rest.
  ghost function Before(chunks: seq<Chunk>, rest: Option<seq<Chunk>>): Option<seq<Chunk>> {
    if rest.None? then None else Some(chunks + rest.value)
  }

  method ReadChunks(b: bytes) returns (chunks: seq<Chunk>, ok: bool)
    ensures ok == ParseChunks(b).Some? && (ok ==> ParseChunks(b).value == chunks)
  {
    hide ParseChunks, Padded, ReadU16;
    chunks, ok := [], true;
    var rest := b;
    BeforeNone(b);
    while |rest| >= 4
      invariant ok && Before(chunks, ParseChunks(rest)) == ParseChunks(b)
      decreases |rest|
    {
      var size := ReadU16(rest[2..]);
      ParseStep(chunks, rest);
      if size < 4 || size - 4 > |rest| - 4 {
        ok := false;
        return;
      }
      chunks := chunks + [Chunk(rest[0], rest[1], rest[4..size])];
      rest := rest[if Padded(size) <= |rest| then Padded(size) else |rest|..];
    }
    ParseEnd(chunks, rest);
  }

  lemma BeforeNone(b: bytes)
    ensures Before([], ParseChunks(b)) == ParseChunks(b)
  {
    if ParseChunks(b).Some? {
      assert [] + ParseChunks(b).value == ParseChunks(b).value;
    }
  }

  lemma ParseEnd(chunks: seq<Chunk>, rest: bytes)
    requires |rest| < 4
    ensures Before(chunks, ParseChunks(rest)) == Some(chunks)
  {
    assert chunks + [] == chunks;
  }

  lemma ParseStep(chunks: seq<Chunk>, rest: bytes)
    requires |rest| >= 4
    ensures
      var size := ReadU16(rest[2..]);
      if size < 4 || size - 4 > |rest| - 4 then Before(chunks, ParseChunks(rest)) == None
      else
        var next := if Padded(size) <= |rest| then Padded(size) else |rest|;
        Before(chunks, ParseChunks(rest)) == Before(chunks + [Chunk(rest[0], rest[1], rest[4..size])], ParseChunks(rest[next..]))
  {
    hide Padded, ReadU16, ParseChunks;
    ParseFirst(rest);
    var size := ReadU16(rest[2..]);
    if size >= 4 && size - 4 <= |rest| - 4 {
      var next := if Padded(size) <= |rest| then Padded(size) else |rest|;
      BeforeOne(chunks, Chunk(rest[0], rest[1], rest[4..size]), ParseChunks(rest[next..]));
    }
  }

  lemma BeforeOne(chunks: seq<Chunk>, c: Chunk, more: Option<seq<Chunk>>)
    ensures Before(chunks + [c], more) == Before(chunks, if more.None? then None else Some([c] + more.value))
  {
    if more.Some? {
      assert chunks + ([c] + more.value) == chunks + [c] + more.value;
    }
  }

  lemma ParseFirst(b: bytes)
    requires |b| >= 4
    ensures
      var size := ReadU16(b[2..]);
      if size < 4 || size - 4 > |b| - 4 then ParseChunks(b) == None
      else
        var more := ParseChunks(b[if Padded(size) <= |b| then Padded(size) else |b|..]);
        ParseChunks(b) == if more.None? then None else Some([Chunk(b[0], b[1], b[4..size])] + more.value)
  {
    hide Padded, ReadU16;
  }

  // ----- Chunk bodies -----

  function DataBody(d: Data): bytes {
    WriteU32(d.tsn) + WriteU16(d.streamId) + WriteU16(d.ssn) + WriteU32(d.ppid) + d.payload
  }

  function ParseData(flags: uint8, b: bytes): Option<Data> {
    if |b| < 12 then None
    else Some(Data(ReadU32(b), flags, ReadU16(b[4..]), ReadU16(b[6..]), ReadU32(b[8..]), b[12..]))
  }

  lemma DataRoundTrip(d: Data)
    ensures ParseData(d.flags, DataBody(d)) == Some(d)
  {
    hide WriteU16, WriteU32, ReadU16, ReadU32;
    U32Length(d.tsn);
    U32Length(d.ppid);
    var b := DataBody(d);
    var afterSsn := WriteU32(d.ppid) + d.payload;
    var afterStream := WriteU16(d.ssn) + afterSsn;
    var afterTsn := WriteU16(d.streamId) + afterStream;
    assert b == WriteU32(d.tsn) + afterTsn;
    ReadWriteU32(d.tsn, afterTsn);
    ReadWriteU16(d.streamId, afterStream);
    ReadWriteU16(d.ssn, afterSsn);
    ReadWriteU32(d.ppid, d.payload);
    assert b[4..] == afterTsn && b[6..] == b[4..][2..] && b[8..] == b[6..][2..] && b[12..] == b[8..][4..];
  }

  function GapBytes(gaps: seq<Gap>): bytes {
    if gaps == [] then [] else WriteU16(gaps[0].start) + WriteU16(gaps[0].end) + GapBytes(gaps[1..])
  }

  function SackBody(s: Sack, rwnd: uint32): bytes {
    WriteU32(s.cum) + WriteU32(rwnd) + WriteU16(|s.gaps| % 0x1_0000) + WriteU16(0) + GapBytes(s.gaps)
  }

  // The first n gap blocks; the reader stops the program when they run past the end.
  function ParseGaps(b: bytes, n: nat): seq<Gap>
    requires |b| >= 4 * n
  {
    if n == 0 then [] else [Gap(ReadU16(b), ReadU16(b[2..]))] + ParseGaps(b[4..], n - 1)
  }

  function ParseSack(b: bytes): Option<(Sack, uint32)> {
    if |b| < 12 || |b| < 12 + 4 * ReadU16(b[8..]) then None
    else Some((Sack(ReadU32(b), ParseGaps(b[12..], ReadU16(b[8..]))), ReadU32(b[4..])))
  }

  lemma {:induction false} GapsRoundTrip(gaps: seq<Gap>, rest: bytes)
    ensures |GapBytes(gaps)| == 4 * |gaps| && ParseGaps(GapBytes(gaps) + rest, |gaps|) == gaps
  {
    hide WriteU16, ReadU16;
    if gaps != [] {
      var tail := GapBytes(gaps[1..]);
      GapsRoundTrip(gaps[1..], rest);
      GapFirst(gaps[0], tail, rest);
    }
  }

  lemma GapFirst(g: Gap, tail: bytes, rest: bytes)
    ensures
      var b := WriteU16(g.start) + WriteU16(g.end) + tail + rest;
      |b| == 4 + |tail| + |rest| && ReadU16(b) == g.start && ReadU16(b[2..]) == g.end && b[4..] == tail + rest
  {
    hide WriteU16, ReadU16;
    var b := WriteU16(g.start) + WriteU16(g.end) + tail + rest;
    assert b == WriteU16(g.start) + (WriteU16(g.end) + (tail + rest));
    ReadWriteU16(g.start, WriteU16(g.end) + (tail + rest));
    ReadWriteU16(g.end, tail + rest);
    assert b[4..] == b[2..][2..];
  }

  lemma SackRoundTrip(s: Sack, rwnd: uint32)
    requires |s.gaps| < 0x1_0000
    ensures ParseSack(SackBody(s, rwnd)) == Some((s, rwnd))
  {
    hide WriteU16, WriteU32, ReadU16, ReadU32, GapBytes, ParseGaps;
    U32Length(s.cum);
    U32Length(rwnd);
    GapsRoundTrip(s.gaps, []);
    var b, gaps := SackBody(s, rwnd), GapBytes(s.gaps);
    var afterCount := WriteU16(0) + gaps;
    var afterRwnd := WriteU16(|s.gaps|) + afterCount;
    var afterCum := WriteU32(rwnd) + afterRwnd;
    assert b == WriteU32(s.cum) + afterCum;
    ReadWriteU32(s.cum, afterCum);
    ReadWriteU32(rwnd, afterRwnd);
    ReadWriteU16(|s.gaps|, afterCount);
    ReadWriteU16(0, gaps);
    assert b[4..] == afterCum && b[8..] == b[4..][4..] && b[10..] == b[8..][2..] && b[12..] == b[10..][2..];
    assert gaps + [] == gaps;
  }

  // ----- Bodies byte by byte -----

  lemma DataExample()
    ensures DataBody(Data(0x0102_0304, 3, 5, 6, 51, [65])) == [1, 2, 3, 4, 0, 5, 0, 6, 0, 0, 0, 51, 65]
  {
  }

  lemma SackExample()
    ensures SackBody(Sack(0x0102_0304, [Gap(2, 3)]), 0x1_0000) == [1, 2, 3, 4, 0, 1, 0, 0, 0, 1, 0, 0, 0, 2, 0, 3]
  {
    var gaps := [Gap(2, 3)];
    assert gaps[1..] == [] && GapBytes([]) == [];
    assert GapBytes(gaps) == WriteU16(2) + WriteU16(3) + [];
  }
}
