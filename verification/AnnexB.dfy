// NAL units of H.264 and H.265, and splitting an Annex B byte stream into them (src/codec_h264.cpp,
// src/codec_h265.cpp). The two parsers are the same code; they differ in where a unit's type is.
module AnnexB {
  import opened Wire

  datatype Codec = H264 | H265

  datatype Kind = Vps | Sps | Pps | Key | Slice | Other

  // The length of a unit's header.
  function HeaderLen(codec: Codec): nat { if codec.H264? then 1 else 2 }

  function TypeOf(codec: Codec, b: uint8): nat { if codec.H264? then b % 32 else b / 2 % 64 }

  function KindOf(codec: Codec, naluType: nat): Kind {
    match codec
    case H264 =>
      if naluType == 7 then Sps
      else if naluType == 8 then Pps
      else if naluType == 5 then Key
      else if naluType == 1 then Slice
      else Other
    case H265 =>
      if naluType == 32 then Vps
      else if naluType == 33 then Sps
      else if naluType == 34 then Pps
      else if 19 <= naluType <= 21 then Key
      else if naluType <= 21 then Slice
      else Other
  }

  // The kind of a unit is in its first byte: in the low five bits, or in the six bits above the lowest.
  lemma UnitKinds(b: uint8)
    ensures
      var kind := KindOf(H264, TypeOf(H264, b));
      && (kind == Sps <==> b % 32 == 7) && (kind == Pps <==> b % 32 == 8)
      && (kind == Key <==> b % 32 == 5) && (kind == Slice <==> b % 32 == 1) && kind != Vps
    ensures
      var kind, low := KindOf(H265, TypeOf(H265, b)), b % 128;
      && (kind == Vps <==> 64 <= low <= 65) && (kind == Sps <==> 66 <= low <= 67) && (kind == Pps <==> 68 <= low <= 69)
      && (kind == Key <==> 38 <= low <= 43) && (kind == Slice <==> low < 38)
  {
    TypeBits(b);
  }

  lemma TypeBits(b: uint8)
    ensures TypeOf(H265, b) == b % 128 / 2
  {
  }

  predicate IsParameter(kind: Kind) { kind.Vps? || kind.Sps? || kind.Pps? }

  // ----- Start codes -----

  predicate IsNalu4(buf: bytes, pos: nat) {
    pos + 4 < |buf| && buf[pos] == 0 && buf[pos + 1] == 0 && buf[pos + 2] == 0 && buf[pos + 3] == 1
  }

  predicate IsNalu3(buf: bytes, pos: nat) {
    pos + 3 < |buf| && buf[pos] == 0 && buf[pos + 1] == 0 && buf[pos + 2] == 1
  }

  // The next start code from `pos` on, and its length; the end and 0 when there is none.
  function FindNext(buf: bytes, pos: nat): (r: (nat, nat))
    requires pos <= |buf|
    ensures pos <= r.0 <= |buf| && r.0 + r.1 <= |buf| && (r.0 < |buf| ==> r.1 > 0)
    decreases |buf| - pos
  {
    if pos == |buf| then (pos, 0)
    else if IsNalu4(buf, pos) then (pos, 4)
    else if IsNalu3(buf, pos) then (pos, 3)
    else FindNext(buf, pos + 1)
  }

  method FindNextNalu(buf: bytes, start: nat) returns (pos: nat, skip: nat)
    requires start <= |buf|
    ensures (pos, skip) == FindNext(buf, start)
  {
    pos := start;
    while pos < |buf|
      invariant pos <= |buf| && FindNext(buf, pos) == FindNext(buf, start)
    {
      if IsNalu4(buf, pos) {
        return pos, 4;
      } else if IsNalu3(buf, pos) {
        return pos, 3;
      }
      pos := pos + 1;
    }
    return pos, 0;
  }

  // ----- The parser -----

  // The units from a start code at `pos` on.
  function NalusFrom(buf: bytes, pos: nat, skip: nat): seq<bytes>
    requires pos + skip <= |buf| && (pos < |buf| ==> skip > 0)
    decreases |buf| - pos
  {
    if pos == |buf| then []
    else
      var next := FindNext(buf, pos + skip);
      [buf[pos + skip..next.0]] + NalusFrom(buf, next.0, next.1)
  }

  function Nalus(buf: bytes): seq<bytes> { NalusFrom(buf, FindNext(buf, 0).0, FindNext(buf, 0).1) }

  class NaluParser {
    const buf: bytes
    var pos: nat
    var skip: nat
    var nextPos: nat
    var nextSkip: nat

    ghost predicate Valid() reads this {
      && pos + skip <= |buf| && (pos < |buf| ==> skip > 0)
      && (nextPos, nextSkip) == FindNext(buf, pos + skip)
    }

    // The units still to come.
    ghost function Rest(): seq<bytes>
      requires Valid()
      reads this
    {
      NalusFrom(buf, pos, skip)
    }

    constructor (buf: bytes)
      ensures Valid() && this.buf == buf && Rest() == Nalus(buf)
    {
      this.buf := buf;
      new;
      pos, skip := FindNextNalu(buf, 0);
      nextPos, nextSkip := FindNextNalu(buf, pos + skip);
    }

    predicate HasCurrent() reads this { pos < |buf| }

    predicate IsAtEnd() reads this { nextPos >= |buf| }

    function CurrData(): (data: bytes)
      requires Valid() && HasCurrent()
      reads this
      ensures Rest() != [] && data == Rest()[0] && (IsAtEnd() <==> |Rest()| == 1)
    {
      assert NalusFrom(buf, nextPos, nextSkip) == [] <==> nextPos == |buf|;
      buf[pos + skip..nextPos]
    }

    method Next()
      requires Valid() && HasCurrent()
      modifies this
      ensures Valid() && Rest() == old(Rest())[1..] && |buf| - pos < old(|buf| - pos)
    {
      pos, skip := nextPos, nextSkip;
      nextPos, nextSkip := FindNextNalu(buf, nextPos + skip);
    }
  }

  // ----- Parsing undoes concatenation -----

  // A unit with a start code of four or of three bytes.
  datatype Coded = Coded(long: bool, nalu: bytes)

  function Code(long: bool): bytes { if long then [0, 0, 0, 1] else [0, 0, 1] }

  function Stream(us: seq<Coded>): bytes {
    if us == [] then [] else Code(us[0].long) + us[0].nalu + Stream(us[1..])
  }

  function Plain(us: seq<Coded>): seq<bytes> { if us == [] then [] else [us[0].nalu] + Plain(us[1..]) }

  // No start code inside, and no zero at the end that a start code could swallow.
  ghost predicate Clean(nalu: bytes) {
    && nalu != [] && nalu[|nalu| - 1] != 0
    && forall i :: 0 <= i < |nalu| - 2 ==> !(nalu[i] == 0 && nalu[i + 1] == 0 && nalu[i + 2] == 1)
  }

  ghost predicate AllClean(us: seq<Coded>) { forall k :: 0 <= k < |us| ==> Clean(us[k].nalu) }

  lemma {:induction false} SkipTo(buf: bytes, pos: nat, end: nat)
    requires pos <= end <= |buf| && forall i :: pos <= i < end ==> !IsNalu4(buf, i) && !IsNalu3(buf, i)
    ensures FindNext(buf, pos) == FindNext(buf, end)
    decreases end - pos
  {
    if pos < end {
      SkipTo(buf, pos + 1, end);
    }
  }

  // Nothing inside a unit looks like a start code, even together with what follows.
  lemma NoCodeInside(buf: bytes, start: nat, nalu: bytes, i: nat)
    requires start + |nalu| <= |buf| && buf[start..start + |nalu|] == nalu && Clean(nalu)
    requires start <= i < start + |nalu|
    ensures !IsNalu4(buf, i) && !IsNalu3(buf, i)
  {
    var k, n := i - start, |nalu|;
    assert forall j :: 0 <= j < n ==> buf[start + j] == nalu[j];
    assert nalu[n - 1] != 0;
    assert buf[i] == nalu[k];
    if k + 1 < n {
      assert buf[i + 1] == nalu[k + 1];
    }
    if k + 2 < n {
      assert buf[i + 2] == nalu[k + 2];
    }
    if k + 3 < n {
      assert buf[i + 3] == nalu[k + 3];
    }
  }

  lemma CodeFound(buf: bytes, pos: nat, long: bool)
    requires pos + |Code(long)| < |buf| && buf[pos..pos + |Code(long)|] == Code(long)
    ensures FindNext(buf, pos) == (pos, |Code(long)|)
  {
    assert forall j :: 0 <= j < |Code(long)| ==> buf[pos + j] == Code(long)[j];
    assert buf[pos + 2] == Code(long)[2];
  }

  lemma {:induction false} ParseFrom(buf: bytes, pos: nat, us: seq<Coded>)
    requires pos <= |buf| && buf[pos..] == Stream(us) && AllClean(us)
    ensures NalusFrom(buf, FindNext(buf, pos).0, FindNext(buf, pos).1) == Plain(us)
    decreases |us|
  {
    hide IsNalu3, IsNalu4, Clean, FindNext, Stream, Code;
    if us != [] {
      var code, nalu := Code(us[0].long), us[0].nalu;
      CleanNonEmpty(nalu);
      var start := pos + |code|;
      var next := start + |nalu|;
      SplitStream(buf, pos, us);
      CodeFound(buf, pos, us[0].long);
      forall i | start <= i < next ensures !IsNalu4(buf, i) && !IsNalu3(buf, i) {
        NoCodeInside(buf, start, nalu, i);
      }
      SkipTo(buf, start, next);
      ParseFrom(buf, next, us[1..]);
      FoundThere(buf, next, us[1..]);
    } else {
      NothingLeft(buf, pos);
    }
  }

  lemma NothingLeft(buf: bytes, pos: nat)
    requires pos <= |buf| && buf[pos..] == Stream([])
    ensures FindNext(buf, pos) == (|buf|, 0)
  {
  }

  lemma CleanNonEmpty(nalu: bytes)
    requires Clean(nalu)
    ensures nalu != []
  {
  }

  lemma SplitStream(buf: bytes, pos: nat, us: seq<Coded>)
    requires pos <= |buf| && us != [] && buf[pos..] == Stream(us)
    ensures
      var start := pos + |Code(us[0].long)|;
      var next := start + |us[0].nalu|;
      && next <= |buf| && buf[pos..start] == Code(us[0].long) && buf[start..next] == us[0].nalu
      && buf[next..] == Stream(us[1..])
  {
    var code, nalu, rest := Code(us[0].long), us[0].nalu, Stream(us[1..]);
    hide Code, Stream;
    StreamFirst(us);
    Parts(buf, pos, code, nalu, rest);
  }

  lemma StreamFirst(us: seq<Coded>)
    requires us != []
    ensures Stream(us) == Code(us[0].long) + us[0].nalu + Stream(us[1..])
  {
  }

  lemma Parts(buf: bytes, pos: nat, a: bytes, b: bytes, c: bytes)
    requires pos <= |buf| && buf[pos..] == a + b + c
    ensures pos + |a| + |b| <= |buf|
    ensures buf[pos..pos + |a|] == a && buf[pos + |a|..pos + |a| + |b|] == b && buf[pos + |a| + |b|..] == c
  {
    var all := a + b + c;
    Sub(buf, pos, 0, |a|);
    Sub(buf, pos, |a|, |a| + |b|);
    Sub(buf, pos, |a| + |b|, |all|);
    assert all[0..|a|] == a;
    assert all[|a|..|a| + |b|] == b;
    assert all[|a| + |b|..|all|] == c;
  }

  lemma Sub(buf: bytes, pos: nat, i: nat, j: nat)
    requires pos <= |buf| && i <= j <= |buf| - pos
    ensures buf[pos..][i..j] == buf[pos + i..pos + j]
  {
  }

  // The unit ends where the next one starts.
  lemma FoundThere(buf: bytes, pos: nat, us: seq<Coded>)
    requires pos <= |buf| && buf[pos..] == Stream(us) && AllClean(us)
    ensures FindNext(buf, pos).0 == pos
  {
    hide IsNalu3, IsNalu4, Clean;
    if us != [] {
      CleanNonEmpty(us[0].nalu);
      SplitStream(buf, pos, us);
      CodeFound(buf, pos, us[0].long);
    }
  }

  // Units come back whatever mix of start codes separates them.
  lemma ParseStream(us: seq<Coded>)
    requires AllClean(us)
    ensures Nalus(Stream(us)) == Plain(us)
  {
    hide Stream, AllClean;
    ParseFrom(Stream(us), 0, us);
  }
}
