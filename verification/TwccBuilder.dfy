// The feedback builder (src/twcc_subscribe.cpp, class Builder).
module TwccBuilder {
  import opened Wire
  import opened Bits
  import opened TwccFeedback
  import opened TwccPlan

  // What the peek functions leave in their two scratch arrays for packets `ts`.
  function ReceivedList(ts: seq<int>): (r: seq<bool>)
    ensures |r| == |ts|
  {
    if ts == [] then [] else ReceivedList(ts[..|ts| - 1]) + [ts[|ts| - 1] != 0]
  }

  function DeltaList(start: int, ts: seq<int>): (r: seq<int>)
    ensures |r| == |ts|
  {
    if ts == [] then []
    else
      var n := |ts| - 1;
      DeltaList(start, ts[..n]) + [if ts[n] == 0 then 0 else ts[n] - EndTime(start, ts[..n])]
  }

  lemma {:induction false} ListsAt(start: int, ts: seq<int>, i: nat)
    requires i < |ts|
    ensures ReceivedList(ts)[i] == (ts[i] != 0)
    ensures DeltaList(start, ts)[i] == if ts[i] == 0 then 0 else ts[i] - EndTime(start, ts[..i])
  {
    if i < |ts| - 1 {
      ListsAt(start, ts[..|ts| - 1], i);
      assert ts[..|ts| - 1][..i] == ts[..i];
    }
  }

  lemma {:induction false} FitsPrefix(start: int, st: seq<nat>, ts: seq<int>, i: nat)
    requires Fits(start, st, ts) && i <= |ts|
    ensures Fits(start, st[..i], ts[..i])
    ensures i < |ts| ==> DeltaFits(EndTime(start, ts[..i]), st[i], ts[i])
    decreases i
  {
    if i > 0 {
      hide DeltaFits;
      FitsPrefix(Step(start, ts[0]), st[1..], ts[1..], i - 1);
      assert ts[..i][1..] == ts[1..][..i - 1] && st[..i][1..] == st[1..][..i - 1];
    }
  }

  // The delta bytes grow by one packet's stamp at a time.
  lemma StampsNext(start: int, st: seq<nat>, ts: seq<int>, i: nat)
    requires Fits(start, st, ts) && i < |ts|
    ensures Fits(start, st[..i], ts[..i]) && Fits(start, st[..i + 1], ts[..i + 1])
    ensures DeltaFits(EndTime(start, ts[..i]), st[i], ts[i])
    ensures Stamps(start, st[..i + 1], ts[..i + 1])
            == Stamps(start, st[..i], ts[..i]) + Stamp(EndTime(start, ts[..i]), st[i], ts[i])
  {
    FitsPrefix(start, st, ts, i);
    FitsPrefix(start, st, ts, i + 1);
    var prev := EndTime(start, ts[..i]);
    hide DeltaFits, Stamp, EndTime;
    assert [st[i]][1..] == [] && [ts[i]][1..] == [];
    assert Fits(prev, [st[i]], [ts[i]]);
    assert Stamps(prev, [st[i]], [ts[i]]) == Stamp(prev, st[i], ts[i]) + [];
    FitsAppend(start, st[..i], ts[..i], [st[i]], [ts[i]]);
    assert st[..i + 1] == st[..i] + [st[i]] && ts[..i + 1] == ts[..i] + [ts[i]];
  }

  // The first `count` entries of the scratch arrays describe the packets of `p`.
  ghost predicate Scratch(p: Piece, count: nat, received: array<bool>, deltaMicros: array<int>)
    requires !p.Lost?
    reads received, deltaMicros
  {
    && count == p.Len() <= received.Length && count <= deltaMicros.Length
    && received[..count] == ReceivedList(p.times) && deltaMicros[..count] == DeltaList(p.start, p.times)
  }

  lemma SmallHeaderStart()
    ensures Digits(1, [1, 0] + [] + Zeros(14)) == 0x8000
  {
    ZerosShift(1, [1, 0], 14);
    ShlSmall(2, 14);
    Shl16();
    assert [1, 0][..1] == [1] && [1][..0] == [];
    assert [1, 0] + [] == [1, 0];
  }

  lemma LargeHeaderStart()
    ensures Digits(2, [3] + [] + Zeros(7)) == 0xC000
  {
    ZerosShift(2, [3], 7);
    ShlSmall(3, 14);
    Shl16();
    assert [3][..0] == [];
    assert [3] + [] == [3];
  }

  lemma HeaderFromZeros(p: Piece)
    requires !p.Lost? && p.FitsWord()
    ensures p.Small? ==> Header(p) == Digits(1, [1, 0] + p.Statuses() + Zeros(14 - |p.times|))
    ensures p.Large? ==> Header(p) == Digits(2, [3] + p.Statuses() + Zeros(7 - |p.times|))
  {
  }

  lemma PlaceNext(w: nat, hi: seq<nat>, st: seq<nat>, i: nat, n: nat)
    requires 1 <= w <= 2 && i < |st| <= n
    ensures Digits(w, hi + st[..i + 1] + Zeros(n - (i + 1)))
            == Digits(w, hi + st[..i] + Zeros(n - i)) + Shl(st[i], w * (n - i - 1))
  {
    PlaceDigit(w, hi + st[..i], st[i], n - i - 1);
    assert hi + st[..i] + [st[i]] == hi + st[..i + 1];
  }

  // The loops over the scratch arrays. Every bit or-ed into a header is still clear, so the or is an
  // addition.
  method SmallHeader(count: nat, received: array<bool>, deltaMicros: array<int>, ghost p: Piece) returns (header: uint16)
    requires p.Small? && p.FitsWord() && Scratch(p, count, received, deltaMicros)
    ensures header == Header(p)
  {
    hide Digits, HeaderDigits, Header, Shl, Zeros, EndTime, StatusList, ReceivedList, DeltaList, Repeat;
    ghost var st := p.Statuses();
    var h: nat := 0x8000;
    SmallHeaderStart();
    assert st[..0] == [];
    HeaderFromZeros(p);
    for i := 0 to count
      invariant h == Digits(1, [1, 0] + st[..i] + Zeros(14 - i))
    {
      var symbol := if received[i] then SMALL_DELTA else NOT_RECEIVED;
      h := h + Shl(symbol, 14 - i - 1);
      assert received[..count][i] == received[i];
      ListsAt(p.start, p.times, i);
      StatusListAt(SMALL_DELTA, p.times, i);
      PlaceNext(1, [1, 0], st, i, 14);
    }
    assert st[..count] == st;
    header := h;
  }

  method SmallStamps(count: nat, received: array<bool>, deltaMicros: array<int>, ghost p: Piece) returns (out: bytes)
    requires p.Small? && Fits(p.start, p.Statuses(), p.times) && Scratch(p, count, received, deltaMicros)
    ensures out == Stamps(p.start, p.Statuses(), p.times)
  {
    hide EndTime, DeltaList, ReceivedList, StatusList;
    ghost var st := p.Statuses();
    out := [];
    for i := 0 to count
      invariant Fits(p.start, st[..i], p.times[..i]) && out == Stamps(p.start, st[..i], p.times[..i])
    {
      assert received[..count][i] == received[i] && deltaMicros[..count][i] == deltaMicros[i];
      ListsAt(p.start, p.times, i);
      StatusListAt(SMALL_DELTA, p.times, i);
      StampsNext(p.start, st, p.times, i);
      if received[i] {
        out := out + WriteU8(deltaMicros[i] / 250);
      }
    }
    assert st[..count] == st && p.times[..count] == p.times;
  }

  method LargeHeader(count: nat, received: array<bool>, deltaMicros: array<int>, ghost p: Piece) returns (header: uint16)
    requires p.Large? && p.FitsWord() && Scratch(p, count, received, deltaMicros)
    ensures header == Header(p)
  {
    hide Digits, HeaderDigits, Header, Shl, Zeros, EndTime, StatusList, ReceivedList, DeltaList, Repeat;
    ghost var st := p.Statuses();
    var h: nat := 0x8000 + 0x4000;
    LargeHeaderStart();
    assert st[..0] == [];
    HeaderFromZeros(p);
    for i := 0 to count
      invariant h == Digits(2, [3] + st[..i] + Zeros(7 - i))
    {
      var symbol := if received[i] then LARGE_DELTA else NOT_RECEIVED;
      h := h + Shl(symbol, 14 - i * 2 - 2);
      assert received[..count][i] == received[i];
      ListsAt(p.start, p.times, i);
      StatusListAt(LARGE_DELTA, p.times, i);
      PlaceNext(2, [3], st, i, 7);
    }
    assert st[..count] == st;
    header := h;
  }

  method LargeStamps(count: nat, received: array<bool>, deltaMicros: array<int>, ghost p: Piece) returns (out: bytes)
    requires p.Large? && Fits(p.start, p.Statuses(), p.times) && Scratch(p, count, received, deltaMicros)
    ensures out == Stamps(p.start, p.Statuses(), p.times)
  {
    hide EndTime, DeltaList, ReceivedList, StatusList;
    ghost var st := p.Statuses();
    out := [];
    for i := 0 to count
      invariant Fits(p.start, st[..i], p.times[..i]) && out == Stamps(p.start, st[..i], p.times[..i])
    {
      assert received[..count][i] == received[i] && deltaMicros[..count][i] == deltaMicros[i];
      ListsAt(p.start, p.times, i);
      StatusListAt(LARGE_DELTA, p.times, i);
      StampsNext(p.start, st, p.times, i);
      if received[i] {
        out := out + WriteU16(FromInt16(TruncDiv(deltaMicros[i], 250)));
      }
    }
    assert st[..count] == st && p.times[..count] == p.times;
  }

  class Builder {
    var baseSeq: uint16
    var packetStatusCount: nat
    var refTimeMicros: int
    var bufHeaders: bytes
    var bufTimestamps: bytes
    ghost var draft: Feedback

    ghost predicate Valid() reads this {
      && draft.chunks.FitWords() && draft.chunks.NonEmpty()
      && Fits(draft.Reference(), draft.Statuses(), draft.Times())
      && baseSeq == draft.base % 0x1_0000
      && packetStatusCount == draft.Count()
      && refTimeMicros == draft.Reference()
      && bufHeaders == Headers(draft.chunks)
      && bufTimestamps == Stamps(draft.Reference(), draft.Statuses(), draft.Times())
    }

    constructor ()
      ensures Valid() && draft == EMPTY
    {
      baseSeq, packetStatusCount, refTimeMicros := 0, 0, 0;
      bufHeaders, bufTimestamps := [], [];
      draft := EMPTY;
    }

    method SetReferenceTime(micros: int)
      requires Valid() && draft.chunks.AllLost()
      requires micros >= 0 && micros % REFERENCE_UNIT == 0
      modifies this
      ensures Valid() && draft == old(draft).(units := micros / REFERENCE_UNIT)
    {
      ghost var d := draft.(units := micros / REFERENCE_UNIT);
      AllLostStamps(draft.Reference(), draft.chunks);
      AllLostStamps(d.Reference(), d.chunks);
      refTimeMicros := micros;
      draft := d;
    }

    method InitBaseSeq(first: nat)
      requires Valid()
      modifies this`baseSeq
      ensures baseSeq == if old(draft).chunks.Nil? then first % 0x1_0000 else old(baseSeq)
    {
      assert draft.chunks.Snoc? ==> |draft.Times()| >= draft.chunks.last.Len();
      if packetStatusCount == 0 {
        baseSeq := first % 0x1_0000;
      }
    }

    method AddNotReceivedRun(first: nat, count: nat)
      requires Valid() && 1 <= count <= MAX_RUN
      modifies this
      ensures Valid() && draft == Extend(old(draft), first, Lost(count))
    {
      ghost var p := Lost(count);
      LostFits(draft.Reference(), draft.Statuses(), draft.Times(), p);
      InitBaseSeq(first);
      bufHeaders := bufHeaders + WriteU16(count);
      packetStatusCount := packetStatusCount + count;
      draft := Extend(draft, first, p);
    }

    method AddSmallDeltaRun(first: nat, count: nat, received: array<bool>, deltaMicros: array<int>, ghost p: Piece)
      requires Valid() && p.Small? && PieceOk(EndTime(draft.Reference(), draft.Times()), p)
      requires Scratch(p, count, received, deltaMicros)
      modifies this
      ensures Valid() && draft == Extend(old(draft), first, p)
    {
      PieceFits(p.start, p);
      FitsAppend(draft.Reference(), draft.Statuses(), draft.Times(), p.Statuses(), p.times);
      InitBaseSeq(first);
      var header := SmallHeader(count, received, deltaMicros, p);
      bufHeaders := bufHeaders + WriteU16(header);
      var stamps := SmallStamps(count, received, deltaMicros, p);
      bufTimestamps := bufTimestamps + stamps;
      packetStatusCount := packetStatusCount + count;
      draft := Extend(draft, first, p);
    }

    method AddLargeDeltaRun(first: nat, count: nat, received: array<bool>, deltaMicros: array<int>, ghost p: Piece)
      requires Valid() && p.Large? && PieceOk(EndTime(draft.Reference(), draft.Times()), p)
      requires Scratch(p, count, received, deltaMicros)
      modifies this
      ensures Valid() && draft == Extend(old(draft), first, p)
    {
      PieceFits(p.start, p);
      FitsAppend(draft.Reference(), draft.Statuses(), draft.Times(), p.Statuses(), p.times);
      InitBaseSeq(first);
      var header := LargeHeader(count, received, deltaMicros, p);
      bufHeaders := bufHeaders + WriteU16(header);
      var stamps := LargeStamps(count, received, deltaMicros, p);
      bufTimestamps := bufTimestamps + stamps;
      packetStatusCount := packetStatusCount + count;
      draft := Extend(draft, first, p);
    }

    predicate Empty()
      reads this
    {
      bufHeaders == [] && bufTimestamps == []
    }

    function SizeSoFar(): nat
      reads this
    {
      3 * 2 + |bufHeaders| + |bufTimestamps|
    }

    // The two measures the generate loop takes of a builder.
    lemma Measures()
      requires Valid()
      ensures Empty() <==> draft.chunks.Nil?
      ensures SizeSoFar() == Size(draft.chunks)
    {
      ChunksSize(draft.chunks);
      StampsLength(draft.Reference(), draft.Statuses(), draft.Times());
    }

    method Generate(fbCount: uint8) returns (r: bytes)
      requires Valid() && FeedbackOk(draft)
      ensures r == Encode(draft, fbCount)
    {
      hide Headers, Stamps, Fits, Chained, Encode, WriteU16, WriteU32, Chunks.Times, Chunks.Statuses;
      r := WriteU16(baseSeq) + WriteU16(packetStatusCount);
      r := r + WriteU32(ReferenceWord(refTimeMicros / REFERENCE_UNIT, fbCount));
      r := r + bufHeaders;
      r := r + bufTimestamps;
      GeneratedBytes(draft, fbCount);
    }
  }

  lemma GeneratedBytes(f: Feedback, fbCount: uint8)
    requires FeedbackOk(f) && f.chunks.FitWords() && Fits(f.Reference(), f.Statuses(), f.Times())
    ensures Encode(f, fbCount)
            == WriteU16(f.base % 0x1_0000) + WriteU16(f.Count()) + WriteU32(ReferenceWord(f.units, fbCount))
               + Headers(f.chunks) + Stamps(f.Reference(), f.Statuses(), f.Times())
  {
    var head := WriteU16(f.base % 0x1_0000) + WriteU16(f.Count()) + WriteU32(ReferenceWord(f.units, fbCount));
    Assoc(head, Headers(f.chunks), Stamps(f.Reference(), f.Statuses(), f.Times()));
  }

  lemma {:induction false} AllLostStamps(start: int, cs: Chunks)
    requires cs.AllLost()
    ensures Fits(start, cs.Statuses(), cs.Times()) && Stamps(start, cs.Statuses(), cs.Times()) == []
    ensures EndTime(start, cs.Times()) == start
  {
    if cs.Snoc? {
      AllLostStamps(start, cs.init);
      LostFits(start, cs.init.Statuses(), cs.init.Times(), cs.last);
    }
  }

  lemma LostFits(start: int, st: seq<nat>, ts: seq<int>, p: Piece)
    requires Fits(start, st, ts) && p.Lost?
    ensures Fits(start, st + p.Statuses(), ts + p.Times())
    ensures Stamps(start, st + p.Statuses(), ts + p.Times()) == Stamps(start, st, ts)
    ensures EndTime(start, ts + p.Times()) == EndTime(start, ts)
  {
    EndTimeLost(EndTime(start, ts), p.count);
    StatusListLost(p.count);
    EndTimeAppend(start, ts, p.Times());
    FitsAppend(start, st, ts, p.Statuses(), p.Times());
  }
}
