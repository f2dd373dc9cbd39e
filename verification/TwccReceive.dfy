// The publisher's reading of a feedback into its history of sent packets
// (src/rtp_extension_source_twcc.cpp).
module TwccReceive {
  import opened Wire
  import opened Bits
  import opened TwccFeedback
  import opened TwccPublish

  // ----- What a feedback does to the history -----

  function SeqAt(base: uint16, i: nat): uint16 { (base + i) % 0x1_0000 }

  function Change(h: History, s: uint16, r: PublishPacket): (h': History)
    requires h.Knows(s)
    ensures h'.min == h.min && |h'.recs| == |h.recs|
  {
    h.(recs := h.recs[h.Offset(s) := r])
  }

  function Mark(h: History, s: uint16, status: nat): (h': History)
    ensures h'.min == h.min && |h'.recs| == |h.recs|
  {
    if HasTime(status) && h.Knows(s) then Change(h, s, h.Find(s).(reportedStatus := status)) else h
  }

  // The first `n` statuses are recorded with the packets the history knows.
  function MarkAll(h: History, base: uint16, st: seq<nat>, n: nat): (h': History)
    requires n <= |st|
    ensures h'.min == h.min && |h'.recs| == |h.recs|
  {
    if n == 0 then h else Mark(MarkAll(h, base, st, n - 1), SeqAt(base, n - 1), st[n - 1])
  }

  // A received packet's time counts from that of the received packet before it, or from the
  // reference time for the first one and for one that follows a packet the history does not know.
  function Dated(reference: int, prev: Option<int>, delta: int): int {
    (if prev.None? then reference else prev.value) + delta
  }

  datatype Dating = Dating(history: History, prev: Option<int>)

  function Date(d: Dating, reference: int, s: uint16, status: nat, delta: int): (d': Dating)
    ensures d'.history.min == d.history.min && |d'.history.recs| == |d.history.recs|
  {
    if !HasTime(status) then d
    else if !d.history.Knows(s) then Dating(d.history, None)
    else
      var t := Dated(reference, d.prev, delta);
      Dating(Change(d.history, s, d.history.Find(s).(receivedTime := t, receivedTimePresent := true)), Some(t))
  }

  function DateAll(h: History, r: Report, n: nat): (d: Dating)
    requires n <= |r.statuses| == |r.deltas|
    ensures d.history.min == h.min && |d.history.recs| == |h.recs|
  {
    if n == 0 then Dating(h, None)
    else
      Date(DateAll(h, r, n - 1), r.referenceMicros, SeqAt(r.base, n - 1), r.statuses[n - 1], r.deltas[n - 1])
  }

  function Apply(h: History, b: bytes): History {
    if |b| < 8 || ReadU16(b[2..]) == 0 then h
    else
      var read := ReadStatuses(b[8..], ReadU16(b[2..]));
      if read.None? then h
      else
        var st := read.value.0;
        var deltas := ReadDeltas(st, read.value.1);
        var marked := MarkAll(h, ReadU16(b), st, |deltas|);
        if |deltas| < |st| then marked
        else DateAll(marked, Report(ReadU16(b), ReferenceOf(ReadU32(b[4..])), st, deltas), |st|).history
  }

  // ----- What each packet's record becomes -----

  // Which packet of a feedback a sequence number is.
  function IndexOf(base: uint16, s: uint16): nat { (s - base) % 0x1_0000 }

  lemma IndexOfSeqAt(base: uint16, i: nat, s: uint16)
    requires i < 0x1_0000
    ensures SeqAt(base, i) == s <==> i == IndexOf(base, s)
  {
  }

  lemma ChangeFind(h: History, s: uint16, r: PublishPacket, q: uint16)
    requires h.Knows(s) && h.Knows(q)
    ensures Change(h, s, r).Knows(q)
    ensures Change(h, s, r).Find(q) == if q == s then r else h.Find(q)
  {
  }

  lemma SameKnows(h: History, h': History, s: uint16)
    requires h'.min == h.min && |h'.recs| == |h.recs|
    ensures h'.Knows(s) == h.Knows(s)
  {
  }

  lemma {:induction false} MarkAllFind(h: History, base: uint16, st: seq<nat>, n: nat, s: uint16)
    requires n <= |st| < 0x1_0000 && h.Knows(s)
    ensures
      var h', i := MarkAll(h, base, st, n), IndexOf(base, s);
      && h'.Knows(s)
      && h'.Find(s) == if i < n && HasTime(st[i]) then h.Find(s).(reportedStatus := st[i]) else h.Find(s)
  {
    hide SeqAt, IndexOf, HasTime, History.Knows, History.Find, Change;
    if n > 0 {
      MarkAllFind(h, base, st, n - 1, s);
      var m, q := MarkAll(h, base, st, n - 1), SeqAt(base, n - 1);
      IndexOfSeqAt(base, n - 1, s);
      if HasTime(st[n - 1]) && m.Knows(q) {
        ChangeFind(m, q, m.Find(q).(reportedStatus := st[n - 1]), s);
      }
    }
  }

  // The time of the last received packet among the first `n`, when each counts from the one before.
  function LastTime(reference: int, st: seq<nat>, deltas: seq<int>, n: nat): (t: Option<int>)
    requires n <= |st| == |deltas|
    ensures n > 0 && HasTime(st[n - 1]) ==> t.Some?
  {
    if n == 0 then None
    else
      var before := LastTime(reference, st, deltas, n - 1);
      if HasTime(st[n - 1]) then Some(Dated(reference, before, deltas[n - 1])) else before
  }

  ghost predicate KnowsReceived(h: History, base: uint16, st: seq<nat>) {
    forall i: nat :: i < |st| && HasTime(st[i]) ==> h.Knows(SeqAt(base, i))
  }

  lemma {:induction false} DateAllFind(h: History, r: Report, n: nat, s: uint16)
    requires n <= |r.statuses| == |r.deltas| < 0x1_0000 && h.Knows(s) && KnowsReceived(h, r.base, r.statuses)
    ensures
      var d, i := DateAll(h, r, n), IndexOf(r.base, s);
      && d.prev == LastTime(r.referenceMicros, r.statuses, r.deltas, n)
      && d.history.Knows(s)
      && d.history.Find(s) ==
         if i < n && HasTime(r.statuses[i]) then
           h.Find(s).(receivedTime := LastTime(r.referenceMicros, r.statuses, r.deltas, i + 1).value,
                      receivedTimePresent := true)
         else h.Find(s)
  {
    hide SeqAt, IndexOf, HasTime, History.Knows, History.Find, Change, Dated;
    if n > 0 {
      DateAllFind(h, r, n - 1, s);
      var d, q := DateAll(h, r, n - 1), SeqAt(r.base, n - 1);
      IndexOfSeqAt(r.base, n - 1, s);
      if HasTime(r.statuses[n - 1]) {
        SameKnows(h, d.history, q);
        var t := Dated(r.referenceMicros, d.prev, r.deltas[n - 1]);
        ChangeFind(d.history, q, d.history.Find(q).(receivedTime := t, receivedTimePresent := true), s);
      }
    }
  }

  lemma {:induction false} LastTimeResolves(reference: int, st: seq<nat>, deltas: seq<int>, k: nat, i: nat)
    requires k <= i < |st| == |deltas| && HasTime(st[i])
    ensures
      var before := LastTime(reference, st, deltas, k);
      Resolve(if before.None? then reference else before.value, st[k..], deltas[k..])[i - k]
      == LastTime(reference, st, deltas, i + 1).value
    decreases i - k
  {
    hide HasTime;
    assert st[k..][1..] == st[k + 1..] && deltas[k..][1..] == deltas[k + 1..];
    if k < i {
      LastTimeResolves(reference, st, deltas, k + 1, i);
    }
  }

  lemma ApplyDecoded(h: History, b: bytes)
    requires Decode(b).Some?
    ensures
      var r := Decode(b).value;
      && |r.statuses| == |r.deltas| < 0x1_0000
      && Apply(h, b) == DateAll(MarkAll(h, r.base, r.statuses, |r.statuses|), r, |r.statuses|).history
  {
  }

  // The record of `s` after a feedback, given the decoded times.
  function Updated(old_: PublishPacket, base: uint16, st: seq<nat>, times: seq<int>, s: uint16): PublishPacket
    requires |times| == |st|
  {
    var i := IndexOf(base, s);
    if i < |st| && HasTime(st[i]) then
      old_.(reportedStatus := st[i], receivedTime := times[i], receivedTimePresent := true)
    else old_
  }

  lemma RecordAfter(h: History, b: bytes, s: uint16)
    requires Decode(b).Some? && h.Knows(s)
    requires KnowsReceived(h, Decode(b).value.base, Decode(b).value.statuses)
    ensures
      var r := Decode(b).value;
      && |r.statuses| == |r.deltas|
      && Apply(h, b).Knows(s)
      && Apply(h, b).Find(s) ==
         Updated(h.Find(s), r.base, r.statuses, Resolve(r.referenceMicros, r.statuses, r.deltas), s)
  {
    hide Decode, Apply, HasTime, History.Knows, History.Find, MarkAll, DateAll, IndexOf, KnowsReceived, LastTime, Resolve;
    var r := Decode(b).value;
    ApplyDecoded(h, b);
    var m, i, n := MarkAll(h, r.base, r.statuses, |r.statuses|), IndexOf(r.base, s), |r.statuses|;
    StillKnowsReceived(h, m, r.base, r.statuses);
    MarkAllFind(h, r.base, r.statuses, n, s);
    DateAllFind(m, r, n, s);
    if i < n && HasTime(r.statuses[i]) {
      LastTimeResolves(r.referenceMicros, r.statuses, r.deltas, 0, i);
      NoLastTime(r.referenceMicros, r.statuses, r.deltas);
      assert r.statuses[0..] == r.statuses && r.deltas[0..] == r.deltas;
    }
  }

  lemma NoLastTime(reference: int, st: seq<nat>, deltas: seq<int>)
    requires |st| == |deltas|
    ensures LastTime(reference, st, deltas, 0).None?
  {
  }

  lemma StillKnowsReceived(h: History, h': History, base: uint16, st: seq<nat>)
    requires KnowsReceived(h, base, st) && h'.min == h.min && |h'.recs| == |h.recs|
    ensures KnowsReceived(h', base, st)
  {
    forall i: nat | i < |st| && HasTime(st[i]) ensures h'.Knows(SeqAt(base, i)) {
      SameKnows(h, h', SeqAt(base, i));
    }
  }

  // ----- The round trip, from the subscriber's times to the publisher's records -----

  // Off by less than 250 k microseconds for the k-th received packet.
  predicate Close(times: seq<int>, i: nat, decoded: int)
    requires i < |times|
  {
    -250 * Received(times[..i + 1]) < times[i] - decoded < 250 * Received(times[..i + 1])
  }

  // Every packet the subscriber received is recorded with its status and its time; every other
  // record is left alone.
  lemma FeedbackRecorded(h: History, f: Feedback, fbCount: uint8, s: uint16)
    requires FeedbackOk(f) && f.units < 0x100_0000
    requires KnowsReceived(h, f.base % 0x1_0000, f.Statuses()) && h.Knows(s)
    ensures
      var before, after, i := h.Find(s), Apply(h, Encode(f, fbCount)), IndexOf(f.base % 0x1_0000, s);
      && after.Knows(s)
      && if i < f.Count() && f.Times()[i] != 0 then
           && after.Find(s).receivedTimePresent && Close(f.Times(), i, after.Find(s).receivedTime)
           && after.Find(s).reportedStatus == f.Statuses()[i] != NOT_RECEIVED
           && after.Find(s) == before.(receivedTimePresent := true, receivedTime := after.Find(s).receivedTime,
                                       reportedStatus := after.Find(s).reportedStatus)
         else after.Find(s) == before
  {
    hide Encode, Decode, Apply, Resolve, FeedbackOk, IndexOf, KnowsReceived, History.Knows, History.Find, Received,
         TruncatesEach;
    var b := Encode(f, fbCount);
    DecodeEncode(f, fbCount);
    RoundTrip(f, fbCount);
    RecordAfter(h, b, s);
  }

  lemma {:induction false} NothingSince(h: History, r: Report, j: nat, n: nat)
    requires j < n <= |r.statuses| == |r.deltas|
    requires HasTime(r.statuses[j]) && !h.Knows(SeqAt(r.base, j))
    requires forall k :: j < k < n ==> !HasTime(r.statuses[k])
    ensures DateAll(h, r, n).prev.None?
    ensures LastTime(r.referenceMicros, r.statuses, r.deltas, n) ==
            LastTime(r.referenceMicros, r.statuses, r.deltas, j + 1)
    decreases n
  {
    hide HasTime, History.Knows, History.Find, Change, SeqAt, Dated;
    if j + 1 < n {
      NothingSince(h, r, j, n - 1);
    } else {
      SameKnows(h, DateAll(h, r, j).history, SeqAt(r.base, j));
    }
  }

  // A received packet that follows one the history no longer knows is dated from the reference time,
  // which is right exactly when the unknown packet arrived at the reference time.
  lemma DatedAfterUnknown(h: History, r: Report, j: nat, i: nat)
    requires j < i < |r.statuses| == |r.deltas|
    requires HasTime(r.statuses[j]) && !h.Knows(SeqAt(r.base, j))
    requires forall k :: j < k < i ==> !HasTime(r.statuses[k])
    requires HasTime(r.statuses[i]) && h.Knows(SeqAt(r.base, i))
    ensures
      var d := DateAll(h, r, i + 1).history;
      && d.Knows(SeqAt(r.base, i))
      && (d.Find(SeqAt(r.base, i)).receivedTime == Resolve(r.referenceMicros, r.statuses, r.deltas)[i]
          <==> Resolve(r.referenceMicros, r.statuses, r.deltas)[j] == r.referenceMicros)
  {
    hide Resolve, HasTime, SeqAt, History.Knows, History.Find;
    NothingSince(h, r, j, i);
    var m, s := DateAll(h, r, i).history, SeqAt(r.base, i);
    SameKnows(h, m, s);
    var t := Dated(r.referenceMicros, None, r.deltas[i]);
    ChangeFind(m, s, m.Find(s).(receivedTime := t, receivedTimePresent := true), s);
    NoLastTime(r.referenceMicros, r.statuses, r.deltas);
    assert r.statuses[0..] == r.statuses && r.deltas[0..] == r.deltas;
    LastTimeResolves(r.referenceMicros, r.statuses, r.deltas, 0, i);
    LastTimeResolves(r.referenceMicros, r.statuses, r.deltas, 0, j);
  }

  // ----- The decoder -----

  // The statuses written so far; the others are still not received.
  ghost predicate Filled(all: seq<nat>, st: seq<nat>) {
    && |st| <= |all| && all[..|st|] == st
    && forall i :: |st| <= i < |all| ==> all[i] == NOT_RECEIVED
  }

  lemma FilledSnoc(all: seq<nat>, st: seq<nat>, symbol: nat)
    requires Filled(all, st) && |st| < |all|
    ensures Filled(all[|st| := symbol], st + [symbol])
  {
  }

  lemma {:induction false} FilledZeros(all: seq<nat>, st: seq<nat>)
    requires Filled(all, st)
    ensures all == st + Zeros(|all| - |st|)
  {
    RepeatAt<nat>(0, |all| - |st|);
  }

  ghost predicate Writing(statuses: array<nat>, st: seq<nat>, base: uint16, seqNumber: uint16, pastEnd: uint16)
    reads statuses
  {
    && 0 < statuses.Length < 0x1_0000 && Filled(statuses[..], st)
    && seqNumber == SeqAt(base, |st|) && pastEnd == SeqAt(base, statuses.Length)
  }

  lemma SeqAtNext(base: uint16, k: nat, n: nat)
    requires k < n < 0x1_0000
    ensures (SeqAt(base, k) + 0x1_0000 - base) % 0x1_0000 == k
    ensures (SeqAt(base, k) + 1) % 0x1_0000 == SeqAt(base, k + 1)
    ensures SeqAt(base, k + 1) == SeqAt(base, n) <==> k + 1 == n
    ensures (SeqAt(base, n) - SeqAt(base, k)) % 0x1_0000 == n - k
  {
  }

  method WriteStatus(statuses: array<nat>, symbol: nat, base: uint16, seqNumber: uint16, pastEnd: uint16,
                     ghost st: seq<nat>)
    returns (next: uint16, last: bool)
    requires Writing(statuses, st, base, seqNumber, pastEnd) && |st| < statuses.Length
    modifies statuses
    ensures Writing(statuses, st + [symbol], base, next, pastEnd) && last == (|st| + 1 == statuses.Length)
  {
    hide Filled, SeqAt;
    SeqAtNext(base, |st|, statuses.Length);
    FilledSnoc(statuses[..], st, symbol);
    var index := (seqNumber + 0x1_0000 - base) % 0x1_0000;
    statuses[index] := symbol;
    next := (seqNumber + 1) % 0x1_0000;
    last := next == pastEnd;
  }

  method WriteRun(statuses: array<nat>, symbol: nat, runLength: nat, base: uint16, seqNumber: uint16, pastEnd: uint16,
                  ghost st: seq<nat>)
    returns (next: uint16)
    requires Writing(statuses, st, base, seqNumber, pastEnd) && |st| + runLength <= statuses.Length
    modifies statuses
    ensures Writing(statuses, st + Repeat(symbol, runLength), base, next, pastEnd)
  {
    hide Writing;
    next := seqNumber;
    var j := 0;
    assert st + Repeat(symbol, 0) == st;
    while j < runLength
      invariant j <= runLength && Writing(statuses, st + Repeat(symbol, j), base, next, pastEnd)
    {
      RepeatSnoc(symbol, j);
      assert st + Repeat(symbol, j) + [symbol] == st + Repeat(symbol, j + 1);
      var last;
      next, last := WriteStatus(statuses, symbol, base, next, pastEnd, st + Repeat(symbol, j));
      if last {
        break;
      }
      j := j + 1;
    }
  }

  method WriteOneBit(statuses: array<nat>, header: uint16, base: uint16, seqNumber: uint16, pastEnd: uint16,
                     ghost st: seq<nat>)
    returns (next: uint16)
    requires Writing(statuses, st, base, seqNumber, pastEnd) && |st| < statuses.Length
    modifies statuses
    ensures Writing(statuses, st + OneBitSymbols(header, Min(14, statuses.Length - |st|)), base, next, pastEnd)
  {
    hide Writing, Shr;
    next := seqNumber;
    var shift := 14;
    assert st + OneBitSymbols(header, 0) == st;
    while shift != 0
      invariant 0 <= shift <= 14 && |st| + 14 - shift <= statuses.Length
      invariant Writing(statuses, st + OneBitSymbols(header, 14 - shift), base, next, pastEnd)
      invariant shift != 0 ==> |st| + 14 - shift < statuses.Length
    {
      var symbol: nat := Shr(header, shift - 1) % 2;
      ghost var soFar := OneBitSymbols(header, 14 - shift);
      assert st + soFar + [symbol] == st + OneBitSymbols(header, 15 - shift);
      var last;
      next, last := WriteStatus(statuses, symbol, base, next, pastEnd, st + soFar);
      if last {
        break;
      }
      shift := shift - 1;
    }
  }

  method WriteTwoBit(statuses: array<nat>, header: uint16, base: uint16, seqNumber: uint16, pastEnd: uint16,
                     ghost st: seq<nat>)
    returns (next: uint16)
    requires Writing(statuses, st, base, seqNumber, pastEnd) && |st| < statuses.Length
    modifies statuses
    ensures Writing(statuses, st + TwoBitSymbols(header, Min(7, statuses.Length - |st|)), base, next, pastEnd)
  {
    hide Writing, Shr;
    next := seqNumber;
    var shift := 14;
    ghost var k := 0;
    assert st + TwoBitSymbols(header, 0) == st;
    while shift != 0
      invariant 0 <= k <= 7 && shift == 14 - 2 * k && |st| + k <= statuses.Length
      invariant Writing(statuses, st + TwoBitSymbols(header, k), base, next, pastEnd)
      invariant k != 7 ==> |st| + k < statuses.Length
      decreases shift
    {
      var symbol: nat := Shr(header, shift - 2) % 4;
      ghost var soFar := TwoBitSymbols(header, k);
      assert st + soFar + [symbol] == st + TwoBitSymbols(header, k + 1);
      var last;
      next, last := WriteStatus(statuses, symbol, base, next, pastEnd, st + soFar);
      if last {
        break;
      }
      shift := shift - 2;
      k := k + 1;
    }
  }

  // One chunk; false when its run is longer than the packets that remain.
  method WriteChunk(statuses: array<nat>, header: uint16, base: uint16, seqNumber: uint16, pastEnd: uint16,
                    ghost st: seq<nat>)
    returns (next: uint16, ok: bool)
    requires Writing(statuses, st, base, seqNumber, pastEnd) && |st| < statuses.Length
    modifies statuses
    ensures
      var symbols := Symbols(header, statuses.Length - |st|);
      && ok == symbols.Some?
      && Writing(statuses, if ok then st + symbols.value else st, base, next, pastEnd)
  {
    hide Shr, Filled, SeqAt;
    next, ok := seqNumber, true;
    if Shr(header, 15) % 2 == 0 {
      var symbol: nat, runLength := Shr(header, 13) % 4, header % 0x2000;
      SeqAtNext(base, |st|, statuses.Length);
      var remaining := (pastEnd - seqNumber) % 0x1_0000;
      if remaining < runLength {
        ok := false;
      } else {
        next := WriteRun(statuses, symbol, runLength, base, seqNumber, pastEnd, st);
      }
    } else if Shr(header, 14) % 2 == 0 {
      next := WriteOneBit(statuses, header, base, seqNumber, pastEnd, st);
    } else {
      next := WriteTwoBit(statuses, header, base, seqNumber, pastEnd, st);
    }
  }

  // The statuses before the ones still to be read, in front of them.
  ghost function After(st: seq<nat>, read: Option<(seq<nat>, bytes)>): Option<(seq<nat>, bytes)> {
    if read.None? then None else Some((st + read.value.0, read.value.1))
  }

  lemma OneMoreChunk(st: seq<nat>, rest: bytes, n: nat)
    requires n > 0 && |rest| >= 2 && Symbols(ReadU16(rest), n).Some?
    ensures
      var symbols := Symbols(ReadU16(rest), n).value;
      After(st, ReadStatuses(rest, n)) == After(st + symbols, ReadStatuses(rest[2..], n - |symbols|))
  {
    hide Symbols;
    var symbols := Symbols(ReadU16(rest), n).value;
    var read := ReadStatuses(rest[2..], n - |symbols|);
    if read.Some? {
      assert st + (symbols + read.value.0) == st + symbols + read.value.0;
    }
  }

  lemma ChunksEnd(st: seq<nat>, rest: bytes, n: nat)
    requires n > 0
    ensures |rest| < 2 ==> After(st, ReadStatuses(rest, n)).None?
    ensures |rest| >= 2 && Symbols(ReadU16(rest), n).None? ==>
              After(st, ReadStatuses(rest, n)) == Some((st + Zeros(n), rest[2..]))
  {
  }

  lemma ChunksDone(all: seq<nat>, st: seq<nat>, rest: bytes)
    requires Filled(all, st) && |all| == |st|
    ensures After(st, ReadStatuses(rest, 0)) == Some((all, rest))
  {
    assert st + [] == all;
  }

  method ReadChunkList(statuses: array<nat>, base: uint16, input: bytes) returns (rest: bytes, ok: bool)
    requires 0 < statuses.Length < 0x1_0000 && Filled(statuses[..], [])
    modifies statuses
    ensures
      var read := ReadStatuses(input, statuses.Length);
      && ok == read.Some? && (ok ==> read.value == (statuses[..], rest))
  {
    hide ReadStatuses, Symbols, Filled, SeqAt, ReadU16;
    ghost var st: seq<nat> := [];
    var pastEnd, seqNumber := (base + statuses.Length) % 0x1_0000, base;
    rest, ok := input, true;
    SeqAtEnds(base, statuses.Length);
    AfterNothing(input, statuses.Length);
    while seqNumber != pastEnd
      invariant Writing(statuses, st, base, seqNumber, pastEnd) && |st| <= statuses.Length && ok
      invariant |st| == statuses.Length <==> seqNumber == pastEnd
      invariant After(st, ReadStatuses(rest, statuses.Length - |st|)) == ReadStatuses(input, statuses.Length)
      decreases |rest|
    {
      ChunksEnd(st, rest, statuses.Length - |st|);
      if |rest| < 2 {
        ok := false;
        return;
      }
      var header := ReadU16(rest);
      var next, fits := WriteChunk(statuses, header, base, seqNumber, pastEnd, st);
      if !fits {
        rest := rest[2..];
        FilledZeros(statuses[..], st);
        return;
      }
      OneMoreChunk(st, rest, statuses.Length - |st|);
      st := st + Symbols(header, statuses.Length - |st|).value;
      rest, seqNumber := rest[2..], next;
      SeqAtSame(base, |st|, statuses.Length);
    }
    ChunksDone(statuses[..], st, rest);
  }

  lemma SeqAtEnds(base: uint16, n: nat)
    requires 0 < n < 0x1_0000
    ensures SeqAt(base, 0) == base && SeqAt(base, n) == (base + n) % 0x1_0000 != base
  {
  }

  lemma SeqAtSame(base: uint16, k: nat, n: nat)
    requires k <= n < 0x1_0000
    ensures SeqAt(base, k) == SeqAt(base, n) <==> k == n
  {
  }

  lemma AfterNothing(input: bytes, n: nat)
    ensures After([], ReadStatuses(input, n)) == ReadStatuses(input, n)
  {
    var read := ReadStatuses(input, n);
    if read.Some? {
      assert [] + read.value.0 == read.value.0;
    }
  }

  // The deltas read so far, in front of those still to be read.
  lemma OneMoreDelta(st: seq<nat>, k: nat, rest: bytes, input: bytes, ds: seq<int>)
    requires k < |st| && ds + ReadDeltas(st[k..], rest) == ReadDeltas(st, input)
    ensures
      var left := ReadDeltas(st[k..], rest);
      var next := st[k + 1..];
      if st[k] == SMALL_DELTA then
        if |rest| < 1 then ds == ReadDeltas(st, input)
        else ds + [250 * rest[0] as int] + ReadDeltas(next, rest[1..]) == ReadDeltas(st, input)
      else if st[k] == LARGE_DELTA then
        if |rest| < 2 then ds == ReadDeltas(st, input)
        else ds + [250 * ToInt16(ReadU16(rest))] + ReadDeltas(next, rest[2..]) == ReadDeltas(st, input)
      else
        ds + [0] + ReadDeltas(next, rest) == ReadDeltas(st, input)
  {
    hide ToInt16, ReadU16;
    assert st[k..][1..] == st[k + 1..];
  }

  lemma DeltasDone(st: seq<nat>, rest: bytes, input: bytes, ds: seq<int>)
    requires |ds| == |st| && ds + ReadDeltas(st[|st|..], rest) == ReadDeltas(st, input)
    ensures ds == ReadDeltas(st, input)
  {
  }

  class RtpExtensionSourceTwcc {
    const packetHistory: PublishPacketHistory

    constructor (history: PublishPacketHistory)
      ensures packetHistory == history
    {
      packetHistory := history;
    }

    method MarkRecord(s: uint16, status: nat)
      requires packetHistory.Valid() && HasTime(status)
      modifies packetHistory`recs, packetHistory.packetList
      ensures packetHistory.Valid() && packetHistory.Abs() == Mark(old(packetHistory.Abs()), s, status)
    {
      hide Cell, RingShows, History.Knows, History.Offset;
      var index := packetHistory.Get(s);
      if index.Some? {
        packetHistory.Put(s, packetHistory.packetList[index.value].(reportedStatus := status));
      }
    }

    method ReadDeltaList(statuses: array<nat>, deltas: array<int>, base: uint16, input: bytes) returns (ok: bool)
      requires packetHistory.Valid() && statuses.Length == deltas.Length
      requires statuses as object != deltas as object
      requires forall i :: 0 <= i < deltas.Length ==> deltas[i] == 0
      modifies packetHistory`recs, packetHistory.packetList, deltas
      ensures packetHistory.Valid()
      ensures
        var ds := ReadDeltas(statuses[..], input);
        && packetHistory.Abs() == MarkAll(old(packetHistory.Abs()), base, statuses[..], |ds|)
        && ok == (|ds| == deltas.Length) && (ok ==> deltas[..] == ds)
    {
      hide ReadDeltas, MarkAll, PublishPacketHistory.Valid, PublishPacketHistory.Abs, ReadU16, ToInt16;
      ghost var h, st, ds := packetHistory.Abs(), statuses[..], [];
      var i, rest := 0, input;
      MarkNone(h, base, st);
      ok := true;
      while i < statuses.Length
        invariant i == |ds| <= statuses.Length && statuses[..] == st && packetHistory.Valid() && ok
        invariant deltas[..i] == ds && forall j :: i <= j < deltas.Length ==> deltas[j] == 0
        invariant packetHistory.Abs() == MarkAll(h, base, st, i)
        invariant ds + ReadDeltas(st[i..], rest) == ReadDeltas(st, input)
      {
        OneMoreDelta(st, i, rest, input, ds);
        var symbol := statuses[i];
        if symbol == SMALL_DELTA {
          if |rest| < 1 {
            ok := false;
            return;
          }
          deltas[i] := 250 * rest[0] as int;
          rest := rest[1..];
          MarkRecord((base + i) % 0x1_0000, symbol);
        } else if symbol == LARGE_DELTA {
          if |rest| < 2 {
            ok := false;
            return;
          }
          deltas[i] := 250 * ToInt16(ReadU16(rest));
          rest := rest[2..];
          MarkRecord((base + i) % 0x1_0000, symbol);
        }
        ds := ds + [deltas[i]];
        MarkAllNext(h, base, st, i);
        i := i + 1;
      }
      DeltasDone(st, rest, input, ds);
    }

    // Times become absolute: each counts from the record the previous received packet's pointer leads to.
    method ResolveTimes(statuses: array<nat>, deltas: array<int>, base: uint16, reference: int)
      requires packetHistory.Valid() && statuses.Length == deltas.Length
      modifies packetHistory`recs, packetHistory.packetList
      ensures packetHistory.Valid()
      ensures
        var r := Report(base, reference, statuses[..], deltas[..]);
        packetHistory.Abs() == DateAll(old(packetHistory.Abs()), r, statuses.Length).history
    {
      hide PublishPacketHistory.Valid, PublishPacketHistory.Abs, DateAll, HasTime;
      ghost var h, r := packetHistory.Abs(), Report(base, reference, statuses[..], deltas[..]);
      var prev: Option<nat>, i := None, 0;
      DateNone(h, r);
      while i < statuses.Length
        invariant i <= statuses.Length && packetHistory.Valid()
        invariant statuses[..] == r.statuses && deltas[..] == r.deltas
        invariant packetHistory.Abs() == DateAll(h, r, i).history
        invariant PointsTo(prev, DateAll(h, r, i).prev)
      {
        DateAllNext(h, r, i);
        if HasTime(statuses[i]) {
          prev := DateRecord((base + i) % 0x1_0000, reference, prev, deltas[i], DateAll(h, r, i).prev);
        }
        i := i + 1;
      }
    }

    // The pointer to the previous received packet's record, which holds its time.
    ghost predicate PointsTo(prev: Option<nat>, time: Option<int>)
      reads packetHistory, packetHistory.packetList
    {
      && prev.Some? == time.Some?
      && (prev.Some? ==>
            && packetHistory.packetList != null && prev.value < packetHistory.packetList.Length
            && packetHistory.packetList[prev.value].receivedTime == time.value)
    }

    method DateRecord(s: uint16, reference: int, prev: Option<nat>, delta: int, ghost time: Option<int>)
      returns (curr: Option<nat>)
      requires packetHistory.Valid() && PointsTo(prev, time)
      modifies packetHistory`recs, packetHistory.packetList
      ensures packetHistory.Valid()
      ensures
        var d := Date(Dating(old(packetHistory.Abs()), time), reference, s, SMALL_DELTA, delta);
        packetHistory.Abs() == d.history && PointsTo(curr, d.prev)
    {
      hide Cell, RingShows, History.Knows, History.Offset;
      curr := packetHistory.Get(s);
      if curr.Some? {
        var record := packetHistory.packetList[curr.value];
        var from := if prev.None? then reference else packetHistory.packetList[prev.value].receivedTime;
        packetHistory.Put(s, record.(receivedTime := from + delta, receivedTimePresent := true));
      }
    }

    method OnReceivedRtcpPacket(input: bytes)
      requires packetHistory.Valid()
      modifies packetHistory`recs, packetHistory.packetList
      ensures packetHistory.Valid() && packetHistory.Abs() == Apply(old(packetHistory.Abs()), input)
    {
      hide PublishPacketHistory.Valid, PublishPacketHistory.Abs, DateAll, MarkAll, ReadStatuses, ReadDeltas, ReadU16, ReadU32;
      if |input| < 8 {
        return;
      }
      var base, count, word := ReadU16(input), ReadU16(input[2..]), ReadU32(input[4..]);
      if count == 0 {
        return;
      }
      var reference := 64 * 1000 * (word as int / 0x100);
      var statuses, deltas := new nat[count](_ => 0), new int[count](_ => 0);
      var rest, ok := ReadChunkList(statuses, base, input[8..]);
      if !ok {
        return;
      }
      ok := ReadDeltaList(statuses, deltas, base, rest);
      if !ok {
        return;
      }
      ResolveTimes(statuses, deltas, base, reference);
    }
  }

  lemma MarkNone(h: History, base: uint16, st: seq<nat>)
    ensures MarkAll(h, base, st, 0) == h
  {
  }

  lemma DateNone(h: History, r: Report)
    requires |r.statuses| == |r.deltas|
    ensures DateAll(h, r, 0) == Dating(h, None)
  {
  }

  lemma DateAllNext(h: History, r: Report, k: nat)
    requires k < |r.statuses| == |r.deltas|
    ensures DateAll(h, r, k + 1) ==
      if HasTime(r.statuses[k]) then Date(DateAll(h, r, k), r.referenceMicros, (r.base + k) % 0x1_0000, SMALL_DELTA, r.deltas[k])
      else DateAll(h, r, k)
  {
  }

  lemma MarkAllNext(h: History, base: uint16, st: seq<nat>, k: nat)
    requires k < |st|
    ensures MarkAll(h, base, st, k + 1) ==
      if HasTime(st[k]) then Mark(MarkAll(h, base, st, k), (base + k) % 0x1_0000, st[k]) else MarkAll(h, base, st, k)
  {
  }
}
