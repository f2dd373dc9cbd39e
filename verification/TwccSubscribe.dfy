// The subscriber's ring of arrivals (src/twcc_subscribe.cpp): saving arrivals and generating feedback.
module TwccSubscribe {
  import opened Wire
  import opened Bits
  import opened TwccFeedback
  import opened TwccPlan
  import opened TwccBuilder
  import ExtendedValues

  const MAX_PACKET_COUNT := 2048
  const NO_PACKETS_RESET_MICROS := 2_000_000

  // ----- The window as a value -----

  // Arrival times (0: not received) of the consecutive sequence numbers from `min` on.
  datatype Window = Window(min: nat, times: seq<int>) {
    function Max(): nat { min + |times| }

    predicate Has(s: int) { min <= s < Max() }

    function At(s: int): int
      requires Has(s)
    {
      times[s - min]
    }
  }

  // The newest 2048.
  function KeepNewest(w: Window): Window {
    if |w.times| <= MAX_PACKET_COUNT then w
    else Window(w.Max() - MAX_PACKET_COUNT, w.times[|w.times| - MAX_PACKET_COUNT..])
  }

  // With `k` packets not received at the max end.
  function Padded(w: Window, k: nat): Window { Window(w.min, w.times + Repeat(0, k)) }

  lemma PaddedStart(w: Window)
    requires |w.times| <= MAX_PACKET_COUNT
    ensures KeepNewest(Padded(w, 0)) == w
  {
    assert w.times + Repeat(0, 0) == w.times;
  }

  lemma PaddedNext(w: Window, k: nat)
    ensures Padded(w, k + 1) == Padded(w, k).(times := Padded(w, k).times + [0])
  {
    RepeatSnoc(0, k);
    assert w.times + Repeat(0, k) + [0] == w.times + (Repeat(0, k) + [0]);
  }

  // Whether an arrival is close enough to be recorded.
  predicate Accepts(w: Window, q: nat) {
    || w.times == []
    || (w.min <= q + MAX_PACKET_COUNT / 4 && q <= w.Max() + MAX_PACKET_COUNT / 4
        && (q < w.min ==> w.Max() - q <= MAX_PACKET_COUNT))
  }

  function Saved(w: Window, q: nat, t: int): Window {
    if !Accepts(w, q) then w
    else if w.times == [] then Window(q, [t])
    else if q >= w.Max() then KeepNewest(Window(w.min, Padded(w, q - w.Max()).times + [t]))
    else if q < w.min then Window(q, [t] + Repeat(0, w.min - q - 1) + w.times)
    else w.(times := w.times[q - w.min := t])
  }

  // An arrival is recorded exactly when the window is empty, or it is at most 512 behind the window and
  // fits in with it in 2048 packets, or it is in the window, or at most 512 past its end. Then it has its
  // time; packets between it and the window enter as not received; every other packet still in the window
  // keeps its time. The window stays contiguous, never exceeds 2048 packets, and only ever loses its oldest
  // ones. Otherwise nothing changes.
  lemma SavedRefinesMap(w: Window, q: nat, t: int)
    requires |w.times| <= 2048
    ensures
      var w' := Saved(w, q, t);
      var near := w.times == [] || (w.min - 512 <= q <= w.Max() + 512 && (q < w.min ==> w.Max() - q <= 2048));
      && (near <==> w'.Has(q) && w'.At(q) == t)
      && (!near ==> w' == w && !w.Has(q))
      && (near ==>
            && 0 < |w'.times| <= 2048
            && (w.times == [] ==> w' == Window(q, [t]))
            && (w.times != [] ==>
                  && w'.Max() == (if q >= w.Max() then q + 1 else w.Max())
                  && w'.min == (if q < w.min then q
                                else if w'.Max() > w.min + 2048 then w'.Max() - 2048 else w.min)
                  && forall s :: w'.Has(s) && s != q ==> w'.At(s) == if w.Has(s) then w.At(s) else 0))
  {
    var w' := Saved(w, q, t);
    if w.times != [] && Accepts(w, q) {
      if q >= w.Max() {
        RepeatAt(0, q - w.Max());
      } else if q < w.min {
        RepeatAt(0, w.min - q - 1);
      }
    }
  }

  // Packets that arrive in order, from `q` on.
  function SavedInOrder(w: Window, q: nat, ts: seq<int>): Window
    decreases |ts|
  {
    if ts == [] then w else SavedInOrder(Saved(w, q, ts[0]), q + 1, ts[1..])
  }

  // Of packets that arrive in order the window holds exactly the last 2048, with their times.
  lemma {:induction false} InOrderRun(w: Window, q: nat, ts: seq<int>)
    requires w.times != [] && |w.times| <= 2048 && q == w.Max()
    ensures
      var w', all := SavedInOrder(w, q, ts), w.times + ts;
      && w'.Max() == q + |ts|
      && w'.times == if |all| <= 2048 then all else all[|all| - 2048..]
    decreases |ts|
  {
    if ts == [] {
      assert w.times + ts == w.times;
    } else {
      var w1 := Saved(w, q, ts[0]);
      assert w.times + Repeat(0, 0) == w.times;
      InOrderRun(w1, q + 1, ts[1..]);
      assert w.times + [ts[0]] + ts[1..] == w.times + ts;
    }
  }

  // The first packet starts the window.
  lemma InOrderFromStart(q: nat, ts: seq<int>)
    requires ts != []
    ensures
      var w' := SavedInOrder(Window(0, []), q, ts);
      w'.Max() == q + |ts| && w'.times == if |ts| <= 2048 then ts else ts[|ts| - 2048..]
  {
    InOrderRun(Window(q, [ts[0]]), q + 1, ts[1..]);
    assert [ts[0]] + ts[1..] == ts;
  }

  // The time base makes 0 mean "not received", so an arrival in the very microsecond of the base is
  // reported as lost; any other arrival is reported as received.
  lemma ArrivalReported(w: Window, q: nat, t: int, fbCount: uint8)
    requires |w.times| <= 2048
    requires w.times == [] || (w.min - 512 <= q <= w.Max() + 512 && (q < w.min ==> w.Max() - q <= 2048))
    requires NonNegative(Saved(w, q, t).times) && Ends(Saved(w, q, t).min, Saved(w, q, t).times, START)
    ensures
      var w' := Saved(w, q, t);
      && w'.Has(q) && AllFinished(Generated(w'.min, w'.times))
      && var st := DecodedStatuses(EncodeAll(Generated(w'.min, w'.times), fbCount));
         q - w'.min < |st| && (HasTime(st[q - w'.min]) <==> t != 0)
  {
    hide Saved, Ends, Generated, EncodeAll, DecodedStatuses;
    SavedRefinesMap(w, q, t);
    var w' := Saved(w, q, t);
    GenerateDecodes(w'.min, w'.times, fbCount);
  }

  // What is left after dropping the first `n`.
  ghost predicate Dropped(after: seq<int>, before: seq<int>, n: int) { 0 <= n <= |before| && after == before[n..] }

  // ----- The ring -----

  // A pointer in mPacketList: null, or a packet with its extended sequence number and arrival time.
  datatype Slot = Free | Held(seqExt: int, time: int)

  // Slot k & 2047 holds packet k, for exactly the packets of the window; every other slot is free.
  ghost predicate RingHolds(slots: seq<Slot>, w: Window) {
    && |slots| == MAX_PACKET_COUNT && |w.times| <= MAX_PACKET_COUNT
    && (forall s :: w.Has(s) ==> slots[s % MAX_PACKET_COUNT] == Held(s, w.At(s)))
    && (forall j :: 0 <= j < MAX_PACKET_COUNT && slots[j].Held? ==>
          w.Has(slots[j].seqExt) && slots[j].seqExt % MAX_PACKET_COUNT == j)
  }

  lemma RingAppend(slots: seq<Slot>, w: Window, t: int)
    requires RingHolds(slots, w) && |w.times| < MAX_PACKET_COUNT
    ensures slots[w.Max() % MAX_PACKET_COUNT].Free?
    ensures RingHolds(slots[w.Max() % MAX_PACKET_COUNT := Held(w.Max(), t)], w.(times := w.times + [t]))
  {
    var w', j := w.(times := w.times + [t]), w.Max() % MAX_PACKET_COUNT;
    forall s | w.Has(s) ensures s % MAX_PACKET_COUNT != j {}
    forall s | w'.Has(s) ensures slots[j := Held(w.Max(), t)][s % MAX_PACKET_COUNT] == Held(s, w'.At(s)) {
      if s != w.Max() {
        assert w.Has(s);
      }
    }
  }

  lemma RingPrepend(slots: seq<Slot>, w: Window, t: int)
    requires RingHolds(slots, w) && |w.times| < MAX_PACKET_COUNT && w.min > 0
    ensures slots[(w.min - 1) % MAX_PACKET_COUNT].Free?
    ensures RingHolds(slots[(w.min - 1) % MAX_PACKET_COUNT := Held(w.min - 1, t)], Window(w.min - 1, [t] + w.times))
  {
    var w', j := Window(w.min - 1, [t] + w.times), (w.min - 1) % MAX_PACKET_COUNT;
    forall s | w.Has(s) ensures s % MAX_PACKET_COUNT != j {}
    forall s | w'.Has(s) ensures slots[j := Held(w.min - 1, t)][s % MAX_PACKET_COUNT] == Held(s, w'.At(s)) {
      if s != w.min - 1 {
        assert w.Has(s);
      }
    }
  }

  lemma RingDropFirst(slots: seq<Slot>, w: Window)
    requires RingHolds(slots, w) && w.times != []
    ensures RingHolds(slots[w.min % MAX_PACKET_COUNT := Free], Window(w.min + 1, w.times[1..]))
  {
    var w', j := Window(w.min + 1, w.times[1..]), w.min % MAX_PACKET_COUNT;
    assert w.Has(w.min);
    forall s | w'.Has(s)
      ensures slots[j := Free][s % MAX_PACKET_COUNT] == Held(s, w'.At(s))
    {
      assert w.Has(s) && s % MAX_PACKET_COUNT != j;
    }
  }

  lemma RingUpdate(slots: seq<Slot>, w: Window, q: nat, t: int)
    requires RingHolds(slots, w) && w.Has(q)
    ensures RingHolds(slots[q % MAX_PACKET_COUNT := Held(q, t)], w.(times := w.times[q - w.min := t]))
  {
    var w', j := w.(times := w.times[q - w.min := t]), q % MAX_PACKET_COUNT;
    forall s | w'.Has(s)
      ensures slots[j := Held(q, t)][s % MAX_PACKET_COUNT] == Held(s, w'.At(s))
    {
      assert w.Has(s);
      if s != q {
        assert s % MAX_PACKET_COUNT != j;
      }
    }
  }

  // ----- What the generate loop still owes -----

  // The 8-bit feedback count after `n` more messages.
  function CountAfter(fbCount: uint8, n: nat): uint8 { (fbCount + n) % 0x100 }

  lemma CountAfterSum(fbCount: uint8, m: nat, n: nat)
    ensures CountAfter(fbCount, 0) == fbCount
    ensures CountAfter(CountAfter(fbCount, m), n) == CountAfter(fbCount, m + n)
  {
  }

  // All messages of a call, and the feedback count after them.
  datatype Goal = Goal(messages: seq<bytes>, fbCount: uint8)

  // The messages so far and those still planned are together the goal.
  ghost predicate Owes(list: seq<bytes>, base: nat, all: seq<int>, s: LoopState, fbCount: uint8, goal: Goal)
    requires NonNegative(all)
  {
    && Invariant(base, all, s) && Ends(base, all, s)
    && AllFinished(Plan(base, all, s))
    && list + EncodeAll(Plan(base, all, s), fbCount) == goal.messages
    && CountAfter(fbCount, |Plan(base, all, s)|) == goal.fbCount
  }

  ghost function EncodeStart(base: nat, all: seq<int>, fbCount: uint8): (goal: Goal)
    requires NonNegative(all) && Ends(base, all, START) && |all| < 0x1_0000
    ensures AllFinished(Generated(base, all))
    ensures goal == Goal(EncodeAll(Generated(base, all), fbCount), CountAfter(fbCount, |Generated(base, all)|))
    ensures Owes([], base, all, START, fbCount, goal)
  {
    EmptyDraft(base, all, 0);
    GenerateTiles(base, all, fbCount);
    Goal(EncodeAll(Generated(base, all), fbCount), CountAfter(fbCount, |Generated(base, all)|))
  }

  lemma OwesStep(list: seq<bytes>, base: nat, all: seq<int>, s: LoopState, fbCount: uint8, goal: Goal)
    requires NonNegative(all) && Owes(list, base, all, s, fbCount, goal) && s.i < |all|
    ensures
      var (flushed, s') := Iterate(base, all, s);
      && (flushed.None? ==> Owes(list, base, all, s', fbCount, goal))
      && (flushed.Some? ==> FeedbackOk(flushed.value))
      && (flushed.Some? ==> Owes(list + [Encode(flushed.value, fbCount)], base, all, s', (fbCount + 1) % 0x100, goal))
  {
    IterateOk(base, all, s);
    IterateProgress(base, all, s);
    var (flushed, s') := Iterate(base, all, s);
    hide Iterate, Invariant;
    if flushed.Some? {
      EmitFirst(list, flushed.value, Plan(base, all, s'), fbCount);
    }
  }

  lemma EmitFirst(list: seq<bytes>, f: Feedback, rest: seq<Feedback>, fbCount: uint8)
    requires AllFinished([f] + rest)
    ensures AllFinished(rest) && FeedbackOk(f)
    ensures list + EncodeAll([f] + rest, fbCount)
            == list + [Encode(f, fbCount)] + EncodeAll(rest, (fbCount + 1) % 0x100)
    ensures CountAfter((fbCount + 1) % 0x100, |rest|) == CountAfter(fbCount, |[f] + rest|)
  {
    assert ([f] + rest)[1..] == rest;
    CountAfterSum(fbCount, 1, |rest|);
    hide Encode;
    var m, ms := Encode(f, fbCount), EncodeAll(rest, (fbCount + 1) % 0x100);
    assert list + ([m] + ms) == list + [m] + ms;
  }

  // The same, by cases: what follows an iteration that found no chunk, and one that appended `p`.
  lemma OwesCases(list: seq<bytes>, base: nat, all: seq<int>, s: LoopState, fbCount: uint8, goal: Goal)
    requires NonNegative(all) && Owes(list, base, all, s, fbCount, goal) && s.i < |all|
    ensures
      var s1 := Open(s, all[s.i]);
      var p := NextPiece(all[s.i..], s1.curr);
      var next: uint8 := CountAfter(fbCount, 1);
      && (p.None? ==>
            && s.draft.chunks.Snoc? && FeedbackOk(s.draft)
            && Owes(list + [Encode(s.draft, fbCount)], base, all, LoopState(s.i, EMPTY, 0), next, goal))
      && (p.Some? ==>
            var s2 := Append(s1, base, p.value);
            && s2.i > s.i
            && (Size(s2.draft.chunks) < MAX_PACKET_SIZE ==> Owes(list, base, all, s2, fbCount, goal))
            && (Size(s2.draft.chunks) >= MAX_PACKET_SIZE ==>
                  && FeedbackOk(s2.draft)
                  && Owes(list + [Encode(s2.draft, fbCount)], base, all, LoopState(s2.i, EMPTY, 0), next, goal)))
  {
    OwesStep(list, base, all, s, fbCount, goal);
    IterateParts(base, all, s);
  }

  lemma OwesEnd(list: seq<bytes>, base: nat, all: seq<int>, s: LoopState, fbCount: uint8, goal: Goal)
    requires NonNegative(all) && Owes(list, base, all, s, fbCount, goal) && s.i == |all|
    ensures s.draft.chunks.Nil? ==> goal == Goal(list, fbCount)
    ensures s.draft.chunks.Snoc? ==>
              FeedbackOk(s.draft) && goal == Goal(list + [Encode(s.draft, fbCount)], CountAfter(fbCount, 1))
  {
    CountAfterSum(fbCount, 0, 0);
    if s.draft.chunks.Snoc? {
      assert Plan(base, all, s) == [s.draft];
      assert [s.draft][1..] == [];
    }
  }

  // What an iteration does, step by step.
  lemma IterateParts(base: nat, all: seq<int>, s: LoopState)
    requires NonNegative(all) && Invariant(base, all, s) && Ends(base, all, s) && s.i < |all|
    ensures
      var s1 := Open(s, all[s.i]);
      var p := NextPiece(all[s.i..], s1.curr);
      && EndTime(s1.draft.Reference(), s1.draft.Times()) == s1.curr
      && (s.curr == 0 ==> s.draft.chunks.AllLost())
      && Size(s.draft.chunks) < MAX_PACKET_SIZE
      && (p.None? ==> s1 == s && s.draft.chunks.Snoc?)
      && (p.Some? ==> p.value.Len() > 0)
  {
    OpenOk(base, all, s);
    if NextPiece(all[s.i..], Open(s, all[s.i]).curr).None? {
      NothingFits(base, all, s);
    } else {
      NextPieceOk(all[s.i..], Open(s, all[s.i]).curr);
    }
  }

  lemma OwesParts(list: seq<bytes>, base: nat, all: seq<int>, s: LoopState, fbCount: uint8, goal: Goal)
    requires NonNegative(all) && Owes(list, base, all, s, fbCount, goal) && s.i < |all|
    ensures
      var s1 := Open(s, all[s.i]);
      && s1.i == s.i && EndTime(s1.draft.Reference(), s.draft.Times()) == s1.curr
      && (s.curr == 0 ==> s.draft.chunks.AllLost())
      && (NextPiece(all[s.i..], s1.curr).None? ==> s1 == s)
  {
    IterateParts(base, all, s);
  }

  lemma NextPieceSome(ts: seq<int>, curr: int)
    requires ts != []
    ensures NextPiece(ts, curr).Some? ==> 0 < NextPiece(ts, curr).value.Len() <= |ts|
    ensures ts[0] == 0 ==> NextPiece(ts, curr).Some?
  {
    if NextPiece(ts, curr).Some? {
      NextPieceOk(ts, curr);
    }
  }

  // The first `n` arrivals of `w` have been peeked at, and belong to the run.
  ghost predicate RunSoFar(w: seq<int>, n: nat, curr: int, last: int, lo: int, hi: int,
                           received: seq<bool>, deltaMicros: seq<int>) {
    && n <= |w| && last == EndTime(curr, w[..n])
    && DeltaRun(w, curr, lo, hi) == n + DeltaRun(w[n..], last, lo, hi)
    && received == ReceivedList(w[..n]) && deltaMicros == DeltaList(curr, w[..n])
  }

  lemma RunStarts(w: seq<int>, curr: int, lo: int, hi: int)
    ensures RunSoFar(w, 0, curr, curr, lo, hi, [], [])
  {
    ListsEmpty(curr);
    assert w[..0] == [] && w[0..] == w;
  }

  lemma RunNext(w: seq<int>, n: nat, curr: int, last: int, lo: int, hi: int, received: seq<bool>, deltaMicros: seq<int>)
    requires n < |w| && RunSoFar(w, n, curr, last, lo, hi, received, deltaMicros)
    ensures
      var t := w[n];
      if t == 0 then RunSoFar(w, n + 1, curr, last, lo, hi, received + [false], deltaMicros + [0])
      else if last + lo <= t <= last + hi then
        RunSoFar(w, n + 1, curr, t, lo, hi, received + [true], deltaMicros + [t - last])
      else DeltaRun(w, curr, lo, hi) == n
  {
    hide EndTime, DeltaList, ReceivedList, DeltaRun;
    ListsSnoc(curr, w, n);
    DeltaRunStep(w, n, last, lo, hi);
  }

  lemma RunEnds(w: seq<int>, n: nat, curr: int, last: int, lo: int, hi: int, received: seq<bool>, deltaMicros: seq<int>)
    requires RunSoFar(w, n, curr, last, lo, hi, received, deltaMicros)
    ensures last == EndTime(curr, w[..n]) && received == ReceivedList(w[..n]) && deltaMicros == DeltaList(curr, w[..n])
    ensures n == |w| ==> DeltaRun(w, curr, lo, hi) == n
  {
    if n == |w| {
      DeltaRunEnd(w, n, last, lo, hi);
    }
  }

  class SubscribePacketHistory {
    const baseTimeMicros: int
    const extender: ExtendedValues.ExtendedValue
    var lastPacketMicros: int
    var lastGeneratedMicros: int
    var packetList: array?<Slot>
    var minSeq: nat
    var maxSeq: nat
    var fbCount: uint8
    ghost var times: seq<int>

    ghost function Abs(): Window reads this { Window(minSeq, times) }

    ghost predicate Valid()
      reads this, extender, packetList
    {
      && extender.Valid() && extender.max == 0xFFFF
      && maxSeq == minSeq + |times| && |times| <= MAX_PACKET_COUNT && NonNegative(times)
      && (packetList == null ==> times == [])
      && (packetList != null ==> RingHolds(packetList[..], Abs()))
    }

    constructor (baseTimeMicros: int)
      ensures Valid() && fresh(extender) && times == [] && packetList == null
    {
      this.baseTimeMicros := baseTimeMicros;
      extender := new ExtendedValues.ExtendedValue(0xFFFF);
      lastPacketMicros, lastGeneratedMicros := 0, 0;
      packetList := null;
      minSeq, maxSeq, fbCount := 0, 0, 0;
      times := [];
    }

    method DeleteMinPacket()
      requires Valid() && times != []
      modifies this`minSeq, this`times, packetList
      ensures Valid() && times == old(times)[1..] && minSeq == old(minSeq) + 1
    {
      RingDropFirst(packetList[..], Abs());
      packetList[minSeq % MAX_PACKET_COUNT] := Free;
      minSeq := minSeq + 1;
      times := times[1..];
    }

    method AddAtMax(t: int)
      requires Valid() && packetList != null && t >= 0 && |times| < MAX_PACKET_COUNT
      modifies this`maxSeq, this`times, packetList
      ensures Valid() && times == old(times) + [t]
    {
      RingAppend(packetList[..], Abs(), t);
      packetList[maxSeq % MAX_PACKET_COUNT] := Held(maxSeq, t);
      maxSeq := maxSeq + 1;
      times := times + [t];
    }

    method AddAtMin(t: int)
      requires Valid() && packetList != null && t >= 0 && |times| < MAX_PACKET_COUNT && minSeq > 0
      modifies this`minSeq, this`times, packetList
      ensures Valid() && times == [t] + old(times) && minSeq == old(minSeq) - 1
    {
      RingPrepend(packetList[..], Abs(), t);
      minSeq := minSeq - 1;
      packetList[minSeq % MAX_PACKET_COUNT] := Held(minSeq, t);
      times := [t] + times;
    }

    // Forgets all packets; the caller starts a new window at once.
    method FreeEverything()
      requires Valid() && packetList != null
      modifies this`packetList, this`times, packetList
      ensures packetList == null && times == []
    {
      for s := minSeq to maxSeq
        invariant packetList == old(packetList)
      {
        packetList[s % MAX_PACKET_COUNT] := Free;
      }
      packetList := null;
      times := [];
    }

    method StartWindow(q: nat, t: int)
      requires t >= 0 && extender.Valid() && extender.max == 0xFFFF && times == []
      requires packetList != null ==> RingHolds(packetList[..], Window(minSeq, []))
      modifies this`packetList, this`minSeq, this`maxSeq, this`times, packetList
      ensures Valid() && packetList != null && Abs() == Window(q, [t])
      ensures packetList == old(packetList) || fresh(packetList)
    {
      if packetList == null {
        packetList := new Slot[MAX_PACKET_COUNT](_ => Free);
      }
      minSeq := q;
      maxSeq := q;
      assert RingHolds(packetList[..], Window(q, []));
      RingAppend(packetList[..], Window(q, []), t);
      packetList[q % MAX_PACKET_COUNT] := Held(q, t);
      maxSeq := q + 1;
      times := [t];
      assert [] + [t] == [t];
    }

    // Adds at the max end; when full, the oldest packet makes room.
    method AddNewest(t: int, ghost w: Window)
      requires Valid() && packetList != null && t >= 0 && Abs() == KeepNewest(w)
      modifies this`minSeq, this`maxSeq, this`times, packetList
      ensures Valid() && Abs() == KeepNewest(w.(times := w.times + [t])) && maxSeq == old(maxSeq) + 1
    {
      NewestAppend(w, t);
      if maxSeq - minSeq == MAX_PACKET_COUNT {
        DeleteMinPacket();
      }
      AddAtMax(t);
    }

    // Larger than max: packets in between enter as not received.
    method ExtendForward(q: nat, t: int)
      requires Valid() && packetList != null && times != [] && q >= maxSeq && t >= 0
      modifies this`minSeq, this`maxSeq, this`times, packetList
      ensures Valid() && Abs() == KeepNewest(Window(old(minSeq), Padded(old(Abs()), q - old(maxSeq)).times + [t]))
    {
      hide RingHolds, KeepNewest, Repeat, NonNegative;
      ghost var w := Abs();
      PaddedStart(w);
      while q > maxSeq
        invariant Valid() && packetList == old(packetList) && old(maxSeq) <= maxSeq <= q
        invariant Abs() == KeepNewest(Padded(w, maxSeq - w.Max()))
      {
        PaddedNext(w, maxSeq - w.Max());
        AddNewest(0, Padded(w, maxSeq - w.Max()));
      }
      AddNewest(t, Padded(w, q - w.Max()));
    }

    // Smaller than min, within capacity: packets in between enter as not received.
    method ExtendBackward(q: nat, t: int)
      requires Valid() && packetList != null && t >= 0
      requires q < minSeq && maxSeq - q <= MAX_PACKET_COUNT
      modifies this`minSeq, this`times, packetList
      ensures Valid() && Abs() == Window(q, [t] + Repeat(0, old(minSeq) - q - 1) + old(times))
    {
      hide RingHolds, NonNegative;
      assert Repeat(0, 0) + times == times;
      while q + 1 < minSeq
        invariant Valid() && packetList == old(packetList) && q < minSeq <= old(minSeq) && maxSeq == old(maxSeq)
        invariant times == Repeat(0, old(minSeq) - minSeq) + old(times)
      {
        AddAtMin(0);
        assert [0] + (Repeat(0, old(minSeq) - minSeq - 1) + old(times)) == Repeat(0, old(minSeq) - minSeq) + old(times);
      }
      AddAtMin(t);
      assert [t] + (Repeat(0, old(minSeq) - q - 1) + old(times)) == [t] + Repeat(0, old(minSeq) - q - 1) + old(times);
    }

    // An arrival at the extended sequence number `q`, after any reset.
    method Record(q: nat, t: int)
      requires extender.Valid() && extender.max == 0xFFFF && t >= 0
      requires packetList != null ==> Valid()
      requires packetList == null ==> times == []
      modifies this`packetList, this`minSeq, this`maxSeq, this`times, packetList
      ensures Valid() && packetList != null
      ensures packetList == old(packetList) || fresh(packetList)
      ensures Abs() == Saved(if old(packetList) == null then Window(0, []) else old(Abs()), q, t)
    {
      if packetList == null || minSeq == maxSeq {
        StartWindow(q, t);
        return;
      }
      if q + MAX_PACKET_COUNT / 4 < minSeq {
        return;
      }
      if q > maxSeq + MAX_PACKET_COUNT / 4 {
        return;
      }
      if q >= maxSeq {
        ExtendForward(q, t);
      } else if q < minSeq {
        if maxSeq - q > MAX_PACKET_COUNT {
          return;
        }
        ExtendBackward(q, t);
      } else {
        RingUpdate(packetList[..], Abs(), q, t);
        packetList[q % MAX_PACKET_COUNT] := Held(q, t);
        times := times[q - minSeq := t];
      }
    }

    // A long silence followed by a jump ahead starts over.
    method SaveIncomingPacket(sequence: uint16, now: int) returns (ghost q: nat)
      requires Valid() && now >= baseTimeMicros
      modifies this, extender, packetList
      ensures Valid() && packetList != null
      ensures packetList == old(packetList) || fresh(packetList)
      ensures (extender.Abs(), q) == ExtendedValues.Extended(0xFFFF, old(extender.Abs()), sequence, now)
      ensures
        var timedOut := old(packetList) != null && old(lastPacketMicros) != 0
                        && now - old(lastPacketMicros) >= 2_000_000 && q > old(maxSeq) + 256;
        Abs() == Saved(if timedOut then Window(0, []) else old(Abs()), q, now - baseTimeMicros)
      ensures lastPacketMicros == now
      ensures lastGeneratedMicros == old(lastGeneratedMicros) && fbCount == old(fbCount)
    {
      var seqExt := extender.Extend(sequence, now);
      q := seqExt;
      var nowExt := now - baseTimeMicros;

      if packetList != null {
        if lastPacketMicros != 0 && now - lastPacketMicros >= NO_PACKETS_RESET_MICROS {
          if seqExt > maxSeq + MAX_PACKET_COUNT / 8 {
            FreeEverything();
          }
        }
      }
      lastPacketMicros := now;

      Record(seqExt, nowExt);
    }

    // ----- Generating -----

    method Advance(count: nat)
      requires Valid() && count <= |times|
      modifies this`minSeq, this`times, packetList
      ensures Valid() && Dropped(times, old(times), count) && minSeq == old(minSeq) + count
    {
      hide RingHolds;
      for i := 0 to count
        invariant Valid() && times == old(times)[i..] && minSeq == old(minSeq) + i
      {
        DeleteMinPacket();
      }
    }

    function TimeOf(cur: nat): (time: int)
      requires Valid() && minSeq <= cur < maxSeq
      reads this, extender, packetList
      ensures time == times[cur - minSeq]
    {
      assert Abs().Has(cur);
      packetList[cur % MAX_PACKET_COUNT].time
    }

    method PeekNotReceivedRun() returns (count: nat)
      requires Valid() && times != [] && times[0] == 0
      ensures count == LostRun(Take(times, MAX_RUN)) && 1 <= count <= MAX_RUN && count <= |times|
    {
      var cur := minSeq;
      var end := if cur + MAX_RUN < maxSeq then cur + MAX_RUN else maxSeq;
      ghost var w := Take(times, MAX_RUN);
      while cur < end
        invariant minSeq <= cur <= end
        invariant forall k :: 0 <= k < cur - minSeq ==> w[k] == 0
      {
        var time := TimeOf(cur);
        if time != 0 {
          break;
        }
        cur := cur + 1;
      }
      LostRunIs(w, cur - minSeq);
      count := cur - minSeq;
    }

    method PeekDeltaRun(limit: nat, lo: int, hi: int, curr: int, received: array<bool>, deltaMicros: array<int>)
      returns (count: nat, last: int)
      requires Valid() && received.Length >= limit && deltaMicros.Length >= limit
      modifies received, deltaMicros
      ensures count == DeltaRun(Take(times, limit), curr, lo, hi) && count <= |times| && count <= limit
      ensures received[..count] == ReceivedList(times[..count])
      ensures deltaMicros[..count] == DeltaList(curr, times[..count])
      ensures last == EndTime(curr, times[..count])
    {
      hide RingHolds, RunSoFar, NonNegative, DeltaRun, EndTime, DeltaList, ReceivedList;
      var cur := minSeq;
      var end := if cur + limit < maxSeq then cur + limit else maxSeq;
      last := curr;
      ghost var w := Take(times, limit);
      RunStarts(w, curr, lo, hi);
      while cur < end
        invariant Valid() && minSeq <= cur <= end
        invariant RunSoFar(w, cur - minSeq, curr, last, lo, hi, received[..cur - minSeq], deltaMicros[..cur - minSeq])
      {
        var time := TimeOf(cur);
        var out := cur - minSeq;
        RunNext(w, out, curr, last, lo, hi, received[..out], deltaMicros[..out]);
        if time == 0 {
          received[out] := false;
          deltaMicros[out] := 0;
        } else if time >= last + lo && time <= last + hi {
          received[out] := true;
          deltaMicros[out] := time - last;
          last := time;
        } else {
          break;
        }
        assert received[..out + 1] == received[..out] + [received[out]];
        assert deltaMicros[..out + 1] == deltaMicros[..out] + [deltaMicros[out]];
        cur := cur + 1;
      }
      count := cur - minSeq;
      assert w[..count] == times[..count];
      RunEnds(w, count, curr, last, lo, hi, received[..count], deltaMicros[..count]);
    }

    // A run of packets not received.
    method AppendLost(builder: Builder, ghost d: LoopState)
      requires Valid() && builder.Valid() && builder.draft == d.draft
      requires times != [] && times[0] == 0
      modifies this`minSeq, this`times, packetList, builder
      ensures Valid() && builder.Valid()
      ensures
        var p := NextPiece(old(times), d.curr);
        && p.Some? && p.value.Len() <= |old(times)|
        && builder.draft == Extend(d.draft, old(minSeq), p.value) && EndTime(d.curr, p.value.Times()) == d.curr
        && minSeq == old(minSeq) + p.value.Len() && Dropped(times, old(times), p.value.Len())
    {
      hide RingHolds;
      var count := PeekNotReceivedRun();
      EndTimeLost(d.curr, count);
      builder.AddNotReceivedRun(minSeq, count);
      Advance(count);
    }

    // A status vector of small deltas, or else of large ones.
    method AppendVector(builder: Builder, curr: int, received: array<bool>, deltaMicros: array<int>)
      returns (appended: bool, last: int)
      requires Valid() && builder.Valid() && received.Length == 14 && deltaMicros.Length == 14
      requires times != [] && times[0] != 0 && EndTime(builder.draft.Reference(), builder.draft.Times()) == curr
      modifies this`minSeq, this`times, packetList, builder, received, deltaMicros
      ensures Valid() && builder.Valid()
      ensures
        var p := NextPiece(old(times), curr);
        && appended == p.Some?
        && (p.None? ==> builder.draft == old(builder.draft) && times == old(times) && minSeq == old(minSeq) && last == curr)
        && (p.Some? ==>
              && p.value.Len() <= |old(times)|
              && builder.draft == Extend(old(builder.draft), old(minSeq), p.value)
              && last == EndTime(curr, p.value.Times())
              && minSeq == old(minSeq) + p.value.Len() && Dropped(times, old(times), p.value.Len()))
    {
      hide RingHolds, EndTime, Builder.Valid, NonNegative, DeltaRun, ReceivedList, DeltaList, Fits;
      var count, time := PeekDeltaRun(14, 0, MAX_SMALL, curr, received, deltaMicros);
      if count == 14 || minSeq + count == maxSeq {
        NextPieceOk(times, curr);
        builder.AddSmallDeltaRun(minSeq, count, received, deltaMicros, NextPiece(times, curr).value);
        Advance(count);
        return true, time;
      }
      count, time := PeekDeltaRun(7, MIN_LARGE, MAX_LARGE, curr, received, deltaMicros);
      if count == 7 || minSeq + count == maxSeq {
        NextPieceOk(times, curr);
        builder.AddLargeDeltaRun(minSeq, count, received, deltaMicros, NextPiece(times, curr).value);
        Advance(count);
        return true, time;
      }
      return false, curr;
    }

    // Appends the next chunk, if one fits, opening the feedback at its first received packet.
    method AppendNext(builder: Builder, currTime: int, received: array<bool>, deltaMicros: array<int>,
                      ghost s: LoopState, ghost t: int)
      returns (appended: bool, curr: int)
      requires Valid() && builder.Valid() && received.Length == 14 && deltaMicros.Length == 14
      requires times != [] && times[0] == t >= 0 && s.draft == builder.draft && s.curr == currTime
      requires EndTime(Open(s, t).draft.Reference(), s.draft.Times()) == Open(s, t).curr
      requires s.curr == 0 ==> s.draft.chunks.AllLost()
      modifies this`minSeq, this`times, packetList, builder, received, deltaMicros
      ensures Valid() && builder.Valid()
      ensures
        var s1 := Open(s, t);
        var p := NextPiece(old(times), s1.curr);
        && appended == p.Some?
        && (p.None? ==> builder.draft == s1.draft && curr == s1.curr && minSeq == old(minSeq) && times == old(times))
        && (p.Some? ==>
              && 0 < p.value.Len() <= |old(times)|
              && builder.draft == Extend(s1.draft, old(minSeq), p.value) && curr == EndTime(s1.curr, p.value.Times())
              && minSeq == old(minSeq) + p.value.Len() && Dropped(times, old(times), p.value.Len()))
    {
      hide RingHolds, EndTime;
      curr := currTime;
      var time := TimeOf(minSeq);
      if time == 0 {
        NextPieceSome(times, curr);
        AppendLost(builder, s);
        appended := true;
      } else {
        if curr == 0 {
          curr := TruncDiv(time, REFERENCE_UNIT) * REFERENCE_UNIT;
          builder.SetReferenceTime(curr);
        }
        NextPieceSome(times, curr);
        appended, curr := AppendVector(builder, curr, received, deltaMicros);
      }
    }

    // Emits the builder's feedback and starts an empty one.
    method Flush(builder: Builder, list: seq<bytes>) returns (fresh_: Builder, longer: seq<bytes>)
      requires Valid() && builder.Valid() && FeedbackOk(builder.draft)
      modifies this`fbCount
      ensures Valid()
      ensures fresh(fresh_) && fresh_.Valid() && fresh_.draft == EMPTY
      ensures longer == list + [Encode(builder.draft, old(fbCount))] && fbCount == CountAfter(old(fbCount), 1)
    {
      var message := builder.Generate(fbCount);
      longer := list + [message];
      fbCount := CountAfter(fbCount, 1);
      fresh_ := new Builder();
    }

    // Flushes when nothing fitted or when the feedback has grown too large.
    method Settle(builder: Builder, list: seq<bytes>, appended: bool, currTime: int)
      returns (next: Builder, longer: seq<bytes>, curr: int)
      requires Valid() && builder.Valid() && (!appended ==> builder.draft.chunks.Snoc?)
      requires !appended || Size(builder.draft.chunks) >= MAX_PACKET_SIZE ==> FeedbackOk(builder.draft)
      modifies this`fbCount
      ensures Valid() && next.Valid()
      ensures
        if !appended || Size(builder.draft.chunks) >= MAX_PACKET_SIZE then
          && fresh(next) && next.draft == EMPTY && curr == 0
          && longer == list + [Encode(builder.draft, old(fbCount))] && fbCount == CountAfter(old(fbCount), 1)
        else
          next == builder && longer == list && curr == currTime && fbCount == old(fbCount)
    {
      next, longer, curr := builder, list, currTime;
      builder.Measures();
      if !appended {
        if !builder.Empty() {
          next, longer := Flush(builder, list);
          curr := 0;
        }
      } else if builder.SizeSoFar() >= MAX_PACKET_SIZE {
        next, longer := Flush(builder, list);
        curr := 0;
      }
    }

    // The window is what is left of `all`, which started at `base`.
    ghost predicate Remaining(base: nat, all: seq<int>)
      reads this
    {
      base <= minSeq <= maxSeq == base + |all| && times == all[minSeq - base..]
    }

    lemma RemainingStart()
      requires Valid()
      ensures Remaining(minSeq, times) && NonNegative(times) && minSeq <= maxSeq
    {
      assert times[0..] == times;
    }

    lemma RemainingNow(base: nat, all: seq<int>)
      requires Remaining(base, all)
      ensures base <= minSeq <= maxSeq == base + |all| && times == all[minSeq - base..]
    {
    }

    // What one turn has to do, in terms of the window.
    lemma TurnCases(list: seq<bytes>, base: nat, all: seq<int>, s: LoopState, goal: Goal)
      requires NonNegative(all) && Remaining(base, all) && minSeq < maxSeq && s.i == minSeq - base
      requires Owes(list, base, all, s, fbCount, goal)
      ensures times != [] && times[0] >= 0 && Dropped(times, times, 0)
      ensures
        var s1 := Open(s, times[0]);
        var p := NextPiece(times, s1.curr);
        var next := CountAfter(fbCount, 1);
        && EndTime(s1.draft.Reference(), s.draft.Times()) == s1.curr && s1.i == s.i
        && (s.curr == 0 ==> s.draft.chunks.AllLost())
        && (p.None? ==>
              && s1 == s && s.draft.chunks.Snoc? && FeedbackOk(s.draft)
              && Owes(list + [Encode(s.draft, fbCount)], base, all, LoopState(s.i, EMPTY, 0), next, goal))
        && (p.Some? ==>
              var s2 := Append(s1, base, p.value);
              && (Size(s2.draft.chunks) < MAX_PACKET_SIZE ==> Owes(list, base, all, s2, fbCount, goal))
              && (Size(s2.draft.chunks) >= MAX_PACKET_SIZE ==>
                    && FeedbackOk(s2.draft)
                    && Owes(list + [Encode(s2.draft, fbCount)], base, all, LoopState(s2.i, EMPTY, 0), next, goal)))
    {
      assert times == all[s.i..] && times[0] == all[s.i] && times[0..] == times;
      hide NextPiece, Owes, Open, EndTime, FeedbackOk, Encode, Chained, Append, Size;
      OwesCases(list, base, all, s, fbCount, goal);
      OwesParts(list, base, all, s, fbCount, goal);
    }

    lemma RemainingAfter(base: nat, all: seq<int>, min: nat, us: seq<int>)
      requires base <= min && maxSeq == base + |all| && min - base <= |all| && us == all[min - base..]
      requires min <= minSeq && Dropped(times, us, minSeq - min)
      ensures Remaining(base, all) && base <= minSeq <= maxSeq
    {
    }

    // One turn of the generate loop.
    method Turn(builder: Builder, list: seq<bytes>, currTime: int, received: array<bool>, deltaMicros: array<int>,
                ghost base: nat, ghost all: seq<int>, ghost goal: Goal)
      returns (next: Builder, longer: seq<bytes>, curr: int)
      requires Valid() && builder.Valid() && received.Length == 14 && deltaMicros.Length == 14
      requires NonNegative(all) && Remaining(base, all) && base <= minSeq < maxSeq
      requires Owes(list, base, all, LoopState(minSeq - base, builder.draft, currTime), fbCount, goal)
      modifies this`minSeq, this`times, this`fbCount, packetList, builder, received, deltaMicros
      ensures Valid() && next.Valid() && (next == builder || fresh(next))
      ensures minSeq >= old(minSeq) && Dropped(times, old(times), minSeq - old(minSeq))
      ensures Owes(longer, base, all, LoopState(minSeq - base, next.draft, curr), fbCount, goal)
      ensures minSeq > old(minSeq) || (minSeq == old(minSeq) && old(builder.draft).chunks.Snoc? && next.draft.chunks.Nil?)
    {
      hide SubscribePacketHistory.Valid, SubscribePacketHistory.Abs, SubscribePacketHistory.Remaining, RingHolds;
      hide Dropped, EndTime, NextPiece, NonNegative, Open, Owes, Builder.Valid, CountAfter, Encode, FeedbackOk;
      ghost var s := LoopState(minSeq - base, builder.draft, currTime);
      TurnCases(list, base, all, s, goal);
      ghost var s1 := Open(s, times[0]);
      ghost var p := NextPiece(times, s1.curr);
      var appended;
      appended, curr := AppendNext(builder, currTime, received, deltaMicros, s, times[0]);
      assert LoopState(minSeq - base, builder.draft, curr) == if p.None? then s else Append(s1, base, p.value);
      next, longer, curr := Settle(builder, list, appended, curr);
    }

    // The generate loop: all packets are in the messages or in the builder.
    method Drain(first: Builder, received: array<bool>, deltaMicros: array<int>, ghost goal: Goal)
      returns (list: seq<bytes>, builder: Builder)
      requires Valid() && first.Valid() && first.draft == EMPTY && received.Length == 14 && deltaMicros.Length == 14
      requires Owes([], minSeq, times, START, fbCount, goal)
      modifies this`minSeq, this`times, this`fbCount, packetList, first, received, deltaMicros
      ensures Valid() && minSeq == maxSeq && builder.Valid()
      ensures builder.draft.chunks.Nil? ==> goal == Goal(list, fbCount)
      ensures builder.draft.chunks.Snoc? ==>
                && FeedbackOk(builder.draft)
                && goal == Goal(list + [Encode(builder.draft, fbCount)], CountAfter(fbCount, 1))
    {
      hide SubscribePacketHistory.Valid, SubscribePacketHistory.Abs, SubscribePacketHistory.Remaining;
      hide Dropped, RingHolds, NonNegative, Owes, Builder.Valid, CountAfter, Encode, FeedbackOk;
      list := [];
      builder := first;
      var currTime := 0;
      ghost var base, all := minSeq, times;
      RemainingStart();
      while minSeq < maxSeq
        invariant Valid() && (builder == first || fresh(builder)) && builder.Valid()
        invariant Remaining(base, all) && base <= minSeq <= maxSeq
        invariant Owes(list, base, all, LoopState(minSeq - base, builder.draft, currTime), fbCount, goal)
        decreases maxSeq - minSeq, builder.draft.chunks.Snoc?
      {
        ghost var min, us := minSeq, times;
        RemainingNow(base, all);
        builder, list, currTime := Turn(builder, list, currTime, received, deltaMicros, base, all, goal);
        RemainingAfter(base, all, min, us);
      }
      OwesEnd(list, base, all, LoopState(minSeq - base, builder.draft, currTime), fbCount, goal);
    }

    method Generate(now: int) returns (list: seq<bytes>)
      requires Valid() && Ends(minSeq, times, START)
      modifies this`minSeq, this`times, this`fbCount, this`lastGeneratedMicros, packetList
      ensures Valid() && times == [] && minSeq == maxSeq
      ensures AllFinished(Generated(old(minSeq), old(times)))
      ensures list == EncodeAll(Generated(old(minSeq), old(times)), old(fbCount))
      ensures fbCount == CountAfter(old(fbCount), |list|) && lastGeneratedMicros == now
    {
      hide RingHolds, Ends, Owes, Builder.Valid, CountAfter, Encode, EncodeAll, FeedbackOk, Plan, AllFinished, NonNegative;
      ghost var goal := EncodeStart(minSeq, times, fbCount);
      var builder := new Builder();
      var received, deltaMicros := new bool[14], new int[14];
      list, builder := Drain(builder, received, deltaMicros, goal);
      builder.Measures();
      if !builder.Empty() {
        builder, list := Flush(builder, list);
      }
      lastGeneratedMicros := now;
    }
  }

  lemma {:induction false} LostRunIs(ts: seq<int>, n: nat)
    requires n <= |ts| && (forall k :: 0 <= k < n ==> ts[k] == 0) && (n < |ts| ==> ts[n] != 0)
    ensures LostRun(ts) == n
    decreases n
  {
    if n > 0 {
      LostRunIs(ts[1..], n - 1);
    }
  }

  lemma DeltaRunStep(w: seq<int>, k: nat, last: int, lo: int, hi: int)
    requires k < |w|
    ensures DeltaRun(w[k..], last, lo, hi)
            == if w[k] == 0 then 1 + DeltaRun(w[k + 1..], last, lo, hi)
               else if last + lo <= w[k] <= last + hi then 1 + DeltaRun(w[k + 1..], w[k], lo, hi)
               else 0
  {
    assert w[k..][1..] == w[k + 1..];
  }

  lemma DeltaRunEnd(w: seq<int>, k: nat, last: int, lo: int, hi: int)
    requires k == |w|
    ensures DeltaRun(w[k..], last, lo, hi) == 0
  {
  }

  lemma ListsEmpty(curr: int)
    ensures ReceivedList([]) == [] && DeltaList(curr, []) == [] && EndTime(curr, []) == curr
  {
  }

  // The scratch lists and the current time after one more packet.
  lemma ListsSnoc(curr: int, w: seq<int>, k: nat)
    requires k < |w|
    ensures ReceivedList(w[..k + 1]) == ReceivedList(w[..k]) + [w[k] != 0]
    ensures DeltaList(curr, w[..k + 1])
            == DeltaList(curr, w[..k]) + [if w[k] == 0 then 0 else w[k] - EndTime(curr, w[..k])]
    ensures EndTime(curr, w[..k + 1]) == if w[k] == 0 then EndTime(curr, w[..k]) else w[k]
  {
    assert w[..k + 1][..k] == w[..k] && w[..k + 1] == w[..k] + [w[k]];
    EndTimeAppend(curr, w[..k], [w[k]]);
    assert [w[k]][1..] == [];
  }

  // Dropping the oldest packet when full, then appending, keeps the newest.
  lemma NewestAppend(w: Window, t: int)
    ensures
      var k := KeepNewest(w);
      var room := if |k.times| == MAX_PACKET_COUNT then Window(k.min + 1, k.times[1..]) else k;
      KeepNewest(w.(times := w.times + [t])) == room.(times := room.times + [t])
  {
    var n := |w.times|;
    assert n >= MAX_PACKET_COUNT ==>
      (w.times + [t])[n + 1 - MAX_PACKET_COUNT..] == w.times[n - MAX_PACKET_COUNT..][1..] + [t];
  }
}
