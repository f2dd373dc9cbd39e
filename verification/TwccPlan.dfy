// How the subscriber cuts a window of arrivals into chunks and feedbacks
// (src/twcc_subscribe.cpp, SubscribePacketHistory::generate and its peek functions).
module TwccPlan {
  import opened Wire
  import opened TwccFeedback

  const MAX_PACKET_SIZE := 1000

  function Take(ts: seq<int>, n: nat): seq<int> { if |ts| <= n then ts else ts[..n] }

  // Length of the leading run of packets not received.
  function LostRun(ts: seq<int>): nat {
    if ts == [] || ts[0] != 0 then 0 else 1 + LostRun(ts[1..])
  }

  function SmallRun(ts: seq<int>, curr: int): nat { DeltaRun(Take(ts, 14), curr, 0, MAX_SMALL) }

  function LargeRun(ts: seq<int>, curr: int): nat { DeltaRun(Take(ts, 7), curr, MIN_LARGE, MAX_LARGE) }

  // The chunk appended at the head of `ts`, or None when no encoding reaches a full vector or the end.
  function NextPiece(ts: seq<int>, curr: int): Option<Piece>
    requires ts != []
  {
    if ts[0] == 0 then Some(Lost(LostRun(Take(ts, MAX_RUN))))
    else if SmallRun(ts, curr) == 14 || SmallRun(ts, curr) == |ts| then Some(Small(curr, ts[..SmallRun(ts, curr)]))
    else if LargeRun(ts, curr) == 7 || LargeRun(ts, curr) == |ts| then Some(Large(curr, ts[..LargeRun(ts, curr)]))
    else None
  }

  function Units(t: int): int { TruncDiv(t, REFERENCE_UNIT) }

  function Floor(t: int): int { Units(t) * REFERENCE_UNIT }

  // ----- When a fresh feedback can make progress -----

  ghost predicate Adjacent(ts: seq<int>, i: int, j: int) {
    0 <= i < j < |ts| && ts[i] != 0 && ts[j] != 0 && forall k :: i < k < j ==> ts[k] == 0
  }

  // Received packets with nothing received in between, at most 6 sequence numbers apart, arrived
  // within the range of a large delta of each other.
  ghost predicate Smooth(ts: seq<int>) {
    forall i, j :: Adjacent(ts, i, j) && j - i <= 6 ==> MIN_LARGE <= ts[j] - ts[i] <= MAX_LARGE
  }

  ghost predicate NonNegative(ts: seq<int>) { forall i :: 0 <= i < |ts| ==> ts[i] >= 0 }

  lemma SmoothSuffix(ts: seq<int>, n: nat)
    requires n <= |ts| && Smooth(ts)
    ensures Smooth(ts[n..])
  {
    forall i, j | Adjacent(ts[n..], i, j) && j - i <= 6 ensures MIN_LARGE <= ts[n..][j] - ts[n..][i] <= MAX_LARGE {
      assert forall k :: i < k < j ==> ts[n..][k] == ts[n + k];
      assert Adjacent(ts, n + i, n + j);
    }
  }

  // From packet r on, a smooth window stays within large deltas.
  lemma {:induction false} SmoothRun(ts: seq<int>, r: nat, k: nat)
    requires Smooth(ts) && r < k <= |ts| <= 7 && ts[r] != 0
    requires forall m :: r < m < k ==> ts[m] == 0
    ensures DeltaRun(ts[k..], ts[r], MIN_LARGE, MAX_LARGE) == |ts| - k
    decreases |ts| - k
  {
    if k < |ts| {
      assert ts[k..][0] == ts[k] && ts[k..][1..] == ts[k + 1..];
      if ts[k] == 0 {
        SmoothRun(ts, r, k + 1);
      } else {
        assert Adjacent(ts, r, k);
        SmoothRun(ts, k, k + 1);
      }
    }
  }

  lemma SmoothTake(ts: seq<int>, n: nat)
    requires Smooth(ts)
    ensures Smooth(Take(ts, n))
  {
    forall i, j | Adjacent(Take(ts, n), i, j) && j - i <= 6
      ensures MIN_LARGE <= Take(ts, n)[j] - Take(ts, n)[i] <= MAX_LARGE
    {
      assert forall k :: i < k < j ==> Take(ts, n)[k] == ts[k];
      assert Adjacent(ts, i, j);
    }
  }

  lemma FloorClose(t: int)
    requires t >= 0
    ensures 0 <= t - Floor(t) < REFERENCE_UNIT && Units(t) >= 0
  {
  }

  // A run cannot cross two neighbouring arrivals that are too far apart.
  lemma {:induction false} FarPairStopsRun(ts: seq<int>, curr: int, lo: int, hi: int, i: nat, j: nat)
    requires Adjacent(ts, i, j) && !(lo <= ts[j] - ts[i] <= hi)
    ensures DeltaRun(ts, curr, lo, hi) <= j
    decreases i
  {
    if i > 0 {
      assert forall k :: i - 1 < k < j - 1 ==> ts[1..][k] == ts[k + 1];
      assert Adjacent(ts[1..], i - 1, j - 1);
      FarPairStopsRun(ts[1..], Step(curr, ts[0]), lo, hi, i - 1, j - 1);
    } else {
      assert ts[1..][j - 1] == ts[j];
      RunStopsAt(ts[1..], ts[0], lo, hi, j - 1);
    }
  }

  lemma {:induction false} RunStopsAt(ts: seq<int>, curr: int, lo: int, hi: int, m: nat)
    requires m < |ts| && ts[m] != 0 && !(curr + lo <= ts[m] <= curr + hi)
    requires forall k :: 0 <= k < m ==> ts[k] == 0
    ensures DeltaRun(ts, curr, lo, hi) == m
    decreases m
  {
    if m > 0 {
      assert ts[1..][m - 1] == ts[m];
      RunStopsAt(ts[1..], curr, lo, hi, m - 1);
    }
  }

  lemma SmoothFits(us: seq<int>)
    requires us != [] && us[0] > 0 && Smooth(Take(us, 7))
    ensures NextPiece(us, Floor(us[0])).Some?
  {
    var w := Take(us, 7);
    FloorClose(us[0]);
    SmoothRun(w, 0, 1);
    assert LargeRun(us, Floor(us[0])) == |w|;
  }

  lemma FarPairBlocks(us: seq<int>, i: nat, j: nat)
    requires us != [] && us[0] > 0
    requires Adjacent(Take(us, 7), i, j) && !(MIN_LARGE <= us[j] - us[i] <= MAX_LARGE)
    ensures NextPiece(us, Floor(us[0])).None?
  {
    assert forall k :: 0 <= k < |Take(us, 7)| ==> Take(us, 14)[k] == Take(us, 7)[k];
    assert Adjacent(Take(us, 14), i, j);
    FarPairStopsRun(Take(us, 14), Floor(us[0]), 0, MAX_SMALL, i, j);
    FarPairStopsRun(Take(us, 7), Floor(us[0]), MIN_LARGE, MAX_LARGE, i, j);
  }

  // A feedback that starts at a received packet takes a chunk exactly when no two neighbouring arrivals
  // among its first seven sequence numbers are out of the range of a large delta: the run of fourteen
  // small deltas never gets further than that of seven large ones.
  lemma FreshExactly(us: seq<int>)
    requires us != [] && us[0] > 0
    ensures NextPiece(us, Floor(us[0])).Some? <==> Smooth(Take(us, 7))
  {
    if Smooth(Take(us, 7)) {
      SmoothFits(us);
    } else {
      var i, j :| Adjacent(Take(us, 7), i, j) && j - i <= 6
                  && !(MIN_LARGE <= Take(us, 7)[j] - Take(us, 7)[i] <= MAX_LARGE);
      FarPairBlocks(us, i, j);
    }
  }

  // ----- Chunks say what the window says -----

  lemma {:induction false} LostRunZeros(ts: seq<int>)
    ensures LostRun(ts) <= |ts| && forall i :: 0 <= i < LostRun(ts) ==> ts[i] == 0
    ensures LostRun(ts) < |ts| ==> ts[LostRun(ts)] != 0
  {
    if ts != [] && ts[0] == 0 {
      LostRunZeros(ts[1..]);
    }
  }

  lemma {:induction false} DeltaRunPrefix(ts: seq<int>, curr: int, lo: int, hi: int)
    ensures var n := DeltaRun(ts, curr, lo, hi); DeltaRun(ts[..n], curr, lo, hi) == n
    decreases |ts|
  {
    var n := DeltaRun(ts, curr, lo, hi);
    if n > 0 {
      DeltaRunPrefix(ts[1..], Step(curr, ts[0]), lo, hi);
      assert ts[..n][1..] == ts[1..][..n - 1];
    }
  }

  lemma NextPieceOk(ts: seq<int>, curr: int)
    requires ts != [] && NextPiece(ts, curr).Some?
    ensures
      var p := NextPiece(ts, curr).value;
      && PieceOk(curr, p)
      && p.Len() <= |ts| && p.Times() == ts[..p.Len()]
      && (p.IsFull() || p.Len() == |ts|)
      && (p.Lost? <==> ts[0] == 0)
  {
    var p := NextPiece(ts, curr).value;
    match p
    case Lost(n) =>
      LostRunZeros(Take(ts, MAX_RUN));
      RepeatAt(0, n);
      assert p.Times() == ts[..n];
    case Small(_, times) =>
      DeltaRunPrefix(Take(ts, 14), curr, 0, MAX_SMALL);
      assert Take(ts, 14)[..|times|] == times;
    case Large(_, times) =>
      DeltaRunPrefix(Take(ts, 7), curr, MIN_LARGE, MAX_LARGE);
      assert Take(ts, 7)[..|times|] == times;
  }

  // ----- Feedbacks -----

  function StampsSize(st: seq<nat>): nat {
    if st == [] then 0
    else (if st[0] == LARGE_DELTA then 2 else if st[0] == SMALL_DELTA then 1 else 0) + StampsSize(st[1..])
  }

  // Builder::size: it counts 6 header bytes, though 8 are written.
  function Size(cs: Chunks): nat { if cs.Nil? then 6 else Size(cs.init) + 2 + StampsSize(cs.last.Statuses()) }

  const EMPTY := Feedback(0, 0, Nil)

  // Where the loop stands: the index of the next packet, the feedback under construction, and the
  // time of the last received packet in it (0 before the first).
  datatype LoopState = LoopState(i: nat, draft: Feedback, curr: int)

  // The reference time is set at the first received packet of a feedback.
  function Open(s: LoopState, t: int): LoopState
    requires t >= 0
  {
    FloorClose(t);
    if t != 0 && s.curr == 0 then s.(draft := s.draft.(units := Units(t)), curr := Floor(t)) else s
  }

  // Appending a chunk; the first one sets the base.
  function Extend(d: Feedback, first: nat, p: Piece): Feedback {
    Feedback(if d.chunks.Nil? then first else d.base, d.units, Snoc(d.chunks, p))
  }

  function Append(s: LoopState, base: nat, p: Piece): LoopState {
    LoopState(s.i + p.Len(), Extend(s.draft, base + s.i, p), EndTime(s.curr, p.Times()))
  }

  const START := LoopState(0, EMPTY, 0)

  // One iteration: a feedback is flushed when nothing fits or when it has grown too large. An empty one
  // is not flushed; then the iteration does nothing but set the reference time.
  function Iterate(base: nat, ts: seq<int>, s: LoopState): (r: (Option<Feedback>, LoopState))
    requires NonNegative(ts) && s.i < |ts|
  {
    var s1 := Open(s, ts[s.i]);
    var p := NextPiece(ts[s.i..], s1.curr);
    if p.None? then
      if s1.draft.chunks.Nil? then (None, s1) else (Some(s1.draft), LoopState(s.i, EMPTY, 0))
    else
      var s2 := Append(s1, base, p.value);
      if Size(s2.draft.chunks) >= MAX_PACKET_SIZE then (Some(s2.draft), LoopState(s2.i, EMPTY, 0))
      else (None, s2)
  }

  // An empty builder comes with no current time.
  ghost predicate Started(ts: seq<int>, s: LoopState) { s.i <= |ts| && (s.draft.chunks.Nil? ==> s.curr == 0) }

  // The builder is empty and no chunk fits.
  predicate Stuck(ts: seq<int>, s: LoopState)
    requires NonNegative(ts) && s.i < |ts|
  {
    s.draft.chunks.Nil? && NextPiece(ts[s.i..], Open(s, ts[s.i]).curr).None?
  }

  lemma IterateProgress(base: nat, ts: seq<int>, s: LoopState)
    requires NonNegative(ts) && Started(ts, s) && s.i < |ts| && !Stuck(ts, s)
    ensures
      var s' := Iterate(base, ts, s).1;
      && Started(ts, s')
      && (s'.i > s.i || (s'.i == s.i && s.draft.chunks.Snoc? && s'.draft.chunks.Nil?))
  {
    var s1 := Open(s, ts[s.i]);
    if NextPiece(ts[s.i..], s1.curr).Some? {
      NextPieceOk(ts[s.i..], s1.curr);
    }
  }

  // The loop comes to the end of the window without getting stuck.
  ghost predicate Ends(base: nat, ts: seq<int>, s: LoopState)
    requires NonNegative(ts) && Started(ts, s)
    decreases |ts| - s.i, s.draft.chunks.Snoc?
  {
    s.i == |ts| || (!Stuck(ts, s) && (IterateProgress(base, ts, s); Ends(base, ts, Iterate(base, ts, s).1)))
  }

  // The feedbacks still to be generated for arrivals `ts`, whose first sequence number is `base`.
  ghost function Plan(base: nat, ts: seq<int>, s: LoopState): seq<Feedback>
    requires NonNegative(ts) && Started(ts, s) && Ends(base, ts, s)
    decreases |ts| - s.i, s.draft.chunks.Snoc?
  {
    if s.i == |ts| then
      if s.draft.chunks.Nil? then [] else [s.draft]
    else
      IterateProgress(base, ts, s);
      var (flushed, s') := Iterate(base, ts, s);
      if flushed.Some? then [flushed.value] + Plan(base, ts, s') else Plan(base, ts, s')
  }

  // ----- Termination, exactly -----

  lemma IterateStays(base: nat, ts: seq<int>, s: LoopState)
    requires NonNegative(ts) && s.i < |ts|
    ensures Iterate(base, ts, s).1.i <= |ts|
  {
    if NextPiece(ts[s.i..], Open(s, ts[s.i]).curr).Some? {
      NextPieceOk(ts[s.i..], Open(s, ts[s.i]).curr);
    }
  }

  // Where the loop stands after `n` iterations, or when it ended before.
  ghost function Turns(base: nat, ts: seq<int>, s: LoopState, n: nat): (r: LoopState)
    requires NonNegative(ts) && s.i <= |ts|
    ensures r.i <= |ts|
    decreases n
  {
    if n == 0 || s.i == |ts| then s
    else
      IterateStays(base, ts, s);
      Turns(base, ts, Iterate(base, ts, s).1, n - 1)
  }

  // Stuck once is stuck for good: the second iteration leaves the very state it found.
  lemma StuckRepeats(base: nat, ts: seq<int>, s: LoopState)
    requires NonNegative(ts) && s.i < |ts| && Stuck(ts, s)
    ensures
      var s' := Iterate(base, ts, s).1;
      s'.i == s.i && Stuck(ts, s') && Iterate(base, ts, s') == (None, s')
  {
    hide NextPiece;
  }

  lemma {:induction false} StuckStays(base: nat, ts: seq<int>, s: LoopState, n: nat)
    requires NonNegative(ts) && s.i < |ts| && Stuck(ts, s)
    ensures Turns(base, ts, s, n).i == s.i
    decreases n
  {
    hide Iterate, Stuck;
    if n > 0 {
      StuckRepeats(base, ts, s);
      StuckStays(base, ts, Iterate(base, ts, s).1, n - 1);
    }
  }

  lemma {:induction false} EndReached(base: nat, ts: seq<int>, s: LoopState) returns (n: nat)
    requires NonNegative(ts) && Started(ts, s) && Ends(base, ts, s)
    ensures Turns(base, ts, s, n).i == |ts|
    decreases |ts| - s.i, s.draft.chunks.Snoc?
  {
    hide Iterate, Stuck;
    if s.i == |ts| {
      n := 0;
    } else {
      IterateProgress(base, ts, s);
      n := EndReached(base, ts, Iterate(base, ts, s).1);
      n := n + 1;
    }
  }

  lemma {:induction false} EndNotReached(base: nat, ts: seq<int>, s: LoopState, n: nat)
    requires NonNegative(ts) && Started(ts, s) && !Ends(base, ts, s)
    ensures Turns(base, ts, s, n).i < |ts|
    decreases n
  {
    hide Iterate, Stuck;
    if Stuck(ts, s) {
      StuckStays(base, ts, s, n);
    } else if n > 0 {
      IterateProgress(base, ts, s);
      EndNotReached(base, ts, Iterate(base, ts, s).1, n - 1);
    }
  }

  // A feedback that starts here finds its first seven sequence numbers within range.
  ghost predicate FreshOk(ts: seq<int>, s: LoopState) {
    s.i < |ts| && s.draft.chunks.Nil? && ts[s.i] != 0 ==> Smooth(Take(ts[s.i..], 7))
  }

  lemma StuckIs(ts: seq<int>, s: LoopState)
    requires NonNegative(ts) && Started(ts, s) && s.i < |ts|
    ensures Stuck(ts, s) <==> !FreshOk(ts, s)
  {
    hide Smooth, Floor, Units;
    if ts[s.i] != 0 {
      FreshExactly(ts[s.i..]);
    }
  }

  lemma {:induction false} EndsFresh(base: nat, ts: seq<int>, s: LoopState, n: nat)
    requires NonNegative(ts) && Started(ts, s) && Ends(base, ts, s)
    ensures FreshOk(ts, Turns(base, ts, s, n))
    decreases n
  {
    hide Iterate, Stuck, Smooth;
    if s.i < |ts| {
      StuckIs(ts, s);
      if n > 0 {
        IterateProgress(base, ts, s);
        EndsFresh(base, ts, Iterate(base, ts, s).1, n - 1);
      }
    }
  }

  lemma {:induction false} StuckReached(base: nat, ts: seq<int>, s: LoopState) returns (n: nat)
    requires NonNegative(ts) && Started(ts, s) && !Ends(base, ts, s)
    ensures !FreshOk(ts, Turns(base, ts, s, n))
    decreases |ts| - s.i, s.draft.chunks.Snoc?
  {
    hide Iterate, Stuck, Smooth;
    if Stuck(ts, s) {
      StuckIs(ts, s);
      n := 0;
    } else {
      IterateProgress(base, ts, s);
      n := StuckReached(base, ts, Iterate(base, ts, s).1);
      n := n + 1;
    }
  }

  // The call returns, which is to say that some number of iterations gets to the end of the window, if
  // and only if no feedback that it comes to start at a received packet has two neighbouring arrivals
  // out of the range of a large delta among its first seven sequence numbers.
  lemma ReturnsExactly(base: nat, ts: seq<int>)
    requires NonNegative(ts)
    ensures Ends(base, ts, START) <==> exists n: nat :: Turns(base, ts, START, n).i == |ts|
    ensures Ends(base, ts, START) <==> forall n: nat :: FreshOk(ts, Turns(base, ts, START, n))
  {
    hide Ends, Turns, FreshOk;
    if Ends(base, ts, START) {
      var n := EndReached(base, ts, START);
      forall k: nat ensures FreshOk(ts, Turns(base, ts, START, k)) {
        EndsFresh(base, ts, START, k);
      }
    } else {
      forall k: nat ensures Turns(base, ts, START, k).i < |ts| {
        EndNotReached(base, ts, START, k);
      }
      var n := StuckReached(base, ts, START);
    }
  }

  // So it is enough that no neighbouring arrivals of the window at most 6 apart are out of range.
  lemma {:induction false} SmoothEnds(base: nat, ts: seq<int>, s: LoopState)
    requires Smooth(ts) && NonNegative(ts) && Started(ts, s)
    ensures Ends(base, ts, s)
    decreases |ts| - s.i, s.draft.chunks.Snoc?
  {
    hide Iterate, Stuck, Smooth;
    if s.i < |ts| {
      SmoothSuffix(ts, s.i);
      SmoothTake(ts[s.i..], 7);
      StuckIs(ts, s);
      IterateProgress(base, ts, s);
      SmoothEnds(base, ts, Iterate(base, ts, s).1);
    }
  }

  // Two packets more than 8191750 microseconds apart make a window that the call never gets out of.
  lemma StuckWindow(base: nat, n: nat)
    ensures !Ends(base, [1000, 20_000_000], START) && Turns(base, [1000, 20_000_000], START, n).i == 0
  {
    var ts := [1000, 20_000_000];
    assert Take(ts[0..], 7) == ts;
    assert Adjacent(ts, 0, 1) && !Smooth(ts);
    StuckIs(ts, START);
    StuckStays(base, ts, START, n);
  }

  // The same packets are no harm when the feedback that starts at the first is full before the second.
  lemma FarPairPassed(base: nat)
    ensures
      var ts := Repeat(1000, 7) + [20_000_000];
      !Smooth(ts) && NonNegative(ts) && Ends(base, ts, START)
  {
    var ts := Repeat(1000, 7) + [20_000_000];
    RepeatAt(1000, 7);
    assert Adjacent(ts, 6, 7);
    PassedSteps(base, ts);
  }

  lemma PassedSteps(base: nat, ts: seq<int>)
    requires |ts| == 8 && (forall k :: 0 <= k < 7 ==> ts[k] == 1000) && ts[7] == 20_000_000
    ensures NonNegative(ts) && Ends(base, ts, START)
  {
    hide NextPiece, Size, EndTime, Smooth;
    FirstSeven(ts);
    IterateProgress(base, ts, START);
    LastEnds(base, ts, Iterate(base, ts, START).1);
  }

  // The first chunk takes seven packets.
  lemma FirstSeven(ts: seq<int>)
    requires |ts| == 8 && (forall k :: 0 <= k < 7 ==> ts[k] == 1000) && ts[7] == 20_000_000
    ensures NonNegative(ts) && !Stuck(ts, START)
    ensures
      var p := NextPiece(ts[0..], Open(START, ts[0]).curr);
      p.Some? && p.value.Len() == 7
  {
    assert ts[0..] == ts && Floor(1000) == 0;
    assert Take(ts, 14) == ts && Take(ts, 7) == ts[..7];
    assert Smooth(ts[..7]) && Adjacent(ts, 6, 7);
    FarPairStopsRun(ts, 0, 0, MAX_SMALL, 6, 7);
    SmoothRun(ts[..7], 0, 1);
  }

  // From the last packet on, the loop ends whatever the state.
  lemma LastEnds(base: nat, ts: seq<int>, s: LoopState)
    requires NonNegative(ts) && Started(ts, s) && s.i == |ts| - 1
    ensures Ends(base, ts, s)
    decreases s.draft.chunks.Snoc?
  {
    hide Iterate, Stuck;
    assert |Take(ts[s.i..], 7)| == 1;
    StuckIs(ts, s);
    IterateProgress(base, ts, s);
    var s' := Iterate(base, ts, s).1;
    if s'.i == s.i {
      LastEnds(base, ts, s');
    }
  }

  // ----- What the plan guarantees -----

  // Consecutive, disjoint, well-formed feedbacks that cover exactly `ts` from index `i` on. Partial
  // status vectors end the last one only.
  ghost predicate Tiles(fs: seq<Feedback>, base: nat, ts: seq<int>, i: nat)
    decreases |fs|
  {
    if fs == [] then i == |ts|
    else
      var next := i + fs[0].Count();
      Covers(fs[0], base, ts, i, next) && (|fs| > 1 ==> next < |ts|) && Tiles(fs[1..], base, ts, next)
  }

  // `f` reports exactly packets i to j.
  ghost predicate Covers(f: Feedback, base: nat, ts: seq<int>, i: nat, j: nat) {
    && i < j <= |ts| && Finished(f) && f.base == base + i && f.Times() == ts[i..j]
    && (j < |ts| ==> f.chunks.AllFull())
  }

  ghost predicate Finished(f: Feedback) { FeedbackOk(f) && Size(f.chunks) < MAX_PACKET_SIZE + 16 }

  // Runs of lost packets hang together whatever the reference time.
  lemma {:induction false} AllLostChained(start: int, start': int, cs: Chunks)
    requires Chained(start, cs) && cs.AllLost()
    ensures Chained(start', cs) && EndTime(start', cs.Times()) == start'
  {
    if cs.Snoc? {
      AllLostChained(start, start', cs.init);
      EndTimeLost(start', cs.last.count);
      assert cs.last.Times() == Repeat(0, cs.last.count);
      EndTimeAppend(start', cs.init.Times(), cs.last.Times());
    }
  }

  lemma {:induction false} StampsSizeAppend(a: seq<nat>, b: seq<nat>)
    ensures StampsSize(a + b) == StampsSize(a) + StampsSize(b)
  {
    if a == [] {
      assert a + b == b;
    } else {
      StampsSizeAppend(a[1..], b);
      assert (a + b)[1..] == a[1..] + b;
    }
  }

  lemma {:induction false} StampsSizeBound(st: seq<nat>, width: nat)
    requires width <= 2
    requires forall s <- st :: s == NOT_RECEIVED || s == width
    ensures StampsSize(st) <= width * |st|
  {
    if st != [] {
      assert st[0] in st && forall s <- st[1..] :: s in st;
      StampsSizeBound(st[1..], width);
    }
  }

  lemma PieceStampsSize(p: Piece)
    requires p.FitsWord()
    ensures StampsSize(p.Statuses()) <= 14
  {
    StatusListCodes(p.Code(), p.Times());
    StampsSizeBound(p.Statuses(), p.Code());
  }

  lemma {:induction false} StampsLength(prev: int, st: seq<nat>, ts: seq<int>)
    requires Fits(prev, st, ts)
    ensures |Stamps(prev, st, ts)| == StampsSize(st)
    decreases |ts|
  {
    if ts == [] {
    } else {
      StampsLength(Step(prev, ts[0]), st[1..], ts[1..]);
    }
  }

  lemma {:induction false} ChunksSize(cs: Chunks)
    requires cs.FitWords()
    ensures 6 + |Headers(cs)| + StampsSize(cs.Statuses()) == Size(cs)
  {
    if cs.Snoc? {
      ChunksSize(cs.init);
      StampsSizeAppend(cs.init.Statuses(), cs.last.Statuses());
    }
  }

  lemma EncodedSize(f: Feedback, fbCount: uint8)
    requires FeedbackOk(f)
    ensures |Encode(f, fbCount)| == Size(f.chunks) + 2
  {
    ChainedFits(f.Reference(), f.chunks);
    ChainedWords(f.Reference(), f.chunks);
    StampsLength(f.Reference(), f.Statuses(), f.Times());
    ChunksSize(f.chunks);
  }

  lemma {:induction false} EndTimeNonzero(start: int, ts: seq<int>)
    requires start != 0 || (ts != [] && ts[0] != 0)
    ensures EndTime(start, ts) != 0
    decreases |ts|
  {
    if ts != [] {
      EndTimeNonzero(Step(start, ts[0]), ts[1..]);
    }
  }

  // The chunks of the feedback under construction hang together.
  ghost predicate DraftOk(s: LoopState) {
    && Chained(s.draft.Reference(), s.draft.chunks)
    && EndTime(s.draft.Reference(), s.draft.Times()) == s.curr
    && Size(s.draft.chunks) < MAX_PACKET_SIZE
  }

  // Until a packet is received, they are runs of lost packets.
  ghost predicate Idle(s: LoopState) { s.curr == 0 ==> s.draft.units == 0 && s.draft.chunks.AllLost() }

  // The feedback under construction holds the packets just before index `i`.
  ghost predicate Holds(base: nat, ts: seq<int>, s: LoopState) {
    var n := s.draft.Count();
    && n <= s.i <= |ts| && s.draft.Times() == ts[s.i - n..s.i] && |ts| < 0x1_0000
    && (s.draft.chunks.Snoc? ==> s.draft.base + n == base + s.i && s.draft.chunks.init.AllFull())
    && (s.i < |ts| ==> s.draft.chunks.AllFull())
  }

  ghost predicate Invariant(base: nat, ts: seq<int>, s: LoopState) {
    Started(ts, s) && DraftOk(s) && Idle(s) && Holds(base, ts, s)
  }

  lemma EmptyDraft(base: nat, ts: seq<int>, i: nat)
    requires i <= |ts| < 0x1_0000
    ensures Invariant(base, ts, LoopState(i, EMPTY, 0))
  {
    assert ts[i..i] == [];
  }

  lemma OpenOk(base: nat, ts: seq<int>, s: LoopState)
    requires NonNegative(ts) && s.i < |ts| && Invariant(base, ts, s)
    ensures var s1 := Open(s, ts[s.i]); DraftOk(s1) && Holds(base, ts, s1) && (ts[s.i] == 0 ==> Idle(s1))
  {
    if s.curr == 0 && ts[s.i] != 0 {
      AllLostChained(s.draft.Reference(), Floor(ts[s.i]), s.draft.chunks);
    }
  }

  // Appending the next chunk keeps the draft in shape, and its size within one chunk of the limit.
  lemma AppendChains(base: nat, s: LoopState, us: seq<int>, p: Piece)
    requires us != [] && DraftOk(s) && (us[0] == 0 ==> Idle(s)) && NextPiece(us, s.curr) == Some(p)
    ensures
      var s2 := Append(s, base, p);
      && Idle(s2)
      && Chained(s2.draft.Reference(), s2.draft.chunks)
      && EndTime(s2.draft.Reference(), s2.draft.Times()) == s2.curr
      && Size(s2.draft.chunks) < MAX_PACKET_SIZE + 16
  {
    NextPieceOk(us, s.curr);
    EndTimeAppend(s.draft.Reference(), s.draft.Times(), p.Times());
    PieceStampsSize(p);
    if s.curr != 0 || us[0] != 0 {
      EndTimeNonzero(s.curr, p.Times());
    } else {
      EndTimeLost(0, p.count);
    }
  }

  lemma SliceAppend(ts: seq<int>, i: nat, j: nat, n: nat)
    requires i <= j && j + n <= |ts|
    ensures ts[i..j] + ts[j..][..n] == ts[i..j + n]
  {
  }

  lemma AppendHolds(base: nat, ts: seq<int>, s: LoopState, p: Piece)
    requires s.i < |ts| && Holds(base, ts, s) && NextPiece(ts[s.i..], s.curr) == Some(p)
    ensures
      var s2 := Append(s, base, p);
      && p.Len() > 0 && s2.draft.Count() == s.draft.Count() + p.Len() && Holds(base, ts, s2)
  {
    hide NextPiece, EndTime;
    NextPieceOk(ts[s.i..], s.curr);
    SliceAppend(ts, s.i - s.draft.Count(), s.i, p.Len());
  }

  lemma FlushCovers(base: nat, ts: seq<int>, s: LoopState)
    requires Holds(base, ts, s) && s.draft.chunks.Snoc? && Chained(s.draft.Reference(), s.draft.chunks)
    requires Size(s.draft.chunks) < MAX_PACKET_SIZE + 16
    ensures Covers(s.draft, base, ts, s.i - s.draft.Count(), s.i)
  {
    assert s.draft.Count() >= s.draft.chunks.last.Len();
  }

  lemma AppendOk(base: nat, ts: seq<int>, s: LoopState, p: Piece)
    requires s.i < |ts| && DraftOk(s) && Holds(base, ts, s) && (ts[s.i] == 0 ==> Idle(s))
    requires NextPiece(ts[s.i..], s.curr) == Some(p)
    ensures
      var s2 := Append(s, base, p);
      && s2.i <= |ts| && s2.i - s2.draft.Count() == s.i - s.draft.Count()
      && (Size(s2.draft.chunks) < MAX_PACKET_SIZE ==> Invariant(base, ts, s2))
      && Covers(s2.draft, base, ts, s.i - s.draft.Count(), s2.i)
  {
    hide EndTime, NextPiece, Size, Chained;
    AppendChains(base, s, ts[s.i..], p);
    AppendHolds(base, ts, s, p);
    FlushCovers(base, ts, Append(s, base, p));
  }

  // A feedback that only has runs of lost packets is not flushed either, or the next would be stuck.
  lemma NothingFits(base: nat, ts: seq<int>, s: LoopState)
    requires NonNegative(ts) && Started(ts, s) && Ends(base, ts, s) && s.i < |ts|
    requires NextPiece(ts[s.i..], Open(s, ts[s.i]).curr).None?
    ensures Open(s, ts[s.i]) == s && s.draft.chunks.Snoc?
  {
    hide NextPiece;
    IterateProgress(base, ts, s);
    LostAlwaysFits(ts[s.i..], s.curr);
    if s.curr == 0 {
      StuckAfter(ts, s);
    }
  }

  lemma StuckAfter(ts: seq<int>, s: LoopState)
    requires NonNegative(ts) && s.i < |ts| && s.curr == 0 && NextPiece(ts[s.i..], Open(s, ts[s.i]).curr).None?
    ensures Stuck(ts, LoopState(s.i, EMPTY, 0))
  {
    LostAlwaysFits(ts[s.i..], s.curr);
  }

  lemma LostAlwaysFits(us: seq<int>, curr: int)
    requires us != []
    ensures us[0] == 0 ==> NextPiece(us, curr).Some?
  {
  }

  // One iteration keeps the invariant; what it flushes covers the packets held so far.
  lemma IterateOk(base: nat, ts: seq<int>, s: LoopState)
    requires NonNegative(ts) && s.i < |ts| && Invariant(base, ts, s) && Ends(base, ts, s)
    ensures
      var (flushed, s') := Iterate(base, ts, s);
      var start := s.i - s.draft.Count();
      && Invariant(base, ts, s')
      && (flushed.None? ==> s'.i - s'.draft.Count() == start)
      && (flushed.Some? ==> s'.draft == EMPTY && Covers(flushed.value, base, ts, start, s'.i))
  {
    hide EndTime, NextPiece, DraftOk, Holds, Covers, Idle, Floor, TruncDiv;
    OpenOk(base, ts, s);
    var s1 := Open(s, ts[s.i]);
    var p := NextPiece(ts[s.i..], s1.curr);
    if p.None? {
      NothingFits(base, ts, s);
      EmptyDraft(base, ts, s.i);
      FlushCovers(base, ts, s);
    } else {
      AppendOk(base, ts, s1, p.value);
      EmptyDraft(base, ts, s.i + p.value.Len());
    }
  }

  lemma PrependTile(f: Feedback, fs: seq<Feedback>, base: nat, ts: seq<int>, i: nat, j: nat)
    requires Covers(f, base, ts, i, j) && Tiles(fs, base, ts, j)
    ensures Tiles([f] + fs, base, ts, i)
  {
    hide Finished;
    assert ([f] + fs)[1..] == fs;
  }

  lemma {:induction false} PlanTiles(base: nat, ts: seq<int>, s: LoopState)
    requires NonNegative(ts) && Invariant(base, ts, s) && Ends(base, ts, s)
    ensures Tiles(Plan(base, ts, s), base, ts, s.i - s.draft.Count())
    decreases |ts| - s.i, s.draft.chunks.Snoc?
  {
    hide Iterate, Covers, Chained, EndTime, Size;
    if s.i == |ts| {
      if s.draft.chunks.Snoc? {
        FlushCovers(base, ts, s);
        PrependTile(s.draft, [], base, ts, s.i - s.draft.Count(), s.i);
        assert [s.draft] + [] == [s.draft];
      }
    } else {
      IterateOk(base, ts, s);
      IterateProgress(base, ts, s);
      var (flushed, s') := Iterate(base, ts, s);
      PlanTiles(base, ts, s');
      if flushed.Some? {
        PrependTile(flushed.value, Plan(base, ts, s'), base, ts, s.i - s.draft.Count(), s'.i);
      }
    }
  }

  // ----- The choice of chunks, and when a feedback ends -----

  // The packets received among the first n each follow the one before within lo to hi.
  ghost predicate InRange(ts: seq<int>, curr: int, n: nat, lo: int, hi: int)
    requires n <= |ts|
  {
    forall k :: 0 <= k < n && ts[k] != 0 ==> lo <= ts[k] - EndTime(curr, ts[..k]) <= hi
  }

  lemma {:induction false} RunMeans(ts: seq<int>, curr: int, n: nat, lo: int, hi: int)
    requires n <= |ts|
    ensures DeltaRun(ts, curr, lo, hi) >= n <==> InRange(ts, curr, n, lo, hi)
    decreases n
  {
    if n > 0 {
      var next := Step(curr, ts[0]);
      RunMeans(ts[1..], next, n - 1, lo, hi);
      assert ts[..0] == [];
      forall k | 0 < k < n ensures EndTime(curr, ts[..k]) == EndTime(next, ts[1..][..k - 1]) && ts[k] == ts[1..][k - 1] {
        assert ts[..k][1..] == ts[1..][..k - 1];
      }
      if InRange(ts[1..], next, n - 1, lo, hi) && (ts[0] == 0 || lo <= ts[0] - curr <= hi) {
        forall k | 0 <= k < n && ts[k] != 0 ensures lo <= ts[k] - EndTime(curr, ts[..k]) <= hi {
        }
      }
      if InRange(ts, curr, n, lo, hi) {
        forall k | 0 <= k < n - 1 && ts[1..][k] != 0 ensures lo <= ts[1..][k] - EndTime(next, ts[1..][..k]) <= hi {
          assert ts[k + 1] == ts[1..][k];
        }
      }
    }
  }

  function AtMost(n: nat, bound: nat): nat { if n < bound then n else bound }

  lemma RunReaches(ts: seq<int>, curr: int, limit: nat, lo: int, hi: int)
    requires ts != [] && limit > 0
    ensures
      var run, n := DeltaRun(Take(ts, limit), curr, lo, hi), AtMost(|ts|, limit);
      run <= n && (run == limit || run == |ts| <==> InRange(ts, curr, n, lo, hi))
  {
    var w, n := Take(ts, limit), AtMost(|ts|, limit);
    RunMeans(w, curr, n, lo, hi);
    forall k | 0 <= k < n ensures w[k] == ts[k] && w[..k] == ts[..k] {
    }
  }

  // The chunk chosen, exactly. Lost packets at the front go into one run, as long as it can be. Otherwise
  // the chunk is a vector of small deltas if it can hold 14 packets, or all there are; else one of large
  // deltas if it can hold 7, or all there are; else there is none.
  lemma NextPieceExactly(ts: seq<int>, curr: int)
    requires ts != []
    ensures
      var small, large := AtMost(|ts|, 14), AtMost(|ts|, 7);
      var p := NextPiece(ts, curr);
      if ts[0] == 0 then
        && p.Some? && p.value.Lost? && 0 < p.value.count <= AtMost(|ts|, 8191)
        && (forall k :: 0 <= k < p.value.count ==> ts[k] == 0)
        && (p.value.count == AtMost(|ts|, 8191) || ts[p.value.count] != 0)
      else if InRange(ts, curr, small, 0, 63_750) then p == Some(Small(curr, ts[..small]))
      else if InRange(ts, curr, large, -8_192_000, 8_191_750) then p == Some(Large(curr, ts[..large]))
      else p == None
  {
    hide DeltaRun, InRange;
    LostRunZeros(Take(ts, MAX_RUN));
    RunReaches(ts, curr, 14, 0, MAX_SMALL);
    RunReaches(ts, curr, 7, MIN_LARGE, MAX_LARGE);
  }

  // Why a feedback ends before packet j: the window is over, the feedback is full, or nothing fits.
  ghost predicate EndsFor(f: Feedback, ts: seq<int>, j: nat) {
    j == |ts| || Size(f.chunks) >= 1000 || (j < |ts| && NextPiece(ts[j..], EndTime(f.Reference(), f.Times())).None?)
  }

  ghost predicate AllEndFor(fs: seq<Feedback>, ts: seq<int>, i: nat)
    decreases |fs|
  {
    fs == [] || (EndsFor(fs[0], ts, i + fs[0].Count()) && AllEndFor(fs[1..], ts, i + fs[0].Count()))
  }

  lemma IterateEnds(base: nat, ts: seq<int>, s: LoopState)
    requires NonNegative(ts) && s.i < |ts| && Invariant(base, ts, s) && Ends(base, ts, s)
    ensures
      var (flushed, s') := Iterate(base, ts, s);
      flushed.Some? ==> EndsFor(flushed.value, ts, s'.i)
  {
    hide Chained, EndTime, NextPiece, Size;
    if NextPiece(ts[s.i..], Open(s, ts[s.i]).curr).None? {
      NothingFits(base, ts, s);
    }
  }

  lemma CoverCount(f: Feedback, base: nat, ts: seq<int>, i: nat, j: nat)
    requires Covers(f, base, ts, i, j)
    ensures f.Count() == j - i
  {
  }

  lemma {:induction false} PlanEnds(base: nat, ts: seq<int>, s: LoopState)
    requires NonNegative(ts) && Invariant(base, ts, s) && Ends(base, ts, s)
    ensures AllEndFor(Plan(base, ts, s), ts, s.i - s.draft.Count())
    decreases |ts| - s.i, s.draft.chunks.Snoc?
  {
    hide Iterate, Covers, Chained, EndTime, Size, NextPiece, EndsFor, Stuck;
    if s.i == |ts| {
      if s.draft.chunks.Snoc? {
        EndsThere(s.draft, ts);
        assert [s.draft][1..] == [];
      }
    } else {
      IterateOk(base, ts, s);
      IterateEnds(base, ts, s);
      IterateProgress(base, ts, s);
      var (flushed, s') := Iterate(base, ts, s);
      PlanEnds(base, ts, s');
      if flushed.Some? {
        CoverCount(flushed.value, base, ts, s.i - s.draft.Count(), s'.i);
        assert ([flushed.value] + Plan(base, ts, s'))[1..] == Plan(base, ts, s');
      }
    }
  }

  lemma EndsThere(f: Feedback, ts: seq<int>)
    ensures EndsFor(f, ts, |ts|)
  {
  }

  // ----- The whole call -----

  ghost function Generated(base: nat, ts: seq<int>): seq<Feedback>
    requires NonNegative(ts) && Ends(base, ts, START)
  {
    Plan(base, ts, START)
  }

  ghost predicate AllFinished(fs: seq<Feedback>) { fs == [] || (Finished(fs[0]) && AllFinished(fs[1..])) }

  ghost function EncodeAll(fs: seq<Feedback>, fbCount: uint8): (r: seq<bytes>)
    requires AllFinished(fs)
    ensures |r| == |fs|
  {
    if fs == [] then [] else [Encode(fs[0], fbCount)] + EncodeAll(fs[1..], (fbCount + 1) % 0x100)
  }

  lemma {:induction false} TilesFinished(fs: seq<Feedback>, base: nat, ts: seq<int>, i: nat)
    requires Tiles(fs, base, ts, i)
    ensures AllFinished(fs)
    decreases |fs|
  {
    if fs != [] {
      hide Finished;
      TilesFinished(fs[1..], base, ts, i + fs[0].Count());
    }
  }

  lemma {:induction false} EncodedSizes(fs: seq<Feedback>, fbCount: uint8)
    requires AllFinished(fs)
    ensures forall k :: 0 <= k < |fs| ==> |EncodeAll(fs, fbCount)[k]| <= 1017
  {
    if fs != [] {
      var next: uint8 := (fbCount + 1) % 0x100;
      EncodedSize(fs[0], fbCount);
      EncodedSizes(fs[1..], next);
      var head, tail := Encode(fs[0], fbCount), EncodeAll(fs[1..], next);
      var all := [head] + tail;
      hide Encode;
      forall k | 0 <= k < |all| ensures |all[k]| <= 1017 {
        assert k > 0 ==> all[k] == tail[k - 1];
      }
    }
  }

  // The feedbacks of one call tile the window, each is at most 1017 bytes and ends only when it is full,
  // nothing fits or the window is over, and a partial status vector is only ever the last chunk of the last
  // feedback.
  lemma GenerateTiles(base: nat, ts: seq<int>, fbCount: uint8)
    requires NonNegative(ts) && Ends(base, ts, START) && |ts| < 0x1_0000
    ensures
      var fs := Generated(base, ts);
      && Tiles(fs, base, ts, 0) && AllFinished(fs) && AllEndFor(fs, ts, 0)
      && forall k :: 0 <= k < |fs| ==> |EncodeAll(fs, fbCount)[k]| <= 1017
  {
    hide Invariant, EndsFor, Finished, Covers;
    EmptyDraft(base, ts, 0);
    PlanTiles(base, ts, START);
    PlanEnds(base, ts, START);
    TilesFinished(Generated(base, ts), base, ts, 0);
    EncodedSizes(Generated(base, ts), fbCount);
  }

  // The header of a message, byte by byte.
  lemma HeaderBytes(f: Feedback, fbCount: uint8)
    requires FeedbackOk(f)
    ensures
      var m := Encode(f, fbCount);
      && |m| >= 8
      && m[0] == f.base / 0x100 % 0x100 && m[1] == f.base % 0x100
      && m[2] == f.Count() / 0x100 && m[3] == f.Count() % 0x100
      && m[4] == f.units / 0x1_0000 % 0x100 && m[5] == f.units / 0x100 % 0x100 && m[6] == f.units % 0x100
      && m[7] == fbCount
  {
    hide Headers, Stamps;
    WordBytes(f.units, fbCount);
    BaseBytes(f.base);
  }

  lemma BaseBytes(base: nat)
    ensures base % 0x1_0000 / 0x100 == base / 0x100 % 0x100 && base % 0x1_0000 % 0x100 == base % 0x100
  {
  }

  lemma WordBytes(units: nat, fbCount: uint8)
    ensures WriteU32(ReferenceWord(units, fbCount))
            == [units / 0x1_0000 % 0x100, units / 0x100 % 0x100, units % 0x100, fbCount]
  {
    hide WriteU32, ReferenceWord;
    UnitBytes(units);
    WordIs(units, fbCount);
    WordOf(units % 0x100_0000, fbCount);
  }

  lemma WordIs(units: nat, fbCount: uint8)
    ensures ReferenceWord(units, fbCount) == units % 0x100_0000 * 0x100 + fbCount
  {
    var q, u := units / 0x100_0000, units % 0x100_0000;
    assert units * 0x100 + fbCount == 0x1_0000_0000 * q + (u * 0x100 + fbCount);
  }

  lemma UnitBytes(units: nat)
    ensures
      var u := units % 0x100_0000;
      && u / 0x1_0000 == units / 0x1_0000 % 0x100 && u / 0x100 % 0x100 == units / 0x100 % 0x100
      && u % 0x100 == units % 0x100
  {
    var q, u := units / 0x100_0000, units % 0x100_0000;
    assert units == 0x100_0000 * q + u;
    HighByte(q, u);
    MiddleByte(q, u);
  }

  lemma HighByte(q: nat, u: nat)
    requires u < 0x100_0000
    ensures (0x100_0000 * q + u) / 0x1_0000 % 0x100 == u / 0x1_0000
  {
    assert (0x100_0000 * q + u) / 0x1_0000 == 0x100 * q + u / 0x1_0000;
  }

  lemma MiddleByte(q: nat, u: nat)
    requires u < 0x100_0000
    ensures (0x100_0000 * q + u) / 0x100 % 0x100 == u / 0x100 % 0x100
    ensures (0x100_0000 * q + u) % 0x100 == u % 0x100
  {
    assert (0x100_0000 * q + u) / 0x100 == 0x1_0000 * q + u / 0x100;
    LowByte(q, u / 0x100);
  }

  lemma LowByte(q: nat, v: nat)
    ensures (0x1_0000 * q + v) % 0x100 == v % 0x100
  {
    assert 0x1_0000 * q + v == 0x100 * (0x100 * q) + v;
  }

  lemma WordOf(u: nat, low: uint8)
    requires u < 0x100_0000
    ensures WriteU32(u * 0x100 + low) == [u / 0x1_0000, u / 0x100 % 0x100, u % 0x100, low]
  {
    var x := u * 0x100 + low;
    assert x / 0x100 == u;
    assert x / 0x1_0000 == x / 0x100 / 0x100 && x / 0x100_0000 == x / 0x1_0000 / 0x100;
  }

  // The messages of a call are counted on from the count before it, modulo 2^8.
  lemma {:induction false} MessageCounts(fs: seq<Feedback>, fbCount: uint8, k: nat)
    requires AllFinished(fs) && k < |fs|
    ensures |EncodeAll(fs, fbCount)[k]| >= 8 && EncodeAll(fs, fbCount)[k][7] == (fbCount + k) % 0x100
    decreases |fs|
  {
    hide Encode, FeedbackOk, Size;
    if k == 0 {
      HeaderBytes(fs[0], fbCount);
    } else {
      var next: uint8 := (fbCount + 1) % 0x100;
      MessageCounts(fs[1..], next, k - 1);
      CountOn(fbCount, k);
      assert EncodeAll(fs, fbCount)[k] == EncodeAll(fs[1..], next)[k - 1];
    }
  }

  lemma CountOn(fbCount: uint8, k: nat)
    requires k > 0
    ensures ((fbCount + 1) % 0x100 + (k - 1)) % 0x100 == (fbCount + k) % 0x100
  {
  }

  // The statuses a publisher reads from a list of feedbacks, one after the other.
  ghost function DecodedStatuses(messages: seq<bytes>): seq<nat> {
    if messages == [] then []
    else
      var d := Decode(messages[0]);
      (if d.Some? then d.value.statuses else []) + DecodedStatuses(messages[1..])
  }

  ghost predicate SameReceived(st: seq<nat>, ts: seq<int>) {
    |st| == |ts| && forall i :: 0 <= i < |ts| ==> (HasTime(st[i]) <==> ts[i] != 0)
  }

  lemma StatusesDecode(f: Feedback, fbCount: uint8)
    requires FeedbackOk(f)
    ensures
      var d := Decode(Encode(f, fbCount));
      d.Some? && SameReceived(d.value.statuses, f.Times())
  {
    RoundTrip(f, fbCount);
  }

  // `st` agrees with `ts` from index `i` to the end.
  ghost predicate SameFrom(st: seq<nat>, ts: seq<int>, i: nat) {
    i + |st| == |ts| && forall k :: 0 <= k < |st| ==> (HasTime(st[k]) <==> ts[i + k] != 0)
  }

  lemma DecodeOneMore(m: bytes, rest: seq<bytes>, ts: seq<int>, i: nat, j: nat)
    requires i <= j <= |ts| && Decode(m).Some? && SameReceived(Decode(m).value.statuses, ts[i..j])
    requires SameFrom(DecodedStatuses(rest), ts, j)
    ensures SameFrom(DecodedStatuses([m] + rest), ts, i)
  {
    assert ([m] + rest)[1..] == rest;
    var st, tail := Decode(m).value.statuses, DecodedStatuses(rest);
    hide Decode, DecodedStatuses;
    forall k | 0 <= k < |st + tail| ensures HasTime((st + tail)[k]) <==> ts[i + k] != 0 {
      if k >= |st| {
        assert (st + tail)[k] == tail[k - |st|] && ts[i + k] == ts[j + (k - |st|)];
      } else {
        assert ts[i..j][k] == ts[i + k];
      }
    }
  }

  lemma CoverDecodes(f: Feedback, base: nat, ts: seq<int>, i: nat, j: nat, fbCount: uint8)
    requires Covers(f, base, ts, i, j)
    ensures
      var d := Decode(Encode(f, fbCount));
      i <= j <= |ts| && d.Some? && SameReceived(d.value.statuses, ts[i..j])
  {
    StatusesDecode(f, fbCount);
  }

  lemma {:induction false} TilesDecode(fs: seq<Feedback>, base: nat, ts: seq<int>, i: nat, fbCount: uint8)
    requires Tiles(fs, base, ts, i) && i <= |ts| && AllFinished(fs)
    ensures SameFrom(DecodedStatuses(EncodeAll(fs, fbCount)), ts, i)
    decreases |fs|
  {
    if fs != [] {
      hide Encode, Covers, Finished, Decode, SameReceived, SameFrom, DecodedStatuses;
      var j, next: uint8 := i + fs[0].Count(), (fbCount + 1) % 0x100;
      CoverDecodes(fs[0], base, ts, i, j, fbCount);
      TilesDecode(fs[1..], base, ts, j, next);
      DecodeOneMore(Encode(fs[0], fbCount), EncodeAll(fs[1..], next), ts, i, j);
    }
  }

  // End to end: the decoded statuses of one call's feedbacks are exactly the window's.
  lemma GenerateDecodes(base: nat, ts: seq<int>, fbCount: uint8)
    requires NonNegative(ts) && Ends(base, ts, START) && |ts| < 0x1_0000
    ensures AllFinished(Generated(base, ts))
    ensures SameReceived(DecodedStatuses(EncodeAll(Generated(base, ts), fbCount)), ts)
  {
    GenerateTiles(base, ts, fbCount);
    TilesDecode(Generated(base, ts), base, ts, 0, fbCount);
  }
}
