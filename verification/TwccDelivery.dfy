// From the subscriber's window to the publisher's history: every feedback of one call, applied in order.
module TwccDelivery {
  import opened Wire
  import opened TwccFeedback
  import opened TwccPlan
  import opened TwccPublish
  import opened TwccReceive

  function ApplyAll(h: History, messages: seq<bytes>): History
    decreases |messages|
  {
    if messages == [] then h else ApplyAll(Apply(h, messages[0]), messages[1..])
  }

  // Arrival times a 24-bit reference time can express: up to about 12 days.
  ghost predicate Expressible(ts: seq<int>) {
    forall i :: 0 <= i < |ts| ==> ts[i] < 0x100_0000 * REFERENCE_UNIT
  }

  ghost predicate ReferencesFit(fs: seq<Feedback>) { forall f <- fs :: f.units < 0x100_0000 }

  lemma UnitsFit(t: int)
    requires 0 <= t < 0x100_0000 * REFERENCE_UNIT
    ensures 0 <= Units(t) < 0x100_0000
  {
  }

  lemma IterateUnits(base: nat, ts: seq<int>, s: LoopState)
    requires NonNegative(ts) && Expressible(ts) && s.i < |ts| && s.draft.units < 0x100_0000
    ensures
      var (flushed, s') := Iterate(base, ts, s);
      && s'.draft.units < 0x100_0000 && (flushed.Some? ==> flushed.value.units < 0x100_0000)
  {
    hide NextPiece, Size, EndTime, Units;
    UnitsFit(ts[s.i]);
  }

  lemma {:induction false} PlanUnits(base: nat, ts: seq<int>, s: LoopState)
    requires NonNegative(ts) && Started(ts, s) && Ends(base, ts, s) && Expressible(ts) && s.draft.units < 0x100_0000
    ensures ReferencesFit(Plan(base, ts, s))
    decreases |ts| - s.i, s.draft.chunks.Snoc?
  {
    hide Iterate, Stuck, Expressible, NonNegative;
    if s.i < |ts| {
      IterateProgress(base, ts, s);
      IterateUnits(base, ts, s);
      PlanUnits(base, ts, Iterate(base, ts, s).1);
    }
  }

  // The packets at which the publisher must still hold a record.
  ghost predicate KnowsArrivals(h: History, base: nat, ts: seq<int>) {
    forall i :: 0 <= i < |ts| && ts[i] != 0 ==> h.Knows(SeqAt(base % 0x1_0000, i))
  }

  lemma SeqAtSum(base: nat, i: nat, k: nat)
    ensures SeqAt((base + i) % 0x1_0000, k) == SeqAt(base % 0x1_0000, i + k)
  {
    assert (base + i) % 0x1_0000 + k == base + i + k - 0x1_0000 * ((base + i) / 0x1_0000);
  }

  lemma CoverKnown(h: History, f: Feedback, base: nat, ts: seq<int>, i: nat, j: nat)
    requires Covers(f, base, ts, i, j) && KnowsArrivals(h, base, ts)
    ensures KnowsReceived(h, f.base % 0x1_0000, f.Statuses())
  {
    hide SeqAt, History.Knows, PieceOk, Chained;
    ChainedFits(f.Reference(), f.chunks);
    StatusesMatchTimes(f.Reference(), f.Statuses(), f.Times());
    forall k: nat | k < |f.Statuses()| && HasTime(f.Statuses()[k])
      ensures h.Knows(SeqAt(f.base % 0x1_0000, k))
    {
      SeqAtSum(base, i, k);
      assert f.Times()[k] == ts[i + k];
    }
  }

  lemma SeqAtPeriod(base: uint16, q: nat)
    ensures SeqAt(base, q + 0x1_0000) == SeqAt(base, q)
  {
  }

  // A packet's place in a feedback for packets i to j, when it is packet q of the window.
  lemma PlaceIn(base: nat, i: nat, j: nat, q: nat)
    requires i <= j < 0x1_0000 && q < 0x1_0000
    ensures
      var place := IndexOf((base + i) % 0x1_0000, SeqAt(base % 0x1_0000, q));
      if q >= i then place == q - i else place >= j - i
  {
    hide SeqAt, IndexOf;
    var s, place := SeqAt(base % 0x1_0000, q), if q >= i then q - i else q + 0x1_0000 - i;
    SeqAtSum(base, i, place);
    SeqAtPeriod(base % 0x1_0000, q);
    IndexOfSeqAt((base + i) % 0x1_0000, place, s);
  }

  // Feedbacks for packets j on leave the records of the packets before j alone.
  lemma {:induction false} LaterFeedbacks(h: History, fs: seq<Feedback>, fbCount: uint8, base: nat, ts: seq<int>, j: nat, q: nat)
    requires Tiles(fs, base, ts, j) && AllFinished(fs) && ReferencesFit(fs)
    requires q < j <= |ts| < 0x1_0000 && KnowsArrivals(h, base, ts) && h.Knows(SeqAt(base % 0x1_0000, q))
    ensures
      var after, s := ApplyAll(h, EncodeAll(fs, fbCount)), SeqAt(base % 0x1_0000, q);
      after.Knows(s) && after.Find(s) == h.Find(s)
    decreases |fs|
  {
    hide Covers, Encode, History.Knows, History.Find, SeqAt, KnowsArrivals, IndexOf;
    if fs != [] {
      var f, next, s, next8: uint8 := fs[0], j + fs[0].Count(), SeqAt(base % 0x1_0000, q), (fbCount + 1) % 0x100;
      ApplyCover(h, f, fbCount, base, ts, j, next, q);
      LaterFeedbacks(Apply(h, Encode(f, fbCount)), fs[1..], next8, base, ts, next, q);
      assert EncodeAll(fs, fbCount)[1..] == EncodeAll(fs[1..], next8);
    }
  }

  // One feedback of the window: it dates the packets it covers and leaves the others alone.
  lemma ApplyCover(h: History, f: Feedback, fbCount: uint8, base: nat, ts: seq<int>, i: nat, j: nat, q: nat)
    requires Covers(f, base, ts, i, j) && f.units < 0x100_0000 && q < |ts| < 0x1_0000
    requires KnowsArrivals(h, base, ts) && h.Knows(SeqAt(base % 0x1_0000, q))
    ensures FeedbackOk(f)
    ensures
      var after, s := Apply(h, Encode(f, fbCount)), SeqAt(base % 0x1_0000, q);
      && KnowsArrivals(after, base, ts) && after.Knows(s)
      && if i <= q < j && ts[q] != 0 then q - i < |f.Times()| && Recovered(after.Find(s), f, q - i)
         else after.Find(s) == h.Find(s)
  {
    hide Encode, History.Knows, History.Find, SeqAt, KnowsArrivals, IndexOf, FeedbackOk, Apply, KnowsReceived, Close;
    var s := SeqAt(base % 0x1_0000, q);
    CoverKnown(h, f, base, ts, i, j);
    PlaceIn(base, i, j, q);
    FeedbackRecorded(h, f, fbCount, s);
    ApplyKeepsWindow(h, Encode(f, fbCount));
    StillKnowsArrivals(h, Apply(h, Encode(f, fbCount)), base, ts);
    if i <= q < j {
      assert f.Times()[q - i] == ts[q];
    }
  }

  ghost predicate Recovered(p: PublishPacket, f: Feedback, k: nat)
    requires k < |f.Times()|
  {
    && p.receivedTimePresent && Close(f.Times(), k, p.receivedTime)
    && p.reportedStatus != NOT_RECEIVED
  }

  lemma ApplyKeepsWindow(h: History, b: bytes)
    ensures Apply(h, b).min == h.min && |Apply(h, b).recs| == |h.recs|
  {
  }

  lemma StillKnowsArrivals(h: History, h': History, base: nat, ts: seq<int>)
    requires KnowsArrivals(h, base, ts) && h'.min == h.min && |h'.recs| == |h.recs|
    ensures KnowsArrivals(h', base, ts)
  {
    forall i | 0 <= i < |ts| && ts[i] != 0 ensures h'.Knows(SeqAt(base % 0x1_0000, i)) {
      SameKnows(h, h', SeqAt(base % 0x1_0000, i));
    }
  }

  // Every packet that arrived is recorded in `h` with a time that is off by less than 250 k
  // microseconds, being the k-th packet received of its feedback.
  ghost predicate AllRecovered(h: History, fs: seq<Feedback>, base: nat, ts: seq<int>, i: nat)
    decreases |fs|
  {
    fs == [] ||
    var j := i + fs[0].Count();
    && (forall q :: i <= q < j && q < |ts| && ts[q] != 0 ==>
          && h.Knows(SeqAt(base % 0x1_0000, q))
          && Recovered(h.Find(SeqAt(base % 0x1_0000, q)), fs[0], q - i))
    && AllRecovered(h, fs[1..], base, ts, j)
  }

  lemma {:induction false} TilesRecovered(h: History, fs: seq<Feedback>, fbCount: uint8, base: nat, ts: seq<int>, i: nat)
    requires Tiles(fs, base, ts, i) && AllFinished(fs) && ReferencesFit(fs)
    requires i <= |ts| < 0x1_0000 && KnowsArrivals(h, base, ts)
    ensures AllRecovered(ApplyAll(h, EncodeAll(fs, fbCount)), fs, base, ts, i)
    decreases |fs|
  {
    hide Covers, Encode, History.Knows, History.Find, SeqAt, Recovered;
    if fs != [] {
      var f, j, fbCount': uint8 := fs[0], i + fs[0].Count(), (fbCount + 1) % 0x100;
      var rest := EncodeAll(fs[1..], fbCount');
      assert EncodeAll(fs, fbCount)[1..] == rest;
      var h' := Apply(h, Encode(f, fbCount));
      var after := ApplyAll(h', rest);
      ApplyKeepsWindow(h, Encode(f, fbCount));
      StillKnowsArrivals(h, h', base, ts);
      TilesRecovered(h', fs[1..], fbCount', base, ts, j);
      forall q | i <= q < j && q < |ts| && ts[q] != 0
        ensures after.Knows(SeqAt(base % 0x1_0000, q))
        ensures Recovered(after.Find(SeqAt(base % 0x1_0000, q)), f, q - i)
      {
        CoverBounds(f, base, ts, i, j);
        ApplyCover(h, f, fbCount, base, ts, i, j, q);
        LaterFeedbacks(h', fs[1..], fbCount', base, ts, j, q);
      }
    }
  }

  lemma CoverBounds(f: Feedback, base: nat, ts: seq<int>, i: nat, j: nat)
    requires Covers(f, base, ts, i, j)
    ensures i < j <= |ts| && |f.Times()| == j - i
  {
  }

  // The window's other packets: nothing is recorded for a packet that did not arrive.
  lemma {:induction false} NothingInvented(h: History, fs: seq<Feedback>, fbCount: uint8, base: nat, ts: seq<int>, i: nat, q: nat)
    requires Tiles(fs, base, ts, i) && AllFinished(fs) && ReferencesFit(fs)
    requires i <= |ts| < 0x1_0000 && KnowsArrivals(h, base, ts)
    requires q < |ts| && ts[q] == 0 && h.Knows(SeqAt(base % 0x1_0000, q))
    ensures
      var after, s := ApplyAll(h, EncodeAll(fs, fbCount)), SeqAt(base % 0x1_0000, q);
      after.Knows(s) && after.Find(s) == h.Find(s)
    decreases |fs|
  {
    hide Covers, Encode, History.Knows, History.Find, SeqAt, Recovered;
    if fs != [] {
      var f, j, fbCount': uint8 := fs[0], i + fs[0].Count(), (fbCount + 1) % 0x100;
      CoverBounds(f, base, ts, i, j);
      ApplyCover(h, f, fbCount, base, ts, i, j, q);
      NothingInvented(Apply(h, Encode(f, fbCount)), fs[1..], fbCount', base, ts, j, q);
      assert EncodeAll(fs, fbCount)[1..] == EncodeAll(fs[1..], fbCount');
    }
  }

  ghost predicate Untouched(h: History, after: History, s: uint16) {
    h.Knows(s) ==> after.Knows(s) && after.Find(s) == h.Find(s)
  }

  // End to end: what the subscriber saved is what the publisher has on record once it has read the
  // feedbacks of one call, wherever 16-bit sequence numbers wrap.
  lemma WindowDelivered(h: History, base: nat, ts: seq<int>, fbCount: uint8)
    requires NonNegative(ts) && Ends(base, ts, START) && Expressible(ts) && |ts| < 0x1_0000
    requires KnowsArrivals(h, base, ts)
    ensures
      var fs := Generated(base, ts);
      && Tiles(fs, base, ts, 0) && AllFinished(fs)
      && AllRecovered(ApplyAll(h, EncodeAll(fs, fbCount)), fs, base, ts, 0)
      && forall q :: 0 <= q < |ts| && ts[q] == 0 ==> Untouched(h, ApplyAll(h, EncodeAll(fs, fbCount)), SeqAt(base % 0x1_0000, q))
  {
    hide Tiles, AllFinished, AllRecovered, ApplyAll, Plan, KnowsArrivals;
    GenerateTiles(base, ts, fbCount);
    PlanUnits(base, ts, START);
    var fs := Generated(base, ts);
    TilesRecovered(h, fs, fbCount, base, ts, 0);
    forall q | 0 <= q < |ts| && ts[q] == 0
      ensures Untouched(h, ApplyAll(h, EncodeAll(fs, fbCount)), SeqAt(base % 0x1_0000, q))
    {
      if h.Knows(SeqAt(base % 0x1_0000, q)) {
        NothingInvented(h, fs, fbCount, base, ts, 0, q);
      }
    }
  }
}
