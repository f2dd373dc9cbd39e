// Taking frames out of a jitter buffer by deadline (src/jitter_buffer.cpp).
module JitterDequeue {
  import opened Wire
  import opened JitterWindow

  datatype Frame = Frame(seqExt: nat, timestamp: nat, marker: bool, firstToLast: int, wait: int, data: bytes)

  // The window, the timestamp of the last frame handed out, every packet list the depacketizer was
  // given, and the frames handed out.
  datatype State = State(window: Window, last: Option<nat>, lists: seq<seq<Item>>, frames: seq<Frame>)

  // The depacketizer: what it makes of the newest of all the lists it was given so far.
  type Extractor = seq<seq<Item>> -> seq<bytes>

  datatype Sequence = Complete(end: nat) | Gap | Abandoned(end: nat)

  // Looks from index k on for the End of the frame that the first packet starts.
  function FindSequence(items: seq<Item>, k: nat): (r: Sequence)
    requires k <= |items|
    ensures !r.Gap? ==> k <= r.end < |items|
    decreases |items| - k
  {
    if k == |items| || !items[k].received then Gap
    else if items[k].kind == End then Complete(k)
    else if items[k].kind != Middle then Abandoned(k)
    else FindSequence(items, k + 1)
  }

  // Whether a received packet with a later timestamp is due, from index k on.
  predicate LaterDue(items: seq<Item>, k: nat, timestamp: nat, now: int)
    requires k <= |items|
    decreases |items| - k
  {
    k < |items|
    && ((items[k].received && items[k].timestamp > timestamp && Due(items[k].whenDequeue, now))
        || LaterDue(items, k + 1, timestamp, now))
  }

  // The first n frames made from one packet list.
  function FramesFrom(first: Item, last: Item, now: int, datas: seq<bytes>, n: nat): (r: seq<Frame>)
    requires n <= |datas|
    ensures |r| == n
  {
    if n == 0 then []
    else
      FramesFrom(first, last, now, datas, n - 1)
      + [Frame(first.seqExt, first.timestamp, last.marker && n == |datas|,
               DiffMillis(last.whenReceived, first.whenReceived), DiffMillis(now, last.whenReceived), datas[n - 1])]
  }

  // Frames older than the last one handed out are dropped.
  function Append(s: State, first: Item, last: Item, now: int, datas: seq<bytes>): State {
    if datas == [] || (s.last.Some? && s.last.value > first.timestamp) then s
    else s.(last := Some(first.timestamp), frames := s.frames + FramesFrom(first, last, now, datas, |datas|))
  }

  function Extracted(s: State, list: seq<Item>, now: int, extract: Extractor): State
    requires list != []
  {
    var lists := s.lists + [list];
    Append(s.(lists := lists), list[0], list[|list| - 1], now, extract(lists))
  }

  function Drop(s: State, n: nat): State
    requires n <= |s.window.items|
  {
    s.(window := Window(s.window.min + n, s.window.items[n..]))
  }

  // A due packet that starts a frame: the frame goes out, or is given up, or may still be completed.
  function StartTurn(s: State, now: int, extract: Extractor): (r: Option<State>)
    requires s.window.items != []
    ensures r.Some? ==> |r.value.window.items| < |s.window.items|
  {
    var items := s.window.items;
    match FindSequence(items, 1)
    case Complete(end) => Some(Drop(Extracted(s, items[..end + 1], now, extract), end + 1))
    case Abandoned(end) => Some(Drop(s, end + 1))
    case Gap => if LaterDue(items, 1, items[0].timestamp, now) then Some(Drop(s, 1)) else None
  }

  // One turn of the loop; None when it breaks off.
  function Turn(s: State, now: int, extract: Extractor): (r: Option<State>)
    requires s.window.items != []
    ensures r.Some? ==> |r.value.window.items| < |s.window.items|
  {
    var items := s.window.items;
    var item := items[0];
    if item.received && Due(item.whenDequeue, now) then
      if item.kind == Standalone then Some(Drop(Extracted(s, [item], now, extract), 1))
      else if item.kind == Start then StartTurn(s, now, extract)
      else Some(Drop(s, 1))
    else if !item.received && Due(item.whenNackAbandon, now) then Some(Drop(s, 1))
    else None
  }

  function Dequeued(s: State, now: int, extract: Extractor): State
    decreases |s.window.items|
  {
    if s.window.items == [] then s
    else
      var next := Turn(s, now, extract);
      if next.None? then s else Dequeued(next.value, now, extract)
  }

  // ----- What the depacketizer is given -----

  // A standalone packet, or Start Middle* End; all received, with consecutive sequence numbers.
  ghost predicate WholeFrame(list: seq<Item>) {
    && list != []
    && (forall k :: 0 <= k < |list| ==> list[k].received && list[k].seqExt == list[0].seqExt + k)
    && if |list| == 1 then list[0].kind == Standalone
       else
         && list[0].kind == Start && list[|list| - 1].kind == End
         && forall k :: 0 < k < |list| - 1 ==> list[k].kind == Middle
  }

  lemma {:induction false} FindSequenceIs(items: seq<Item>, k: nat)
    requires k <= |items|
    ensures FindSequence(items, k).Complete? ==>
              var end := FindSequence(items, k).end;
              && items[end].kind == End && (forall i :: k <= i <= end ==> items[i].received)
              && forall i :: k <= i < end ==> items[i].kind == Middle
    decreases |items| - k
  {
    if k < |items| && items[k].received && items[k].kind == Middle {
      FindSequenceIs(items, k + 1);
    }
  }

  // Lists from number n on are whole frames in order, and all before `min`.
  ghost predicate ListsOk(lists: seq<seq<Item>>, n: nat, min: nat) {
    && n <= |lists|
    && (forall k :: n <= k < |lists| ==> WholeFrame(lists[k]) && Past(lists[k], min))
    && (forall j, k :: n <= j < k < |lists| ==> Precedes(lists[j], lists[k]))
  }

  predicate Past(list: seq<Item>, min: nat) { list != [] && list[|list| - 1].seqExt < min }

  predicate Precedes(a: seq<Item>, b: seq<Item>) { a != [] && b != [] && a[|a| - 1].seqExt < b[0].seqExt }

  // The frames from number n on: sequence numbers and timestamps never go back, and the last
  // timestamp is remembered.
  ghost predicate FramesOk(frames: seq<Frame>, n: nat, min: nat, before: Option<nat>, last: Option<nat>) {
    && n <= |frames|
    && (forall k :: n <= k < |frames| ==> Between(frames[k], min, before, last))
    && (forall j, k :: n <= j < k < |frames| ==> NotAfter(frames[j], frames[k]))
    && (before.Some? ==> last.Some? && before.value <= last.value)
    && (|frames| == n ==> last == before)
  }

  predicate Between(f: Frame, min: nat, before: Option<nat>, last: Option<nat>) {
    && f.seqExt < min && last.Some? && f.timestamp <= last.value
    && (before.Some? ==> before.value <= f.timestamp)
  }

  predicate NotAfter(a: Frame, b: Frame) { a.seqExt <= b.seqExt && a.timestamp <= b.timestamp }

  ghost predicate Sound(s0: State, s: State) {
    && s.window.Numbered()
    && ListsOk(s.lists, |s0.lists|, s.window.min)
    && s0.lists <= s.lists && s0.frames <= s.frames
    && FramesOk(s.frames, |s0.frames|, s.window.min, s0.last, s.last)
    && s0.window.min <= s.window.min && s.window.Max() == s0.window.Max()
    && s.window.items == s0.window.items[s.window.min - s0.window.min..]
  }

  lemma ListsNext(lists: seq<seq<Item>>, n: nat, min: nat, list: seq<Item>, min': nat)
    requires ListsOk(lists, n, min) && WholeFrame(list) && min <= list[0].seqExt && Past(list, min') && min <= min'
    ensures ListsOk(lists + [list], n, min')
  {
    hide WholeFrame;
    var all := lists + [list];
    forall k | n <= k < |all| ensures WholeFrame(all[k]) && Past(all[k], min') {
      assert k == |lists| || (Past(lists[k], min) && all[k] == lists[k]);
    }
  }

  lemma ListsLater(lists: seq<seq<Item>>, n: nat, min: nat, min': nat)
    requires ListsOk(lists, n, min) && min <= min'
    ensures ListsOk(lists, n, min')
  {
    hide WholeFrame;
  }

  lemma FramesLater(frames: seq<Frame>, n: nat, min: nat, min': nat, before: Option<nat>, last: Option<nat>)
    requires FramesOk(frames, n, min, before, last) && min <= min'
    ensures FramesOk(frames, n, min', before, last)
  {
  }

  lemma {:induction false} FramesFromAt(first: Item, last: Item, now: int, datas: seq<bytes>, n: nat, k: nat)
    requires k < n <= |datas|
    ensures
      var f := FramesFrom(first, last, now, datas, n)[k];
      && f.seqExt == first.seqExt && f.timestamp == first.timestamp && f.data == datas[k]
      && f.marker == (last.marker && k == |datas| - 1)
  {
    if k < n - 1 {
      FramesFromAt(first, last, now, datas, n - 1, k);
    }
  }

  // The timing figures of a frame: how long its packets took to arrive, and how long ago the last one came,
  // each to the nearest millisecond.
  lemma {:induction false} FrameTimes(first: Item, last: Item, now: int, datas: seq<bytes>, n: nat, k: nat)
    requires k < n <= |datas|
    requires 0 <= last.whenReceived - first.whenReceived <= 2_000_000_000_000_000
    requires 0 <= now - last.whenReceived <= 2_000_000_000_000_000
    ensures
      var f := FramesFrom(first, last, now, datas, n)[k];
      && -500_000 <= last.whenReceived - first.whenReceived - f.firstToLast * 1_000_000 < 500_000
      && -500_000 <= now - last.whenReceived - f.wait * 1_000_000 < 500_000
  {
    if k < n - 1 {
      hide DiffMillis;
      FrameTimes(first, last, now, datas, n - 1, k);
    } else {
      NearestMillis(last.whenReceived, first.whenReceived);
      NearestMillis(now, last.whenReceived);
    }
  }

  lemma NearestMillis(when: int, now: int)
    requires 0 <= when - now <= 2_000_000_000_000_000
    ensures -500_000 <= when - now - DiffMillis(when, now) * 1_000_000 < 500_000
  {
  }

  lemma FramesNext(frames: seq<Frame>, n: nat, min: nat, before: Option<nat>, last: Option<nat>,
                   more: seq<Frame>, seqExt: nat, timestamp: nat, min': nat)
    requires FramesOk(frames, n, min, before, last) && min <= seqExt < min' && more != []
    requires last.Some? ==> last.value <= timestamp
    requires forall k :: 0 <= k < |more| ==> more[k].seqExt == seqExt && more[k].timestamp == timestamp
    ensures FramesOk(frames + more, n, min', before, Some(timestamp))
  {
    var all := frames + more;
    forall k | n <= k < |all| ensures Between(all[k], min', before, Some(timestamp)) {
      assert k < |frames| ==> Between(frames[k], min, before, last);
    }
    forall j, k | n <= j < k < |all| ensures NotAfter(all[j], all[k]) {
      assert j < |frames| ==> Between(frames[j], min, before, last);
      assert k < |frames| ==> NotAfter(frames[j], frames[k]);
    }
  }

  lemma AppendOk(s: State, n: nat, before: Option<nat>, list: seq<Item>, now: int, datas: seq<bytes>, min': nat)
    requires FramesOk(s.frames, n, s.window.min, before, s.last) && list != [] && s.window.min <= list[0].seqExt < min'
    ensures
      var s' := Append(s, list[0], list[|list| - 1], now, datas);
      && FramesOk(s'.frames, n, min', before, s'.last) && s.frames <= s'.frames
      && s'.lists == s.lists && s'.window == s.window
  {
    hide FramesOk, FramesFrom;
    var first, last := list[0], list[|list| - 1];
    if datas == [] || (s.last.Some? && s.last.value > first.timestamp) {
      FramesLater(s.frames, n, s.window.min, min', before, s.last);
    } else {
      var more := FramesFrom(first, last, now, datas, |datas|);
      forall k | 0 <= k < |more| ensures more[k].seqExt == first.seqExt && more[k].timestamp == first.timestamp {
        FramesFromAt(first, last, now, datas, |datas|, k);
      }
      FramesNext(s.frames, n, s.window.min, before, s.last, more, first.seqExt, first.timestamp, min');
    }
  }

  lemma DropSound(s0: State, s: State, n: nat)
    requires Sound(s0, s) && n <= |s.window.items|
    ensures Sound(s0, Drop(s, n))
  {
    hide ListsOk, FramesOk;
    var d := s.window.min - s0.window.min;
    ListsLater(s.lists, |s0.lists|, s.window.min, s.window.min + n);
    FramesLater(s.frames, |s0.frames|, s.window.min, s.window.min + n, s0.last, s.last);
    assert s0.window.items[d..][n..] == s0.window.items[d + n..];
  }

  lemma ExtractSound(s0: State, s: State, n: nat, now: int, extract: Extractor)
    requires Sound(s0, s) && 0 < n <= |s.window.items| && WholeFrame(s.window.items[..n])
    ensures Sound(s0, Drop(Extracted(s, s.window.items[..n], now, extract), n))
  {
    hide ListsOk, FramesOk, WholeFrame, Append;
    var list, d, lists := s.window.items[..n], s.window.min - s0.window.min, s.lists + [s.window.items[..n]];
    assert list[0].seqExt == s.window.min && list[n - 1].seqExt == s.window.min + n - 1;
    ListsNext(s.lists, |s0.lists|, s.window.min, list, s.window.min + n);
    AppendOk(s.(lists := lists), |s0.frames|, s0.last, list, now, extract(lists), s.window.min + n);
    assert s0.window.items[d..][n..] == s0.window.items[d + n..];
  }

  lemma CompleteIsWhole(w: Window, end: nat)
    requires w.Numbered() && w.items != [] && w.items[0].received && w.items[0].kind == Start
    requires FindSequence(w.items, 1) == Complete(end)
    ensures WholeFrame(w.items[..end + 1])
  {
    FindSequenceIs(w.items, 1);
  }

  lemma SingleIsWhole(w: Window)
    requires w.Numbered() && w.items != [] && w.items[0].received && w.items[0].kind == Standalone
    ensures WholeFrame(w.items[..1]) && [w.items[0]] == w.items[..1]
  {
  }

  lemma SoundNumbered(s0: State, s: State)
    requires Sound(s0, s)
    ensures s.window.Numbered()
  {
  }

  lemma TurnSound(s0: State, s: State, now: int, extract: Extractor)
    requires Sound(s0, s) && s.window.items != [] && Turn(s, now, extract).Some?
    ensures Sound(s0, Turn(s, now, extract).value)
  {
    hide Sound, WholeFrame, Due, LaterDue, FindSequence, Append;
    var items := s.window.items;
    var item := items[0];
    SoundNumbered(s0, s);
    if item.received && Due(item.whenDequeue, now) && item.kind == Standalone {
      SingleIsWhole(s.window);
      ExtractSound(s0, s, 1, now, extract);
    } else if item.received && Due(item.whenDequeue, now) && item.kind == Start {
      match FindSequence(items, 1)
      case Complete(end) =>
        CompleteIsWhole(s.window, end);
        ExtractSound(s0, s, end + 1, now, extract);
      case Abandoned(end) => DropSound(s0, s, end + 1);
      case Gap => DropSound(s0, s, 1);
    } else {
      DropSound(s0, s, 1);
    }
  }

  lemma {:induction false} RunSound(s0: State, s: State, now: int, extract: Extractor)
    requires Sound(s0, s)
    ensures Sound(s0, Dequeued(s, now, extract))
    decreases |s.window.items|
  {
    hide Sound, Turn;
    if s.window.items != [] && Turn(s, now, extract).Some? {
      TurnSound(s0, s, now, extract);
      RunSound(s0, Turn(s, now, extract).value, now, extract);
    }
  }

  // Where a call may leave off: nothing left; a first packet that is not due; or a due Start behind a
  // gap while no later packet is due.
  predicate Settled(w: Window, now: int) {
    w.items == [] ||
    var item := w.items[0];
    if item.received then
      !Due(item.whenDequeue, now)
      || (item.kind == Start && FindSequence(w.items, 1) == Gap && !LaterDue(w.items, 1, item.timestamp, now))
    else !Due(item.whenNackAbandon, now)
  }

  lemma {:induction false} RunSettles(s: State, now: int, extract: Extractor)
    ensures Settled(Dequeued(s, now, extract).window, now)
    decreases |s.window.items|
  {
    hide Due, LaterDue, FindSequence, Extracted;
    if s.window.items != [] && Turn(s, now, extract).Some? {
      RunSettles(Turn(s, now, extract).value, now, extract);
    }
  }

  // A call of processDeque: the depacketizer is given whole frames only, in order; frames come out with
  // sequence numbers and timestamps that never go back; the packets left are the end of the window; and
  // nothing that could still be handed out is left waiting.
  lemma DequeueSound(s: State, now: int, extract: Extractor)
    requires s.window.Numbered()
    ensures Sound(s, Dequeued(s, now, extract)) && Settled(Dequeued(s, now, extract).window, now)
  {
    hide Dequeued, Settled;
    assert s.window.items[0..] == s.window.items;
    RunSound(s, s, now, extract);
    RunSettles(s, now, extract);
  }

  // ----- Over many calls -----

  // Timestamps handed out so far never go back, and the last one is remembered.
  ghost predicate TimeOrdered(frames: seq<Frame>, last: Option<nat>) {
    && (forall j, k :: 0 <= j < k < |frames| ==> frames[j].timestamp <= frames[k].timestamp)
    && (forall k :: 0 <= k < |frames| ==> Before(frames[k], last))
  }

  predicate Before(f: Frame, last: Option<nat>) { last.Some? && f.timestamp <= last.value }

  // The frames of one more call go on where those before it ended.
  lemma DequeueKeepsTime(frames: seq<Frame>, s: State, now: int, extract: Extractor)
    requires s.window.Numbered() && s.frames == [] && TimeOrdered(frames, s.last)
    ensures
      var d := Dequeued(s, now, extract);
      TimeOrdered(frames + d.frames, d.last)
  {
    hide Dequeued, ListsOk, Settled;
    DequeueSound(s, now, extract);
    var d := Dequeued(s, now, extract);
    TimeOrderedMore(frames, d.frames, d.window.min, s.last, d.last);
  }

  lemma TimeOrderedMore(frames: seq<Frame>, more: seq<Frame>, min: nat, before: Option<nat>, last: Option<nat>)
    requires TimeOrdered(frames, before) && FramesOk(more, 0, min, before, last)
    ensures TimeOrdered(frames + more, last)
  {
    var all := frames + more;
    forall k | 0 <= k < |all| ensures Before(all[k], last) {
      if k < |frames| {
        assert all[k] == frames[k];
      } else {
        assert Between(all[k], min, before, last);
      }
    }
    forall j, k | 0 <= j < k < |all| ensures all[j].timestamp <= all[k].timestamp {
      assert k >= |frames| ==> Between(all[k], min, before, last);
      assert j >= |frames| ==> NotAfter(all[j], all[k]);
    }
  }

  // A due frame is given up for good only at a packet of another frame: one with a different
  // timestamp, or one that stands alone.
  lemma AbandonedMeans(items: seq<Item>, end: nat)
    requires Labelled(items) && items != [] && items[0].kind == Start && FindSequence(items, 1) == Abandoned(end)
    ensures
      && 0 < end < |items| && items[end].received
      && (items[end].kind == Standalone
          || (items[end].kind == Start && items[end].timestamp != items[end - 1].timestamp))
  {
    AbandonedAt(items, 1, end);
    LabelledPairs(items);
    assert Fits(items[end - 1], items[end]);
  }

  lemma {:induction false} AbandonedAt(items: seq<Item>, k: nat, end: nat)
    requires k <= |items| && FindSequence(items, k) == Abandoned(end)
    ensures items[end].received && (items[end].kind == Standalone || items[end].kind == Start)
    ensures k < end ==> items[end - 1].kind == Middle
    decreases |items| - k
  {
    if items[k].kind == Middle {
      AbandonedAt(items, k + 1, end);
    }
  }
}
