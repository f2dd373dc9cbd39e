// Which packets of a jitter buffer are handed out as frames, and which are given up
// (src/jitter_buffer.cpp).
module JitterHandout {
  import opened Wire
  import opened JitterWindow
  import opened JitterDequeue

  // ----- What can be at the front -----

  // A whole frame starts here.
  ghost predicate FrameAhead(items: seq<Item>) { exists n :: 0 < n <= |items| && WholeFrame(items[..n]) }

  // A frame that has been started and is cut off by the n-th packet, which starts another or stands alone.
  ghost predicate BrokenFrame(items: seq<Item>, n: nat) {
    && 2 <= n <= |items| && items[0].received && items[0].kind == Start
    && (forall k :: 0 < k < n - 1 ==> items[k].received && items[k].kind == Middle)
    && items[n - 1].received && (items[n - 1].kind == Start || items[n - 1].kind == Standalone)
  }

  // A frame that has been started and may still be completed: up to a packet not received, or the end.
  ghost predicate OpenFrame(items: seq<Item>) {
    items != [] && items[0].received && items[0].kind == Start && exists m :: OpenUpTo(items, 1, m)
  }

  // From index k to m the packets are Middle ones; there is none at m.
  ghost predicate OpenUpTo(items: seq<Item>, k: nat, m: nat) {
    && k <= m <= |items| && (forall i :: k <= i < m ==> items[i].received && items[i].kind == Middle)
    && (m == |items| || !items[m].received)
  }

  ghost predicate LaterPacketDue(items: seq<Item>, now: int) {
    exists k :: 0 < k < |items| && items[k].received && items[k].timestamp > items[0].timestamp
                && DiffMillis(items[k].whenDequeue, now) <= 0
  }

  // A step of `len` packets; `taken` says whether they were handed out.
  datatype Cut = Cut(len: nat, taken: bool)

  // What becomes of the packets at the front. A packet that was not received is given up at its deadline.
  // When the first packet is due and starts a whole frame, that frame is handed out. Otherwise it is given
  // up: alone, if it starts nothing, or starts what may still be completed while a later packet is due; or
  // with the frame it has started, up to and with the packet that cuts the frame off.
  ghost predicate CutOk(items: seq<Item>, c: Cut, now: int) {
    && 0 < c.len <= |items|
    && if !items[0].received then !c.taken && c.len == 1 && DiffMillis(items[0].whenNackAbandon, now) <= 0
       else
         && DiffMillis(items[0].whenDequeue, now) <= 0
         && if c.taken then WholeFrame(items[..c.len])
            else
              && !FrameAhead(items)
              && (BrokenFrame(items, c.len)
                  || (c.len == 1 && (items[0].kind == Middle || items[0].kind == End
                                     || (OpenFrame(items) && LaterPacketDue(items, now)))))
  }

  ghost predicate Cuts(items: seq<Item>, cs: seq<Cut>, now: int)
    decreases |cs|
  {
    cs == [] || (CutOk(items, cs[0], now) && Cuts(items[cs[0].len..], cs[1..], now))
  }

  function Total(cs: seq<Cut>): nat { if cs == [] then 0 else cs[0].len + Total(cs[1..]) }

  // The lists handed out, in order.
  ghost function TakenLists(items: seq<Item>, cs: seq<Cut>): seq<seq<Item>>
    decreases |cs|
  {
    if cs == [] || cs[0].len > |items| then []
    else (if cs[0].taken then [items[..cs[0].len]] else []) + TakenLists(items[cs[0].len..], cs[1..])
  }

  // Where a call leaves off.
  ghost predicate Rests(items: seq<Item>, now: int) {
    items == []
    || (if !items[0].received then DiffMillis(items[0].whenNackAbandon, now) > 0
        else
          DiffMillis(items[0].whenDequeue, now) > 0
          || (OpenFrame(items) && !FrameAhead(items) && !LaterPacketDue(items, now)))
  }

  // ----- The searches -----

  lemma {:induction false} FindSequenceMeans(items: seq<Item>, k: nat)
    requires 0 < k <= |items|
    ensures
      var r := FindSequence(items, k);
      && (r.Abandoned? ==>
            && k <= r.end < |items| && (forall i :: k <= i < r.end ==> items[i].received && items[i].kind == Middle)
            && items[r.end].received && (items[r.end].kind == Start || items[r.end].kind == Standalone))
      && (r.Gap? ==> exists m :: OpenUpTo(items, k, m))
    decreases |items| - k
  {
    if k < |items| && items[k].received && items[k].kind == Middle {
      FindSequenceMeans(items, k + 1);
      if FindSequence(items, k).Gap? {
        var m :| OpenUpTo(items, k + 1, m);
        assert OpenUpTo(items, k, m);
      }
    } else if k == |items| || !items[k].received {
      assert OpenUpTo(items, k, k);
    }
  }

  // A frame has one end: what cuts it off or leaves it open does not come after it.
  lemma NoFrameWithin(items: seq<Item>, m: nat)
    requires 0 < m <= |items| && items[0].kind == Start && forall k :: 0 < k < m ==> items[k].kind == Middle
    requires m == |items| || !items[m].received || items[m].kind == Start || items[m].kind == Standalone
    ensures !FrameAhead(items)
  {
    forall n | 0 < n <= |items| ensures !WholeFrame(items[..n]) {
      var list := items[..n];
      if n > 1 && n - 1 < m {
        assert list[n - 1].kind == Middle;
      } else if n > m {
        assert list[m] == items[m];
      }
    }
  }

  lemma BrokenIs(items: seq<Item>, end: nat)
    requires items != [] && items[0].received && items[0].kind == Start && FindSequence(items, 1) == Abandoned(end)
    ensures BrokenFrame(items, end + 1) && !FrameAhead(items)
  {
    FindSequenceMeans(items, 1);
    NoFrameWithin(items, end);
  }

  lemma OpenIs(items: seq<Item>)
    requires items != [] && items[0].received && items[0].kind == Start && FindSequence(items, 1).Gap?
    ensures OpenFrame(items) && !FrameAhead(items)
  {
    FindSequenceMeans(items, 1);
    var m :| OpenUpTo(items, 1, m);
    NoFrameWithin(items, m);
  }

  lemma StrayIs(items: seq<Item>)
    requires items != [] && (items[0].kind == Middle || items[0].kind == End)
    ensures !FrameAhead(items)
  {
  }

  lemma {:induction false} LaterDueIs(items: seq<Item>, k: nat, timestamp: nat, now: int)
    requires k <= |items|
    ensures LaterDue(items, k, timestamp, now) <==>
            exists j :: k <= j < |items| && items[j].received && items[j].timestamp > timestamp
                        && DiffMillis(items[j].whenDequeue, now) <= 0
    decreases |items| - k
  {
    hide DiffMillis;
    if k < |items| {
      LaterDueIs(items, k + 1, timestamp, now);
    }
  }

  // ----- One turn -----

  lemma StartCut(s: State, now: int, extract: Extractor) returns (c: Cut)
    requires s.window.Numbered() && s.window.items != []
    requires s.window.items[0].received && s.window.items[0].kind == Start && DiffMillis(s.window.items[0].whenDequeue, now) <= 0
    ensures StartTurn(s, now, extract).None? ==> Rests(s.window.items, now)
    ensures StartTurn(s, now, extract).Some? ==> CutOk(s.window.items, c, now) && Follows(s, c, StartTurn(s, now, extract).value, now, extract)
  {
    hide DiffMillis, WholeFrame, FrameAhead, OpenFrame, BrokenFrame, Extracted;
    var items := s.window.items;
    c := Cut(1, false);
    match FindSequence(items, 1)
    case Complete(end) =>
      CompleteIsWhole(s.window, end);
      c := Cut(end + 1, true);
    case Abandoned(end) =>
      BrokenIs(items, end);
      c := Cut(end + 1, false);
    case Gap =>
      OpenIs(items);
      LaterDueIs(items, 1, items[0].timestamp, now);
  }

  // What a step leaves: the packets are gone, and the frame, if it was one, is handed out.
  ghost predicate Follows(s: State, c: Cut, s': State, now: int, extract: Extractor)
    requires 0 < c.len <= |s.window.items|
  {
    s' == Drop(if c.taken then Extracted(s, s.window.items[..c.len], now, extract) else s, c.len)
  }

  lemma TurnCut(s: State, now: int, extract: Extractor) returns (c: Cut)
    requires s.window.Numbered() && s.window.items != []
    ensures Turn(s, now, extract).None? ==> Rests(s.window.items, now)
    ensures Turn(s, now, extract).Some? ==> CutOk(s.window.items, c, now) && Follows(s, c, Turn(s, now, extract).value, now, extract)
  {
    hide DiffMillis, WholeFrame, FrameAhead, OpenFrame, BrokenFrame, StartTurn, Extracted;
    var items := s.window.items;
    c := Cut(1, false);
    if items[0].received && Due(items[0].whenDequeue, now) {
      if items[0].kind == Standalone {
        SingleIsWhole(s.window);
        c := Cut(1, true);
      } else if items[0].kind == Start {
        c := StartCut(s, now, extract);
      } else {
        StrayIs(items);
      }
    }
  }

  // ----- A whole call -----

  lemma DropNumbered(w: Window, n: nat)
    requires w.Numbered() && n <= |w.items|
    ensures Window(w.min + n, w.items[n..]).Numbered()
  {
  }

  lemma FollowsWindow(s: State, c: Cut, s': State, now: int, extract: Extractor)
    requires 0 < c.len <= |s.window.items| && Follows(s, c, s', now, extract)
    ensures s'.window == Window(s.window.min + c.len, s.window.items[c.len..])
    ensures s'.lists == s.lists + if c.taken then [s.window.items[..c.len]] else []
  {
    assert s.lists + [] == s.lists;
  }

  lemma CutsNext(items: seq<Item>, c: Cut, rest: seq<Cut>, now: int, lists: seq<seq<Item>>)
    requires CutOk(items, c, now) && 0 < c.len <= |items| && Cuts(items[c.len..], rest, now) && Total(rest) <= |items| - c.len
    ensures Cuts(items, [c] + rest, now) && Total([c] + rest) == c.len + Total(rest)
    ensures items[c.len..][Total(rest)..] == items[Total([c] + rest)..]
    ensures lists + (if c.taken then [items[..c.len]] else []) + TakenLists(items[c.len..], rest)
            == lists + TakenLists(items, [c] + rest)
  {
    hide CutOk;
    assert ([c] + rest)[1..] == rest;
  }

  // From the front of the window on, every whole frame that is reached while its first packet is due is
  // handed to the depacketizer, and nothing else is; what else is given up starts no whole frame.
  lemma {:induction false} HandedOut(s: State, now: int, extract: Extractor) returns (cs: seq<Cut>)
    requires s.window.Numbered()
    ensures
      var d := Dequeued(s, now, extract);
      && Cuts(s.window.items, cs, now) && Total(cs) <= |s.window.items|
      && d.window == Window(s.window.min + Total(cs), s.window.items[Total(cs)..])
      && d.lists == s.lists + TakenLists(s.window.items, cs)
      && Rests(d.window.items, now)
    decreases |s.window.items|
  {
    hide Turn, CutOk, Rests, Follows;
    cs := [];
    var items := s.window.items;
    assert s.lists + [] == s.lists && items[0..] == items;
    if items == [] {
      NothingRests(now);
    } else {
      var c := TurnCut(s, now, extract);
      var next := Turn(s, now, extract);
      if next.Some? {
        CutLength(items, c, now);
        FollowsWindow(s, c, next.value, now, extract);
        DropNumbered(s.window, c.len);
        var rest := HandedOut(next.value, now, extract);
        CutsNext(items, c, rest, now, s.lists);
        cs := [c] + rest;
      }
    }
  }

  lemma NothingRests(now: int)
    ensures Rests([], now)
  {
  }

  lemma CutLength(items: seq<Item>, c: Cut, now: int)
    requires CutOk(items, c, now)
    ensures 0 < c.len <= |items|
  {
  }

  // ----- The frames -----

  // What a frame is, besides its timing figures.
  datatype Made = Made(seqExt: nat, timestamp: nat, marker: bool, data: bytes)

  function MadeOf(f: Frame): Made { Made(f.seqExt, f.timestamp, f.marker, f.data) }

  function AllMade(fs: seq<Frame>): seq<Made> {
    if fs == [] then [] else AllMade(fs[..|fs| - 1]) + [MadeOf(fs[|fs| - 1])]
  }

  // The first n byte strings of an answer, as frames: number and time of the first packet, the marker of
  // the last packet on the last.
  function MadeFrom(list: seq<Item>, answer: seq<bytes>, n: nat): seq<Made>
    requires list != [] && n <= |answer|
  {
    if n == 0 then []
    else
      MadeFrom(list, answer, n - 1)
      + [Made(list[0].seqExt, list[0].timestamp, list[|list| - 1].marker && n == |answer|, answer[n - 1])]
  }

  // All the frames of these lists; those of a list older than the last frame are left out.
  ghost function AllMadeFrom(prior: seq<seq<Item>>, lists: seq<seq<Item>>, last: Option<nat>, extract: Extractor): seq<Made>
    requires forall k :: 0 <= k < |lists| ==> lists[k] != []
    decreases |lists|
  {
    if lists == [] then []
    else
      var list, known := lists[0], prior + [lists[0]];
      var answer := extract(known);
      if answer == [] || (last.Some? && last.value > list[0].timestamp) then AllMadeFrom(known, lists[1..], last, extract)
      else MadeFrom(list, answer, |answer|) + AllMadeFrom(known, lists[1..], Some(list[0].timestamp), extract)
  }

  lemma {:induction false} AllMadeAppend(a: seq<Frame>, b: seq<Frame>)
    ensures AllMade(a + b) == AllMade(a) + AllMade(b)
    decreases |b|
  {
    if b == [] {
      assert a + b == a;
    } else {
      AllMadeAppend(a, b[..|b| - 1]);
      assert (a + b)[..|a + b| - 1] == a + b[..|b| - 1];
    }
  }

  lemma {:induction false} FramesMade(list: seq<Item>, now: int, answer: seq<bytes>, n: nat)
    requires list != [] && n <= |answer|
    ensures AllMade(FramesFrom(list[0], list[|list| - 1], now, answer, n)) == MadeFrom(list, answer, n)
    decreases n
  {
    hide DiffMillis;
    if n > 0 {
      FramesMade(list, now, answer, n - 1);
      var fs := FramesFrom(list[0], list[|list| - 1], now, answer, n);
      assert fs[..n - 1] == FramesFrom(list[0], list[|list| - 1], now, answer, n - 1);
    }
  }

  lemma ExtractedMade(s: State, list: seq<Item>, now: int, extract: Extractor)
    requires list != []
    ensures
      var s' := Extracted(s, list, now, extract);
      var answer := extract(s.lists + [list]);
      if answer == [] || (s.last.Some? && s.last.value > list[0].timestamp) then s'.frames == s.frames && s'.last == s.last
      else AllMade(s'.frames) == AllMade(s.frames) + MadeFrom(list, answer, |answer|) && s'.last == Some(list[0].timestamp)
  {
    hide FramesFrom, AllMade, MadeFrom;
    var answer := extract(s.lists + [list]);
    FramesMade(list, now, answer, |answer|);
    AllMadeAppend(s.frames, FramesFrom(list[0], list[|list| - 1], now, answer, |answer|));
  }

  ghost predicate NoneEmpty(lists: seq<seq<Item>>) { forall k :: 0 <= k < |lists| ==> lists[k] != [] }

  lemma TakenNone(items: seq<Item>)
    ensures TakenLists(items, []) == []
  {
  }

  lemma {:induction false} TakenNonEmpty(items: seq<Item>, cs: seq<Cut>, now: int)
    requires Cuts(items, cs, now)
    ensures NoneEmpty(TakenLists(items, cs))
    decreases |cs|
  {
    hide CutOk;
    if cs != [] {
      CutLength(items, cs[0], now);
      TakenNonEmpty(items[cs[0].len..], cs[1..], now);
    }
  }

  // A call hands out exactly the frames that the depacketizer makes of the lists it is given, one for each
  // byte string, in order, less only those of lists older than the last frame.
  lemma {:induction false} FramesHandedOut(s: State, now: int, extract: Extractor) returns (lists: seq<seq<Item>>)
    requires s.window.Numbered()
    ensures
      var d := Dequeued(s, now, extract);
      && d.lists == s.lists + lists && NoneEmpty(lists)
      && AllMade(d.frames) == AllMade(s.frames) + AllMadeFrom(s.lists, lists, s.last, extract)
    decreases |s.window.items|
  {
    hide Turn, CutOk, Rests, AllMade, MadeFrom, Extracted;
    lists := [];
    assert s.lists + [] == s.lists && AllMade(s.frames) + [] == AllMade(s.frames);
    if s.window.items != [] {
      var c := TurnCut(s, now, extract);
      var next := Turn(s, now, extract);
      if next.Some? {
        CutLength(s.window.items, c, now);
        FollowsWindow(s, c, next.value, now, extract);
        DropNumbered(s.window, c.len);
        var rest := FramesHandedOut(next.value, now, extract);
        if c.taken {
          var list := s.window.items[..c.len];
          ExtractedMade(s, list, now, extract);
          lists := [list] + rest;
          assert lists[1..] == rest && s.lists + [list] + rest == s.lists + lists;
          MadeStep(s, list, rest, now, extract);
        } else {
          lists := rest;
        }
      }
    }
  }

  lemma MadeStep(s: State, list: seq<Item>, rest: seq<seq<Item>>, now: int, extract: Extractor)
    requires list != [] && NoneEmpty(rest)
    ensures NoneEmpty([list] + rest)
    ensures
      var s', answer := Extracted(s, list, now, extract), extract(s.lists + [list]);
      AllMade(s'.frames) + AllMadeFrom(s.lists + [list], rest, s'.last, extract)
      == AllMade(s.frames) + AllMadeFrom(s.lists, [list] + rest, s.last, extract)
  {
    hide Extracted, AllMade, MadeFrom;
    ExtractedMade(s, list, now, extract);
    var lists := [list] + rest;
    assert lists[1..] == rest && lists[0] == list;
  }

  // ----- A frame that is lost -----

  // A packet that cuts a frame off goes with it, even if it starts a whole frame itself: nothing of that
  // frame is handed out.
  lemma CuttingFrameIsLost(s: State, now: int, extract: Extractor)
    requires s.window.Numbered() && |s.window.items| == 3
    requires forall k :: 0 <= k < 3 ==> s.window.items[k].received && DiffMillis(s.window.items[k].whenDequeue, now) <= 0
    requires s.window.items[0].kind == Start && s.window.items[1].kind == Start && s.window.items[2].kind == End
    ensures WholeFrame(s.window.items[1..])
    ensures Dequeued(s, now, extract) == s.(window := Window(s.window.min + 3, []))
  {
    hide DiffMillis;
    var items := s.window.items;
    assert FindSequence(items, 1) == Abandoned(1);
    var s1 := Drop(s, 2);
    assert Turn(s, now, extract) == Some(s1);
    assert s1.window.items == [items[2]];
    assert Turn(s1, now, extract) == Some(Drop(s1, 1));
    var s2 := Drop(s1, 1);
    assert s2.window == Window(s.window.min + 3, []);
    assert Dequeued(s2, now, extract) == s2;
    assert Dequeued(s1, now, extract) == s2;
    assert Dequeued(s, now, extract) == Dequeued(s1, now, extract);
  }
}
