// Asking for lost packets again (src/jitter_buffer.cpp).
module JitterNack {
  import opened Wire
  import opened JitterWindow
  import opened NackList

  datatype Sweep = Sweep(items: seq<Item>, asked: seq<nat>)

  predicate Asks(item: Item, now: int) { Due(item.whenNackRequest, now) && !item.received && item.nackNeeded }

  predicate Stops(item: Item, now: int) { !Due(item.whenNackRequest, now) && Due(item.whenNackAbandon, now) }

  // From index k on: what is asked for, and the items once they are marked as asked for.
  function Nacked(items: seq<Item>, k: nat, now: int): (r: Sweep)
    requires k <= |items|
    ensures |r.items| == |items|
    decreases |items| - k
  {
    if k == |items| || Stops(items[k], now) then Sweep(items, [])
    else if Asks(items[k], now) then
      var rest := Nacked(items[k := items[k].(nackNeeded := false)], k + 1, now);
      rest.(asked := [items[k].seqExt] + rest.asked)
    else Nacked(items, k + 1, now)
  }

  // Nothing before index k breaks off the sweep.
  ghost predicate Reached(items: seq<Item>, from: nat, k: nat, now: int)
    requires k < |items|
  {
    forall j :: from <= j <= k ==> !Stops(items[j], now)
  }

  lemma IncreasingCons(x: nat, rest: seq<nat>)
    requires Increasing(rest) && forall s :: s in rest ==> x < s
    ensures Increasing([x] + rest)
  {
    var all := [x] + rest;
    forall j, k | 0 <= j < k < |all| ensures all[j] < all[k] {
      assert all[k] == rest[k - 1] && rest[k - 1] in rest;
      assert j > 0 ==> all[j] == rest[j - 1];
    }
  }

  function Marked(items: seq<Item>, k: nat): seq<Item>
    requires k < |items|
  {
    items[k := items[k].(nackNeeded := false)]
  }

  // Packet `s` of the window is asked for by a sweep from index k on.
  ghost predicate Wanted(w: Window, k: nat, s: nat, now: int) {
    w.min + k <= s < w.Max() && Reached(w.items, k, s - w.min, now) && Asks(w.items[s - w.min], now)
  }

  lemma WantedNext(w: Window, k: nat, s: nat, now: int)
    requires k < |w.items|
    ensures Stops(w.items[k], now) ==> !Wanted(w, k, s, now)
    ensures !Stops(w.items[k], now) ==>
              (Wanted(w, k, s, now) <==> (s == w.min + k && Asks(w.items[k], now)) || Wanted(w, k + 1, s, now))
  {
    hide Asks, Stops;
  }

  // Exactly the packets reached that are lost, due and not yet asked for ...
  lemma {:induction false} AskedExactly(w: Window, items: seq<Item>, k: nat, now: int, s: nat)
    requires k <= |items| == |w.items| && w.Numbered()
    requires forall j :: k <= j < |items| ==> items[j] == w.items[j]
    ensures s in Nacked(items, k, now).asked <==> Wanted(w, k, s, now)
    decreases |items| - k
  {
    hide Asks, Stops, Wanted;
    if k < |items| {
      WantedNext(w, k, s, now);
      if !Stops(items[k], now) {
        AskedExactly(w, if Asks(items[k], now) then Marked(items, k) else items, k + 1, now, s);
      }
    } else {
      WantedNone(w, k, s, now);
    }
  }

  lemma WantedNone(w: Window, k: nat, s: nat, now: int)
    requires k >= |w.items|
    ensures !Wanted(w, k, s, now)
  {
  }

  // ... in increasing order ...
  lemma {:induction false} AskedIncreases(w: Window, items: seq<Item>, k: nat, now: int)
    requires k <= |items| == |w.items| && w.Numbered()
    requires forall j :: k <= j < |items| ==> items[j] == w.items[j]
    ensures Increasing(Nacked(items, k, now).asked)
    decreases |items| - k
  {
    hide Asks, Stops, Wanted;
    if k < |items| && !Stops(items[k], now) {
      var next := if Asks(items[k], now) then Marked(items, k) else items;
      AskedIncreases(w, next, k + 1, now);
      var rest := Nacked(next, k + 1, now).asked;
      forall s | s in rest ensures w.min + k < s {
        AskedExactly(w, next, k + 1, now, s);
        WantedAfter(w, k + 1, s, now);
      }
      IncreasingCons(w.min + k, rest);
    }
  }

  lemma WantedAfter(w: Window, k: nat, s: nat, now: int)
    requires Wanted(w, k, s, now)
    ensures w.min + k <= s < w.Max()
  {
  }

  // ... and of the items nothing changes but the mark of those asked for.
  lemma {:induction false} OnlyMarked(w: Window, items: seq<Item>, k: nat, now: int, j: nat)
    requires k <= |items| == |w.items| && w.Numbered() && j < |items|
    requires forall i :: k <= i < |items| ==> items[i] == w.items[i]
    ensures Nacked(items, k, now).items[j] ==
      if Wanted(w, k, w.min + j, now) then items[j].(nackNeeded := false) else items[j]
    decreases |items| - k
  {
    hide Asks, Stops, Wanted;
    if k < |items| {
      WantedNext(w, k, w.min + j, now);
      if !Stops(items[k], now) {
        OnlyMarked(w, if Asks(items[k], now) then Marked(items, k) else items, k + 1, now, j);
        NotWantedBelow(w, k + 1, w.min + j, now);
      }
    } else {
      WantedNone(w, k, w.min + j, now);
    }
  }

  lemma NotWantedBelow(w: Window, k: nat, s: nat, now: int)
    ensures s < w.min + k ==> !Wanted(w, k, s, now)
  {
  }

  predicate InWindow(w: Window, s: nat) { w.min <= s < w.Max() }

  predicate MayAsk(w: Window, s: nat) { InWindow(w, s) && w.items[s - w.min].nackNeeded }

  // Nothing that happens to a window gives an item its mark back: only new lost items have it.
  ghost predicate NoNewMarks(w: Window, w': Window) {
    forall s: nat :: InWindow(w, s) && MayAsk(w', s) ==> MayAsk(w, s)
  }

  // A sweep takes the mark from the packets it asks for.
  lemma SweepMarks(w: Window, now: int, s: nat)
    requires w.Numbered()
    ensures
      var w' := Window(w.min, Nacked(w.items, 0, now).items);
      && w'.Numbered() && NoNewMarks(w, w')
      && (s in Nacked(w.items, 0, now).asked ==> MayAsk(w, s) && InWindow(w', s) && !MayAsk(w', s))
  {
    hide Due, Nacked;
    var w' := Window(w.min, Nacked(w.items, 0, now).items);
    forall j | 0 <= j < |w.items| ensures w'.items[j].seqExt == w.min + j {
      OnlyMarked(w, w.items, 0, now, j);
    }
    forall q: nat | InWindow(w, q) && MayAsk(w', q) ensures MayAsk(w, q) {
      OnlyMarked(w, w.items, 0, now, q - w.min);
    }
    AskedExactly(w, w.items, 0, now, s);
    if s in Nacked(w.items, 0, now).asked {
      OnlyMarked(w, w.items, 0, now, s - w.min);
    }
  }

  lemma ArrivalKeepsMarks(w: Window, p: Arrival, t: Times, kind: Kind)
    ensures NoNewMarks(w, AfterArrival(w, p, t, kind))
  {
    hide Stored;
    var g, w' := Grown(w, p, t), AfterArrival(w, p, t, kind);
    forall s: nat | InWindow(w, s) && MayAsk(w', s) ensures MayAsk(w, s) {
      GrownKeeps(w, p, t, s);
      StoredMark(g.items, p.seqExt - g.min, Arrived(p, t, KindAfter(g.items, p.seqExt - g.min, p, kind)), s - g.min);
    }
  }

  lemma DropKeepsMarks(w: Window, n: nat)
    requires n <= |w.items|
    ensures NoNewMarks(w, Window(w.min + n, w.items[n..]))
  {
  }

  lemma GrownKeeps(w: Window, p: Arrival, t: Times, s: nat)
    requires w.min <= s < w.Max()
    ensures Grown(w, p, t).items[s - Grown(w, p, t).min] == w.items[s - w.min]
  {
  }

  lemma StoredMark(items: seq<Item>, k: nat, item: Item, j: nat)
    requires k < |items| && j < |items| && !item.nackNeeded
    ensures !items[j].nackNeeded ==> !Stored(items, k, item)[j].nackNeeded
  {
  }
}
