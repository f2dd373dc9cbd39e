// The packets a jitter buffer holds, as a window of extended sequence numbers, and what each operation
// does to it (src/jitter_buffer.cpp).
module JitterWindow {
  import opened Wire

  const TIME_MIN := -0x8000_0000_0000_0000
  const TIME_MAX := 0x7FFF_FFFF_FFFF_FFFF

  datatype Kind = Standalone | Start | Middle | End

  // Times are nanoseconds of a steady clock.
  datatype Item = Item(
    whenReceived: int, whenDequeue: int, whenNackRequest: int, whenNackAbandon: int,
    received: bool, nackNeeded: bool, kind: Kind,
    seqExt: nat, timestamp: nat, marker: bool, payload: bytes)

  function LostItem(request: int, abandon: int, seqExt: nat): Item {
    Item(TIME_MIN, TIME_MAX, request, abandon, false, true, Standalone, seqExt, 0, false, [])
  }

  // Whole milliseconds, as a 32-bit int, rounded so that half a millisecond ahead counts as now.
  function DiffMillis(when: int, now: int): int {
    (TruncDiv(when - now + 500_000, 1_000_000) + 0x8000_0000) % 0x1_0000_0000 - 0x8000_0000
  }

  predicate Due(when: int, now: int) { DiffMillis(when, now) <= 0 }

  // Up to 24 days either way, due means less than half a millisecond ahead.
  lemma DueMeans(when: int, now: int)
    requires -2_000_000_000_000_000 <= when - now <= 2_000_000_000_000_000
    ensures Due(when, now) <==> when - now < 500_000
  {
  }

  // The items of packets min, min + 1, ...
  datatype Window = Window(min: nat, items: seq<Item>) {
    function Max(): nat { min + |items| }

    ghost predicate Numbered() { forall k :: 0 <= k < |items| ==> items[k].seqExt == min + k }
  }

  // ----- Arrival -----

  datatype Arrival = Arrival(seqExt: nat, timestamp: nat, marker: bool, payload: bytes)

  datatype Times = Times(now: int, request: int, dequeue: int)

  // Lost items for n packets from `first` on.
  function LostFrom(t: Times, first: nat, n: nat): (r: seq<Item>)
    ensures |r| == n
  {
    if n == 0 then [] else LostFrom(t, first, n - 1) + [LostItem(t.request, t.dequeue, first + n - 1)]
  }

  lemma {:induction false} LostFromAt(t: Times, first: nat, n: nat, k: nat)
    requires k < n
    ensures LostFrom(t, first, n)[k] == LostItem(t.request, t.dequeue, first + k)
  {
    if k < n - 1 {
      LostFromAt(t, first, n - 1, k);
    }
  }

  function Arrived(p: Arrival, t: Times, kind: Kind): Item {
    Item(t.now, t.dequeue, t.request, t.dequeue, true, false, kind, p.seqExt, p.timestamp, p.marker, p.payload)
  }

  // The window grown to include packet `p.seqExt`, with lost items for the packets skipped.
  function Grown(w: Window, p: Arrival, t: Times): (r: Window)
    ensures r.min <= p.seqExt < r.Max()
    ensures r.min <= w.min && w.Max() <= r.Max()
  {
    var item := Arrived(p, t, Standalone);
    if p.seqExt < w.min then
      Window(p.seqExt, [item] + LostFrom(t, p.seqExt + 1, w.min - p.seqExt - 1) + w.items)
    else if p.seqExt >= w.Max() then
      Window(w.min, w.items + LostFrom(t, w.Max(), p.seqExt - w.Max()) + [item])
    else w
  }

  predicate Opens(i: Item) { i.kind == Start || i.kind == Middle }

  // Some depacketizers say Start for every packet that is not the last: a packet with the timestamp of
  // the Start or Middle packet before it is taken for a Middle one.
  function KindAfter(items: seq<Item>, k: nat, p: Arrival, kind: Kind): Kind
    requires k < |items|
  {
    if kind == Start && k > 0 && items[k - 1].timestamp == p.timestamp && Opens(items[k - 1]) then Middle else kind
  }

  // Stored at index k; a Start that follows with the same timestamp becomes a Middle.
  function Stored(items: seq<Item>, k: nat, item: Item): (r: seq<Item>)
    requires k < |items|
    ensures |r| == |items|
  {
    var stored := items[k := item];
    if Opens(item) && k + 1 < |items| && items[k + 1].timestamp == item.timestamp && items[k + 1].kind == Start then
      stored[k + 1 := items[k + 1].(kind := Middle)]
    else stored
  }

  function AfterArrival(w: Window, p: Arrival, t: Times, kind: Kind): (r: Window)
    ensures r.min <= w.min && w.Max() <= r.Max() && r.min <= p.seqExt < r.Max()
  {
    var g := Grown(w, p, t);
    var k := p.seqExt - g.min;
    Window(g.min, Stored(g.items, k, Arrived(p, t, KindAfter(g.items, k, p, kind))))
  }

  lemma GrownNumbered(w: Window, p: Arrival, t: Times)
    requires w.Numbered()
    ensures
      var r := Grown(w, p, t);
      forall k :: 0 <= k < |r.items| && r.min + k != p.seqExt ==> r.items[k].seqExt == r.min + k
  {
    var r := Grown(w, p, t);
    forall k | 0 <= k < |r.items| && r.min + k != p.seqExt ensures r.items[k].seqExt == r.min + k {
      if p.seqExt < w.min {
        var n := w.min - p.seqExt - 1;
        if k <= n {
          LostFromAt(t, p.seqExt + 1, n, k - 1);
        } else {
          assert r.items[k] == w.items[k - n - 1];
        }
      } else if p.seqExt >= w.Max() {
        var n := p.seqExt - w.Max();
        if k >= |w.items| {
          LostFromAt(t, w.Max(), n, k - |w.items|);
        }
      }
    }
  }

  lemma ArrivalNumbered(w: Window, p: Arrival, t: Times, kind: Kind)
    requires w.Numbered()
    ensures AfterArrival(w, p, t, kind).Numbered()
  {
    hide Grown;
    GrownNumbered(w, p, t);
  }

  // ----- Kinds -----

  // No packet restarts a frame that the packet before it has opened.
  ghost predicate Labelled(items: seq<Item>) {
    forall j, k :: 0 <= j < k < |items| && k == j + 1 && Opens(items[j]) && items[k].kind == Start
                   ==> items[j].timestamp != items[k].timestamp
  }

  predicate Fits(a: Item, b: Item) { Opens(a) && b.kind == Start ==> a.timestamp != b.timestamp }

  lemma LabelledPairs(items: seq<Item>)
    ensures Labelled(items) <==> forall k :: 0 < k < |items| ==> Fits(items[k - 1], items[k])
  {
  }

  lemma PlainFits(a: Item, b: Item)
    requires a.kind == Standalone || b.kind == Standalone
    ensures Fits(a, b)
  {
  }

  lemma GrownLabelled(w: Window, p: Arrival, t: Times)
    requires Labelled(w.items)
    ensures Labelled(Grown(w, p, t).items)
  {
    hide Fits, Labelled;
    LabelledPairs(w.items);
    var g := Grown(w, p, t).items;
    forall k | 0 < k < |g| ensures Fits(g[k - 1], g[k]) {
      if p.seqExt < w.min {
        var n := w.min - p.seqExt - 1;
        if k <= n + 1 {
          if k <= n {
            LostFromAt(t, p.seqExt + 1, n, k - 1);
          } else if n > 0 {
            LostFromAt(t, p.seqExt + 1, n, n - 1);
          }
          PlainFits(g[k - 1], g[k]);
        } else {
          assert g[k - 1] == w.items[k - n - 2] && g[k] == w.items[k - n - 1];
        }
      } else if p.seqExt >= w.Max() {
        var n := p.seqExt - w.Max();
        if k >= |w.items| {
          if k < |w.items| + n {
            LostFromAt(t, w.Max(), n, k - |w.items|);
          }
          PlainFits(g[k - 1], g[k]);
        }
      }
    }
    LabelledPairs(g);
  }

  lemma StoredLabelled(items: seq<Item>, k: nat, p: Arrival, t: Times, kind: Kind)
    requires k < |items| && Labelled(items)
    ensures Labelled(Stored(items, k, Arrived(p, t, KindAfter(items, k, p, kind))))
  {
    hide Labelled;
    LabelledPairs(items);
    var r := Stored(items, k, Arrived(p, t, KindAfter(items, k, p, kind)));
    forall j | 0 < j < |r| ensures Fits(r[j - 1], r[j]) {
      assert Fits(items[j - 1], items[j]);
    }
    LabelledPairs(r);
  }

  // An arrival never leaves two packets of one frame both opening it.
  lemma ArrivalLabelled(w: Window, p: Arrival, t: Times, kind: Kind)
    requires Labelled(w.items)
    ensures Labelled(AfterArrival(w, p, t, kind).items)
  {
    hide Labelled, Stored, Grown, KindAfter;
    GrownLabelled(w, p, t);
    var g := Grown(w, p, t);
    StoredLabelled(g.items, p.seqExt - g.min, p, t, kind);
  }

  // ----- Which packets a full ring turns away -----

  // The tests of `consume`, for a buffer that is not empty of memory.
  predicate Admitted(w: Window, seqExt: nat, capacity: nat) {
    && seqExt + capacity / 4 > w.min
    && seqExt < w.Max() + capacity / 4
    && (seqExt < w.min ==> seqExt + capacity >= w.Max())
    && (seqExt >= w.Max() ==> seqExt <= w.min + capacity)
  }

  function SizeWith(w: Window, seqExt: nat): nat {
    if seqExt < w.min then w.Max() - seqExt else if seqExt >= w.Max() then seqExt + 1 - w.min else |w.items|
  }

  // An admitted packet fits into the ring, except one: the packet exactly `capacity` after the first.
  lemma AdmittedOverfills(w: Window, seqExt: nat, capacity: nat)
    requires |w.items| <= capacity && Admitted(w, seqExt, capacity)
    ensures SizeWith(w, seqExt) > capacity <==> seqExt == w.min + capacity
  {
  }

  // That packet is not turned away when more than three quarters of the ring are in use.
  lemma OverfillHappens(w: Window, capacity: nat)
    requires capacity >= 4 && |w.items| <= capacity && capacity - capacity / 4 < |w.items|
    ensures Admitted(w, w.min + capacity, capacity) && SizeWith(w, w.min + capacity) == capacity + 1
  {
  }

  // A packet older than the first one of a run gets a time difference that has wrapped around.
  function TimeDelta(timestamp: nat, base: nat, clockRate: nat): int
    requires clockRate > 0
  {
    1000 * ((timestamp - base) % 0x1_0000_0000_0000_0000) % 0x1_0000_0000_0000_0000 / clockRate
  }

  // The difference is right exactly for packets that are not older than the base.
  lemma TimeDeltaExact(timestamp: nat, base: nat, clockRate: nat)
    requires 0 < clockRate < 0x1_0000_0000
    requires timestamp < 0x40_0000_0000_0000 && base < 0x40_0000_0000_0000
    ensures TimeDelta(timestamp, base, clockRate) == TruncDiv(1000 * (timestamp - base), clockRate) <==> timestamp >= base
  {
    var d := timestamp - base;
    TimeDeltaIs(timestamp, base, clockRate);
    if d < 0 {
      DivPositive(1000 * d + 0x1_0000_0000_0000_0000, clockRate);
      DivNatural(-(1000 * d), clockRate);
    }
  }

  lemma TimeDeltaIs(timestamp: nat, base: nat, clockRate: nat)
    requires clockRate > 0 && timestamp < 0x40_0000_0000_0000 && base < 0x40_0000_0000_0000
    ensures TimeDelta(timestamp, base, clockRate) ==
      (1000 * (timestamp - base) + if timestamp >= base then 0 else 0x1_0000_0000_0000_0000) / clockRate
  {
    WrapOnce(timestamp - base);
  }

  lemma WrapOnce(d: int)
    requires -0x40_0000_0000_0000 < d < 0x40_0000_0000_0000
    ensures 1000 * (d % 0x1_0000_0000_0000_0000) % 0x1_0000_0000_0000_0000
            == 1000 * d + if d >= 0 then 0 else 0x1_0000_0000_0000_0000
  {
    if d < 0 {
      assert 1000 * (d % 0x1_0000_0000_0000_0000) == 1000 * d + 0x1_0000_0000_0000_0000 + 999 * 0x1_0000_0000_0000_0000;
    }
  }

  lemma DivPositive(x: int, n: int)
    requires 0 < n <= x
    ensures x / n >= 1
  {
    var q := x / n;
    assert x == n * q + x % n;
    assert q <= 0 ==> n * q <= 0;
  }

  lemma DivNatural(x: int, n: int)
    requires 0 < n && 0 <= x
    ensures x / n >= 0
  {
  }
}
