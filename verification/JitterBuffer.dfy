// The jitter buffer's ring of packets (src/jitter_buffer.cpp).
module JitterBuffer {
  import opened Wire
  import opened JitterWindow
  import opened JitterDequeue
  import opened JitterNack
  import NackList

  const RESET_DELAY := 2_000_000_000

  // ----- The ring -----

  // A pointer in mItemList.
  datatype Slot = Empty | Holds(item: Item)

  // seq & mCapacityMask, the capacity being a power of two
  function Cell(seqExt: nat, capacity: nat): (c: nat)
    requires capacity > 0
    ensures c < capacity
  {
    seqExt % capacity
  }

  lemma CellsApart(x: nat, y: nat, capacity: nat)
    requires x < y < x + capacity
    ensures Cell(x, capacity) != Cell(y, capacity)
  {
    var p, q := x / capacity, y / capacity;
    assert x == capacity * p + Cell(x, capacity) && y == capacity * q + Cell(y, capacity);
    if Cell(x, capacity) == Cell(y, capacity) {
      Multiple(capacity, p, q);
    }
  }

  lemma Multiple(n: nat, p: nat, q: nat)
    ensures n * q - n * p == n * (q - p)
    ensures q - p >= 1 ==> n * (q - p) >= n
    ensures q - p <= 0 ==> n * (q - p) <= 0
  {
  }

  // Slot seq & mask holds packet seq, for exactly the packets of the window; every other slot is empty.
  ghost predicate RingHolds(slots: seq<Slot>, w: Window, capacity: nat) {
    && 0 < capacity == |slots| && |w.items| <= capacity
    && (forall k :: 0 <= k < |w.items| ==> Placed(slots, w.min + k, w.items[k]))
    && (forall i :: 0 <= i < capacity && slots[i].Holds? ==> Owned(w, slots[i].item.seqExt, i, capacity))
  }

  predicate Placed(slots: seq<Slot>, seqExt: nat, item: Item)
    requires |slots| > 0
  {
    item.seqExt == seqExt && slots[Cell(seqExt, |slots|)] == Holds(item)
  }

  predicate Owned(w: Window, seqExt: nat, i: nat, capacity: nat)
    requires capacity > 0
  {
    InWindow(w, seqExt) && Cell(seqExt, capacity) == i
  }

  // A ring cannot hold a window that is longer than it: the first and the last packet share a slot.
  lemma RingTooLong(slots: seq<Slot>, w: Window, capacity: nat)
    requires 0 < capacity == |slots| && |w.items| == capacity + 1 && w.Numbered()
    ensures !(Placed(slots, w.min, w.items[0]) && Placed(slots, w.min + capacity, w.items[capacity]))
  {
    SameCell(w.min, capacity);
  }

  lemma SameCell(x: nat, capacity: nat)
    requires capacity > 0
    ensures Cell(x + capacity, capacity) == Cell(x, capacity)
  {
    var q := x / capacity;
    assert x == capacity * q + x % capacity;
    assert x + capacity == capacity * (q + 1) + x % capacity;
    Quotient(x + capacity, capacity, q + 1, x % capacity);
  }

  lemma Quotient(x: nat, n: nat, q: nat, r: nat)
    requires r < n && x == n * q + r
    ensures x % n == r
  {
    var q' := x / n;
    assert x == n * q' + x % n;
    Multiple(n, q, q');
    Multiple(n, q', q);
  }

  function Put(slots: seq<Slot>, item: Item): seq<Slot>
    requires |slots| > 0
  {
    slots[Cell(item.seqExt, |slots|) := Holds(item)]
  }

  lemma PutApart(slots: seq<Slot>, item: Item, other: Item)
    requires |slots| > 0 && Placed(slots, other.seqExt, other)
    requires other.seqExt < item.seqExt < other.seqExt + |slots| || item.seqExt < other.seqExt < item.seqExt + |slots|
    ensures Placed(Put(slots, item), other.seqExt, other)
  {
    hide Cell;
    if other.seqExt < item.seqExt {
      CellsApart(other.seqExt, item.seqExt, |slots|);
    } else {
      CellsApart(item.seqExt, other.seqExt, |slots|);
    }
  }

  lemma RingNumbered(slots: seq<Slot>, w: Window, capacity: nat)
    requires RingHolds(slots, w, capacity)
    ensures w.Numbered()
  {
    forall k | 0 <= k < |w.items| ensures w.items[k].seqExt == w.min + k {
      assert Placed(slots, w.min + k, w.items[k]);
    }
  }

  // Storing a packet: in its place in the window, or right next to it on either side.
  lemma RingPut(slots: seq<Slot>, w: Window, capacity: nat, item: Item, w': Window)
    requires RingHolds(slots, w, capacity) && |w'.items| <= capacity
    requires
      || (InWindow(w, item.seqExt) && w' == Window(w.min, w.items[item.seqExt - w.min := item]))
      || (item.seqExt == w.Max() && w' == Window(w.min, w.items + [item]))
      || (item.seqExt + 1 == w.min && w' == Window(item.seqExt, [item] + w.items))
    ensures RingHolds(Put(slots, item), w', capacity)
  {
    hide Cell;
    RingNumbered(slots, w, capacity);
    var slots' := Put(slots, item);
    forall k | 0 <= k < |w'.items| ensures Placed(slots', w'.min + k, w'.items[k]) {
      if w'.min + k != item.seqExt {
        var j := w'.min + k - w.min;
        assert w'.items[k] == w.items[j] && Placed(slots, w.min + j, w.items[j]);
        PutApart(slots, item, w.items[j]);
      }
    }
    forall i | 0 <= i < capacity && slots'[i].Holds? ensures Owned(w', slots'[i].item.seqExt, i, capacity) {
      assert slots'[i] == slots[i] || slots'[i] == Holds(item);
      assert slots[i].Holds? ==> Owned(w, slots[i].item.seqExt, i, capacity);
    }
  }

  // The slot next to a window that has room is empty.
  lemma RingRoom(slots: seq<Slot>, w: Window, capacity: nat, seqExt: nat)
    requires RingHolds(slots, w, capacity) && |w.items| < capacity && (seqExt == w.Max() || seqExt + 1 == w.min)
    ensures slots[Cell(seqExt, capacity)].Empty?
  {
    hide Cell;
    var slot := slots[Cell(seqExt, capacity)];
    if slot.Holds? {
      assert Owned(w, slot.item.seqExt, Cell(seqExt, capacity), capacity);
      var other := slot.item.seqExt;
      if other < seqExt {
        CellsApart(other, seqExt, capacity);
      } else {
        CellsApart(seqExt, other, capacity);
      }
    }
  }

  lemma RingTake(slots: seq<Slot>, w: Window, capacity: nat)
    requires RingHolds(slots, w, capacity) && w.items != []
    ensures RingHolds(slots[Cell(w.min, capacity) := Empty], Window(w.min + 1, w.items[1..]), capacity)
  {
    hide Cell;
    RingNumbered(slots, w, capacity);
    var c, w' := Cell(w.min, capacity), Window(w.min + 1, w.items[1..]);
    var slots' := slots[c := Empty];
    forall k | 0 <= k < |w'.items| ensures Placed(slots', w'.min + k, w'.items[k]) {
      assert Placed(slots, w.min + (k + 1), w.items[k + 1]);
      CellsApart(w.min, w.min + k + 1, capacity);
    }
    forall i | 0 <= i < capacity && slots'[i].Holds? ensures Owned(w', slots'[i].item.seqExt, i, capacity) {
      assert Owned(w, slots[i].item.seqExt, i, capacity);
    }
  }

  lemma RingAt(slots: seq<Slot>, w: Window, capacity: nat, seqExt: nat)
    requires RingHolds(slots, w, capacity) && InWindow(w, seqExt)
    ensures slots[Cell(seqExt, capacity)] == Holds(w.items[seqExt - w.min])
  {
    assert Placed(slots, w.min + (seqExt - w.min), w.items[seqExt - w.min]);
  }

  lemma RingEmpty(slots: seq<Slot>, min: nat, capacity: nat)
    requires 0 < capacity == |slots| && forall i :: 0 <= i < capacity ==> slots[i].Empty?
    ensures RingHolds(slots, Window(min, []), capacity)
  {
  }

  // ----- What an arrival does -----

  datatype Config = Config(capacity: nat, length: int, nackDelay: int, clockRate: nat, hasNack: bool)

  // The buffer without its ring; `open` says whether the ring is allocated.
  datatype Contents = Contents(
    open: bool, window: Window, baseTime: int, baseTimestamp: nat, lastPacketTime: int, lastFrame: Option<nat>)

  function TimesOf(b: Contents, c: Config, timestamp: nat, now: int): Times
    requires c.clockRate > 0
  {
    Times(now, now + c.nackDelay,
          b.baseTime + 1_000_000 * TimeDelta(timestamp, b.baseTimestamp, c.clockRate) + c.length)
  }

  // Two silent seconds followed by a jump ahead start over.
  predicate Resets(b: Contents, c: Config, seqExt: nat, now: int) {
    b.open && now - b.lastPacketTime >= RESET_DELAY && seqExt >= b.window.Max() + c.capacity / 8
  }

  predicate TooOld(b: Contents, timestamp: nat) { b.lastFrame.Some? && b.lastFrame.value > timestamp }

  // Every field of a new item is about to be written.
  function NewItem(seqExt: nat): Item { LostItem(0, 0, seqExt) }

  predicate Fresh(b: Contents, c: Config, seqExt: nat, now: int) { !b.open || Resets(b, c, seqExt, now) }

  // The buffer in which a packet finds its place: as it was, or opened afresh.
  function Opened(b: Contents, c: Config, p: Arrival, now: int): Contents {
    if !Fresh(b, c, p.seqExt, now) then b.(lastPacketTime := now)
    else
      Contents(true, Window(p.seqExt, [NewItem(p.seqExt)]), now, p.timestamp, now,
               if Resets(b, c, p.seqExt, now) then None else b.lastFrame)
  }

  // The one packet that is let in and does not fit.
  predicate Overfills(b: Contents, c: Config, p: Arrival, now: int) {
    && !TooOld(b, p.timestamp) && !Fresh(b, c, p.seqExt, now)
    && Admitted(b.window, p.seqExt, c.capacity) && p.seqExt == b.window.min + c.capacity
  }

  function Consumed(b: Contents, c: Config, p: Arrival, now: int, kind: Kind): Contents
    requires c.clockRate > 0
  {
    if TooOld(b, p.timestamp) then b
    else
      var o := Opened(b, c, p, now);
      if !Fresh(b, c, p.seqExt, now) && !Admitted(o.window, p.seqExt, c.capacity) then o
      else o.(window := AfterArrival(o.window, p, TimesOf(o, c, p.timestamp, now), kind))
  }

  lemma LostFromFirst(t: Times, first: nat, n: nat)
    ensures LostFrom(t, first, n + 1) == [LostItem(t.request, t.dequeue, first)] + LostFrom(t, first + 1, n)
  {
    var a, b := LostFrom(t, first, n + 1), [LostItem(t.request, t.dequeue, first)] + LostFrom(t, first + 1, n);
    forall k | 0 <= k < n + 1 ensures a[k] == b[k] {
      LostFromAt(t, first, n + 1, k);
      if k > 0 {
        LostFromAt(t, first + 1, n, k - 1);
      }
    }
  }

  lemma LostBelow(t: Times, first: nat, n: nat, all: seq<Item>)
    ensures [LostItem(t.request, t.dequeue, first)] + (LostFrom(t, first + 1, n) + all) == LostFrom(t, first, n + 1) + all
  {
    LostFromFirst(t, first, n);
  }

  class JitterBuffer {
    const config: Config
    // The depacketizer.
    const kindOf: (bytes, bool) -> Kind
    const extract: Extractor
    var lists: seq<seq<Item>>
    var itemList: array?<Slot>
    var minSeq: nat
    var maxSeq: nat
    var baseTime: int
    var baseTimestamp: nat
    var lastPacketTime: int
    var lastFrame: Option<nat>
    ghost var items: seq<Item>

    ghost function ToWindow(): Window reads this { Window(minSeq, items) }

    ghost function ToContents(): Contents reads this {
      Contents(itemList != null, ToWindow(), baseTime, baseTimestamp, lastPacketTime, lastFrame)
    }

    ghost predicate Valid()
      reads this, itemList
    {
      && config.capacity > 0 && config.clockRate > 0
      && maxSeq == minSeq + |items|
      && (itemList == null ==> items == [])
      && (itemList != null ==> RingHolds(itemList[..], ToWindow(), config.capacity))
    }

    constructor (config: Config, kindOf: (bytes, bool) -> Kind, extract: Extractor)
      requires config.capacity > 0 && config.clockRate > 0
      ensures Valid() && itemList == null && this.config == config && lists == []
    {
      this.config, this.kindOf, this.extract := config, kindOf, extract;
      itemList, minSeq, maxSeq, items := null, 0, 0, [];
      baseTime, baseTimestamp, lastPacketTime, lastFrame, lists := TIME_MIN, 0, TIME_MIN, None, [];
    }

    function ItemAt(seqExt: nat): (item: Item)
      requires Valid() && InWindow(ToWindow(), seqExt)
      reads this, itemList
      ensures item == items[seqExt - minSeq]
    {
      RingAt(itemList[..], ToWindow(), config.capacity, seqExt);
      itemList[Cell(seqExt, config.capacity)].item
    }

    // Forgets all packets and the last frame's time.
    method FreeEverything()
      requires Valid()
      modifies this`itemList, this`items, this`maxSeq, this`lastFrame, itemList
      ensures Valid() && itemList == null && lastFrame == None
    {
      if itemList != null {
        for s := minSeq to maxSeq
          invariant itemList == old(itemList) && itemList.Length == config.capacity
        {
          itemList[Cell(s, config.capacity)] := Empty;
        }
        itemList := null;
      }
      items := [];
      maxSeq := minSeq;
      lastFrame := None;
    }

    // Stores an item in its slot.
    method Store(item: Item, ghost w: Window)
      requires Valid() && itemList != null && |w.items| <= config.capacity
      requires
        || (InWindow(ToWindow(), item.seqExt) && w == Window(minSeq, items[item.seqExt - minSeq := item]))
        || (item.seqExt == maxSeq && w == Window(minSeq, items + [item]))
        || (item.seqExt + 1 == minSeq && w == Window(item.seqExt, [item] + items))
      modifies this`minSeq, this`maxSeq, this`items, itemList
      ensures Valid() && ToWindow() == w
    {
      hide Cell, RingHolds;
      RingLength();
      RingPut(itemList[..], ToWindow(), config.capacity, item, w);
      itemList[Cell(item.seqExt, config.capacity)] := Holds(item);
      if item.seqExt < minSeq {
        minSeq := item.seqExt;
      } else if item.seqExt >= maxSeq {
        maxSeq := item.seqExt + 1;
      }
      items := w.items;
    }

    lemma RingLength()
      requires itemList != null && RingHolds(itemList[..], ToWindow(), config.capacity)
      ensures itemList.Length == config.capacity > 0 && |items| <= config.capacity
    {
    }

    // Lost items down to the one after `seqExt`.
    method FillBelow(seqExt: nat, t: Times)
      requires Valid() && itemList != null && seqExt < minSeq && maxSeq - seqExt <= config.capacity
      modifies this`minSeq, this`maxSeq, this`items, itemList
      ensures Valid() && itemList == old(itemList)
      ensures ToWindow() == Window(seqExt + 1, LostFrom(t, seqExt + 1, old(minSeq) - seqExt - 1) + old(items))
    {
      hide RingHolds;
      ghost var all := items;
      var seqLost: int := minSeq - 1;
      assert LostFrom(t, minSeq, 0) + all == all;
      while seqLost > seqExt
        invariant Valid() && itemList == old(itemList) && seqExt <= seqLost == minSeq - 1 < old(minSeq)
        invariant maxSeq == old(maxSeq)
        invariant items == LostFrom(t, minSeq, old(minSeq) - minSeq) + all
      {
        var lost := LostItem(t.request, t.dequeue, seqLost);
        LostBelow(t, seqLost, old(minSeq) - minSeq, all);
        Store(lost, Window(seqLost, [lost] + items));
        seqLost := seqLost - 1;
      }
    }

    // Lost items up to the one before `seqExt`.
    method FillAbove(seqExt: nat, t: Times)
      requires Valid() && itemList != null && seqExt >= maxSeq && seqExt - minSeq < config.capacity
      modifies this`minSeq, this`maxSeq, this`items, itemList
      ensures Valid() && itemList == old(itemList)
      ensures ToWindow() == Window(old(minSeq), old(items) + LostFrom(t, old(maxSeq), seqExt - old(maxSeq)))
    {
      hide RingHolds;
      ghost var all, max := items, maxSeq;
      assert all + LostFrom(t, max, 0) == all;
      for seqLost := maxSeq to seqExt
        invariant Valid() && itemList == old(itemList) && minSeq == old(minSeq) && maxSeq == seqLost
        invariant items == all + LostFrom(t, max, seqLost - max)
      {
        var lost := LostItem(t.request, t.dequeue, seqLost);
        assert all + LostFrom(t, max, seqLost - max) + [lost] == all + LostFrom(t, max, seqLost + 1 - max);
        Store(lost, Window(minSeq, items + [lost]));
      }
    }

    // The first packet of a run opens the ring.
    method Open(seqExt: nat, timestamp: nat, now: int)
      requires Valid() && itemList == null
      modifies this`itemList, this`minSeq, this`maxSeq, this`items, this`baseTime, this`baseTimestamp
      ensures Valid() && itemList != null && fresh(itemList)
      ensures ToWindow() == Window(seqExt, [NewItem(seqExt)]) && baseTime == now && baseTimestamp == timestamp
    {
      hide RingHolds;
      minSeq, maxSeq, items := seqExt, seqExt, [];
      itemList := new Slot[config.capacity](_ => Empty);
      baseTime, baseTimestamp := now, timestamp;
      RingEmpty(itemList[..], seqExt, config.capacity);
      Store(NewItem(seqExt), Window(seqExt, [NewItem(seqExt)]));
    }
  
    // Grows the window to include the packet, with lost items for the packets skipped.
    method Grow(p: Arrival, t: Times)
      requires Valid() && itemList != null && SizeWith(ToWindow(), p.seqExt) <= config.capacity
      modifies this`minSeq, this`maxSeq, this`items, itemList
      ensures Valid() && itemList == old(itemList) && ToWindow() == Grown(old(ToWindow()), p, t)
    {
      hide RingHolds, LostFrom;
      RingLength();
      var item := Arrived(p, t, Standalone);
      if p.seqExt < minSeq {
        FillBelow(p.seqExt, t);
        ghost var more := LostFrom(t, p.seqExt + 1, old(minSeq) - p.seqExt - 1);
        assert [item] + (more + old(items)) == [item] + more + old(items);
        Store(item, Window(p.seqExt, [item] + items));
      } else if p.seqExt >= maxSeq {
        FillAbove(p.seqExt, t);
        Store(item, Window(minSeq, items + [item]));
      }
    }

    // Writes the packet into its item, and settles which of its neighbours opens the frame.
    method Fill(p: Arrival, t: Times)
      requires Valid() && itemList != null && InWindow(ToWindow(), p.seqExt)
      modifies this`minSeq, this`maxSeq, this`items, itemList
      ensures Valid() && itemList == old(itemList) && minSeq == old(minSeq)
      ensures
        var k, all := p.seqExt - old(minSeq), old(items);
        items == Stored(all, k, Arrived(p, t, KindAfter(all, k, p, kindOf(p.payload, p.marker))))
    {
      hide RingHolds;
      RingNumbered(itemList[..], ToWindow(), config.capacity);
      RingLength();
      var kind := kindOf(p.payload, p.marker);
      if kind == Start && minSeq < p.seqExt {
        var prev := ItemAt(p.seqExt - 1);
        if prev.timestamp == p.timestamp && (prev.kind == Start || prev.kind == Middle) {
          kind := Middle;
        }
      }
      var item := Arrived(p, t, kind);
      Store(item, Window(minSeq, items[p.seqExt - minSeq := item]));
      if (kind == Start || kind == Middle) && p.seqExt + 1 < maxSeq {
        var next := ItemAt(p.seqExt + 1);
        if next.timestamp == p.timestamp && next.kind == Start {
          Store(next.(kind := Middle), Window(minSeq, items[p.seqExt + 1 - minSeq := next.(kind := Middle)]));
        }
      }
    }

    // Starts over after a long silence, and opens the ring for the first packet.
    method Prepare(p: Arrival, now: int) returns (isFirst: bool)
      requires Valid()
      modifies this, itemList
      ensures isFirst == Fresh(old(ToContents()), config, p.seqExt, now)
      ensures Valid() && itemList != null && ToContents() == Opened(old(ToContents()), config, p, now)
      ensures itemList == old(itemList) || fresh(itemList)
      ensures lists == if Resets(old(ToContents()), config, p.seqExt, now) then [] else old(lists)
    {
      hide RingHolds;
      if itemList != null {
        var elapsed := now - lastPacketTime;
        if elapsed >= RESET_DELAY && p.seqExt >= maxSeq + config.capacity / 8 {
          FreeEverything();
          lists := [];
        }
      }
      lastPacketTime := now;
      isFirst := itemList == null;
      if isFirst {
        Open(p.seqExt, p.timestamp, now);
      }
    }

    method Insert(p: Arrival, now: int)
      requires Valid() && itemList != null && SizeWith(ToWindow(), p.seqExt) <= config.capacity
      modifies this`minSeq, this`maxSeq, this`items, itemList
      ensures Valid() && itemList == old(itemList)
      ensures
        ToWindow() == AfterArrival(old(ToWindow()), p, TimesOf(old(ToContents()), config, p.timestamp, now),
                                   kindOf(p.payload, p.marker))
    {
      hide RingHolds, TimeDelta, KindAfter, Stored;
      var t := Times(now, now + config.nackDelay,
                     baseTime + 1_000_000 * TimeDelta(p.timestamp, baseTimestamp, config.clockRate) + config.length);
      Grow(p, t);
      Fill(p, t);
    }

    // A fresh window always takes its first packet; otherwise the packet must be near the window and fit.
    method Consume(p: Arrival, now: int)
      requires Valid()
      requires !Overfills(ToContents(), config, p, now)
      modifies this, itemList
      ensures Valid() && ToContents() == Consumed(old(ToContents()), config, p, now, kindOf(p.payload, p.marker))
      ensures itemList == old(itemList) || fresh(itemList)
      ensures lists == if !TooOld(old(ToContents()), p.timestamp) && Resets(old(ToContents()), config, p.seqExt, now)
                       then [] else old(lists)
    {
      hide RingHolds, AfterArrival, TimesOf;
      if lastFrame.Some? && lastFrame.value > p.timestamp {
        return;
      }
      var isFirst := Prepare(p, now);
      RingLength();
      if !isFirst {
        if p.seqExt + config.capacity / 4 <= minSeq {
          return;
        } else if p.seqExt >= maxSeq + config.capacity / 4 {
          return;
        }
      }
      if p.seqExt < minSeq {
        if p.seqExt + config.capacity < maxSeq {
          return;
        }
      } else if p.seqExt >= maxSeq {
        if p.seqExt > minSeq + config.capacity {
          return;
        }
      }
      Insert(p, now);
    }
  
    // ----- Taking frames out -----

    ghost function Whole(frames: seq<Frame>): State reads this { State(ToWindow(), lastFrame, lists, frames) }

    // Empties the slots of the first packets.
    method DropItems(n: nat)
      requires Valid() && itemList != null && n <= |items|
      modifies this`minSeq, this`items, itemList
      ensures Valid() && itemList == old(itemList) && ToWindow() == Window(old(minSeq) + n, old(items)[n..])
    {
      hide RingHolds;
      for i := 0 to n
        invariant Valid() && itemList == old(itemList) && maxSeq == old(maxSeq)
        invariant ToWindow() == Window(old(minSeq) + i, old(items)[i..])
      {
        RingLength();
        RingTake(itemList[..], ToWindow(), config.capacity);
        assert old(items)[i..][1..] == old(items)[i + 1..];
        itemList[Cell(minSeq, config.capacity)] := Empty;
        minSeq := minSeq + 1;
        items := items[1..];
      }
    }

    // The packets from the first up to `end`, in order.
    method FillItemList(end: nat) returns (out: seq<Item>)
      requires Valid() && itemList != null && minSeq <= end < maxSeq
      ensures out == items[..end + 1 - minSeq]
    {
      hide RingHolds;
      out := [];
      for seqExt := minSeq to end + 1
        invariant out == items[..seqExt - minSeq]
      {
        var item := ItemAt(seqExt);
        out := out + [item];
      }
    }

    // Hands a list to the depacketizer and its frames to the caller.
    method Extract(list: seq<Item>, now: int, frames: seq<Frame>) returns (result: seq<Frame>)
      requires list != []
      modifies this`lists, this`lastFrame
      ensures State(ToWindow(), lastFrame, lists, result) == Extracted(old(Whole(frames)), list, now, extract)
    {
      hide FramesFrom;
      lists := lists + [list];
      var datas := extract(lists);
      result := AppendToResult(list[0], list[|list| - 1], now, datas, frames);
    }

    method AppendToResult(item: Item, last: Item, now: int, datas: seq<bytes>, frames: seq<Frame>)
      returns (result: seq<Frame>)
      modifies this`lastFrame
      ensures State(ToWindow(), lastFrame, lists, result) == Append(old(Whole(frames)), item, last, now, datas)
    {
      result := frames;
      if datas == [] {
        return;
      }
      if lastFrame.Some? && lastFrame.value > item.timestamp {
        return;
      }
      lastFrame := Some(item.timestamp);
      assert frames + FramesFrom(item, last, now, datas, 0) == frames;
      for i := 0 to |datas|
        invariant result == frames + FramesFrom(item, last, now, datas, i)
      {
        var frame := Frame(item.seqExt, item.timestamp, last.marker && i == |datas| - 1,
                           DiffMillis(last.whenReceived, item.whenReceived), DiffMillis(now, last.whenReceived), datas[i]);
        result := result + [frame];
      }
    }

    method ScanSequence() returns (r: Sequence)
      requires Valid() && itemList != null && items != []
      ensures r == FindSequence(items, 1)
    {
      hide RingHolds, FindSequence;
      var seqExt := minSeq + 1;
      while seqExt < maxSeq
        invariant minSeq + 1 <= seqExt <= maxSeq && FindSequence(items, seqExt - minSeq) == FindSequence(items, 1)
      {
        var item := ItemAt(seqExt);
        FindSequenceStep(items, seqExt - minSeq);
        if !item.received {
          return Gap;
        }
        if item.kind == End {
          return Complete(seqExt - minSeq);
        }
        if item.kind != Middle {
          return Abandoned(seqExt - minSeq);
        }
        seqExt := seqExt + 1;
      }
      FindSequenceStep(items, |items|);
      return Gap;
    }

    // Looks for the end of the frame the first packet starts; a frame that breaks off is deleted.
    method FindMultiPacketSequence() returns (r: Sequence)
      requires Valid() && itemList != null && items != []
      modifies this`minSeq, this`items, itemList
      ensures Valid() && itemList == old(itemList) && r == FindSequence(old(items), 1)
      ensures ToWindow() == if r.Abandoned? then Window(old(minSeq) + r.end + 1, old(items)[r.end + 1..]) else old(ToWindow())
    {
      hide RingHolds, FindSequence;
      r := ScanSequence();
      if r.Abandoned? {
        DropItems(r.end + 1);
      }
    }

    method FindNextToDequeue(now: int) returns (found: bool)
      requires Valid() && itemList != null && items != []
      ensures found == LaterDue(items, 1, items[0].timestamp, now)
    {
      hide RingHolds, Due, LaterDue;
      var first := ItemAt(minSeq);
      var startTimestamp := first.timestamp;
      var seqExt := minSeq + 1;
      while seqExt < maxSeq
        invariant minSeq + 1 <= seqExt <= maxSeq
        invariant LaterDue(items, seqExt - minSeq, startTimestamp, now) == LaterDue(items, 1, startTimestamp, now)
      {
        var item := ItemAt(seqExt);
        LaterDueStep(items, seqExt - minSeq, startTimestamp, now);
        if item.received && item.timestamp > startTimestamp {
          if Due(item.whenDequeue, now) {
            return true;
          }
        }
        seqExt := seqExt + 1;
      }
      LaterDueStep(items, |items|, startTimestamp, now);
      return false;
    }

    // A due packet that starts a frame; false when the frame may still be completed.
    method TakeStart(now: int, frames: seq<Frame>) returns (more: bool, result: seq<Frame>)
      requires Valid() && itemList != null && items != []
      modifies this`minSeq, this`items, this`lists, this`lastFrame, itemList
      ensures Valid() && itemList == old(itemList)
      ensures
        var next := StartTurn(old(Whole(frames)), now, extract);
        && more == next.Some? && Whole(result) == if more then next.value else old(Whole(frames))
    {
      hide RingHolds, Due, FindSequence, LaterDue, Append;
      more, result := true, frames;
      var found := FindMultiPacketSequence();
      match found
      case Complete(end) =>
        var list := FillItemList(minSeq + end);
        result := Extract(list, now, frames);
        DropItems(end + 1);
      case Gap =>
        var later := FindNextToDequeue(now);
        if later {
          DropItems(1);
        } else {
          more := false;
        }
      case Abandoned(_) =>
    }

    // One turn of processDeque's loop; false when it breaks off.
    method TakeOne(now: int, frames: seq<Frame>) returns (more: bool, result: seq<Frame>)
      requires Valid() && itemList != null && items != []
      modifies this`minSeq, this`items, this`lists, this`lastFrame, itemList
      ensures Valid() && itemList == old(itemList)
      ensures
        var next := Turn(old(Whole(frames)), now, extract);
        && more == next.Some? && Whole(result) == if more then next.value else old(Whole(frames))
    {
      hide RingHolds, Due, StartTurn, Append;
      var item := ItemAt(minSeq);
      more, result := true, frames;
      if item.received && Due(item.whenDequeue, now) {
        if item.kind == Standalone {
          result := Extract([item], now, frames);
          DropItems(1);
        } else if item.kind == Start {
          more, result := TakeStart(now, frames);
        } else {
          DropItems(1);
        }
      } else if !item.received && Due(item.whenNackAbandon, now) {
        DropItems(1);
      } else {
        more := false;
      }
    }

    method ProcessDeque(now: int) returns (result: seq<Frame>)
      requires Valid()
      modifies this`minSeq, this`items, this`lists, this`lastFrame, itemList
      ensures Valid() && itemList == old(itemList)
      ensures Whole(result) == Dequeued(old(Whole([])), now, extract)
    {
      hide RingHolds, Turn, Dequeued;
      ghost var s := Whole([]);
      result := [];
      DequeuedStep(s, now, extract);
      if itemList == null || minSeq == maxSeq {
        return;
      }
      while minSeq < maxSeq
        invariant Valid() && itemList == old(itemList)
        invariant Dequeued(Whole(result), now, extract) == Dequeued(s, now, extract)
        decreases |items|
      {
        DequeuedStep(Whole(result), now, extract);
        var more;
        more, result := TakeOne(now, result);
        if !more {
          break;
        }
      }
      DequeuedStep(Whole(result), now, extract);
    }

    // ----- Asking for lost packets -----

    method ProcessNack(now: int) returns (result: seq<uint16>)
      requires Valid()
      modifies this`minSeq, this`maxSeq, this`items, itemList
      ensures Valid() && itemList == old(itemList) && minSeq == old(minSeq)
      ensures config.hasNack && itemList != null ==>
                var sweep := Nacked(old(items), 0, now);
                items == sweep.items && result == NackList.Shorts(sweep.asked)
      ensures !config.hasNack || itemList == null ==> items == old(items) && result == []
    {
      hide RingHolds, Due, Nacked, NackList.Shorts;
      ShortsNone();
      result := [];
      ghost var all := items;
      NackedStep(all, 0, now);
      if itemList == null || minSeq == maxSeq || !config.hasNack {
        return;
      }
      var seqExt := minSeq;
      while seqExt < maxSeq
        invariant Valid() && itemList == old(itemList) && minSeq == old(minSeq) <= seqExt <= maxSeq
        invariant |items| == |all| && itemList != null
        invariant Nacked(items, seqExt - minSeq, now).items == Nacked(all, 0, now).items
        invariant result + NackList.Shorts(Nacked(items, seqExt - minSeq, now).asked) == NackList.Shorts(Nacked(all, 0, now).asked)
      {
        RingLength();
        RingNumbered(itemList[..], ToWindow(), config.capacity);
        NackedStep(items, seqExt - minSeq, now);
        var item := ItemAt(seqExt);
        if Due(item.whenNackRequest, now) {
          if !item.received && item.nackNeeded {
            var marked := item.(nackNeeded := false);
            ShortsFirst(result, item.seqExt, Nacked(Marked(items, seqExt - minSeq), seqExt + 1 - minSeq, now).asked);
            Store(marked, Window(minSeq, Marked(items, seqExt - minSeq)));
            result := result + [item.seqExt % 0x1_0000];
          }
        } else if Due(item.whenNackAbandon, now) {
          break;
        }
        seqExt := seqExt + 1;
      }
      NackedStep(items, |items|, now);
    }
  }

  lemma ShortsNone()
    ensures NackList.Shorts([]) == []
  {
  }

  lemma ShortsFirst(result: seq<uint16>, s: nat, rest: seq<nat>)
    ensures result + NackList.Shorts([s] + rest) == result + [s % 0x1_0000] + NackList.Shorts(rest)
  {
    NackList.ShortsAppend([s], rest);
    assert NackList.Shorts([s]) == [s % 0x1_0000];
  }

  // What is asked for reaches the sender: the pairs of one call expand to the very list reported.
  lemma NacksArrive(w: Window, now: int)
    requires w.Numbered()
    ensures
      var asked := Nacked(w.items, 0, now).asked;
      NackList.ExpandAll(NackList.Compressed(asked, 0)) == NackList.Shorts(asked)
  {
    hide Nacked, Due;
    var asked := Nacked(w.items, 0, now).asked;
    AskedIncreases(w, w.items, 0, now);
    NackList.ExpandCompressed(asked, 0);
    assert asked[0..] == asked;
  }

  lemma NackedStep(items: seq<Item>, k: nat, now: int)
    requires k <= |items|
    ensures Nacked(items, k, now) ==
      if k == |items| || Stops(items[k], now) then Sweep(items, [])
      else if Asks(items[k], now) then
        Sweep(Nacked(Marked(items, k), k + 1, now).items, [items[k].seqExt] + Nacked(Marked(items, k), k + 1, now).asked)
      else Nacked(items, k + 1, now)
  {
  }

  lemma FindSequenceStep(items: seq<Item>, k: nat)
    requires k <= |items|
    ensures FindSequence(items, k) ==
      if k == |items| || !items[k].received then Gap
      else if items[k].kind == End then Complete(k)
      else if items[k].kind != Middle then Abandoned(k)
      else FindSequence(items, k + 1)
  {
  }

  lemma LaterDueStep(items: seq<Item>, k: nat, timestamp: nat, now: int)
    requires k <= |items|
    ensures LaterDue(items, k, timestamp, now) ==
      (k < |items|
       && ((items[k].received && items[k].timestamp > timestamp && Due(items[k].whenDequeue, now))
           || LaterDue(items, k + 1, timestamp, now)))
  {
  }

  lemma DequeuedStep(s: State, now: int, extract: Extractor)
    ensures Dequeued(s, now, extract) ==
      if s.window.items == [] then s
      else if Turn(s, now, extract).None? then s
      else Dequeued(Turn(s, now, extract).value, now, extract)
  {
  }
}
