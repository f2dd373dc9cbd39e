// What a jitter buffer makes of a packet that arrives, and when it asks for those that did not
// (src/jitter_buffer.cpp).
module JitterArrival {
  import opened Wire
  import opened JitterWindow
  import opened JitterNack
  import opened JitterBuffer

  // A packet is let in when it is less than a quarter of the ring behind the first one or past the last
  // one, and the window still fits with it, up to one packet too many.
  predicate Near(w: Window, seqExt: nat, capacity: nat) {
    && w.min - capacity / 4 < seqExt < w.Max() + capacity / 4
    && (seqExt < w.min ==> w.Max() - capacity <= seqExt) && (seqExt >= w.Max() ==> seqExt <= w.min + capacity)
  }

  // Two silent seconds and a jump ahead by an eighth of the ring.
  predicate StartsAfresh(b: Contents, c: Config, seqExt: nat, now: int) {
    b.open && now - b.lastPacketTime >= 2_000_000_000 && seqExt >= b.window.Max() + c.capacity / 8
  }

  // When a packet of this timestamp is due.
  function Deadline(b: Contents, c: Config, timestamp: nat): int
    requires c.clockRate > 0
  {
    b.baseTime + 1_000_000 * TimeDelta(timestamp, b.baseTimestamp, c.clockRate) + c.length
  }

  // A packet as it is kept.
  predicate Kept(i: Item, p: Arrival, now: int, deadline: int) {
    && i.received && !i.nackNeeded && i.seqExt == p.seqExt && i.timestamp == p.timestamp && i.marker == p.marker
    && i.payload == p.payload && i.whenReceived == now && i.whenDequeue == deadline
  }

  // A packet that is missing: it is asked for after a delay, and given up when the one that showed it
  // missing is due.
  predicate Missing(i: Item, seqExt: nat, request: int, abandon: int) {
    !i.received && i.nackNeeded && i.seqExt == seqExt && i.whenNackRequest == request && i.whenNackAbandon == abandon
  }

  predicate SameFrame(i: Item, timestamp: nat) { i.timestamp == timestamp && (i.kind == Start || i.kind == Middle) }

  // The window after a packet that is let in.
  ghost predicate Joined(w: Window, w': Window, p: Arrival, kind: Kind, now: int, request: int, deadline: int) {
    && w'.min == (if p.seqExt < w.min then p.seqExt else w.min)
    && w'.Max() == (if p.seqExt >= w.Max() then p.seqExt + 1 else w.Max())
    && forall s :: w'.min <= s < w'.Max() ==> PlaceOk(w, w', p, kind, now, request, deadline, s)
  }

  // At the packet's own place it is kept, as a Middle one if it says Start but goes on with the frame
  // before it. Places between it and the old window are missing. Everything else stays, but a Start behind
  // it that goes on with its frame becomes a Middle one.
  ghost predicate PlaceOk(w: Window, w': Window, p: Arrival, kind: Kind, now: int, request: int, deadline: int, s: int)
    requires w'.min <= s < w'.Max() && w'.min <= p.seqExt < w'.Max() && w'.min <= w.min && w.Max() <= w'.Max()
  {
    var i := w'.items[s - w'.min];
    if s == p.seqExt then
      && Kept(i, p, now, deadline)
      && i.kind == if kind == Start && w.min < s <= w.Max() && SameFrame(w.items[s - 1 - w.min], p.timestamp) then Middle else kind
    else if s < w.min || s >= w.Max() then Missing(i, s, request, deadline)
    else
      var old_, own := w.items[s - w.min], w'.items[p.seqExt - w'.min];
      i == if s == p.seqExt + 1 && SameFrame(own, old_.timestamp) && old_.kind == Start then old_.(kind := Middle) else old_
  }

  // Where the items of the grown window come from.
  lemma GrownPlace(w: Window, p: Arrival, t: Times, s: int)
    requires var g := Grown(w, p, t); g.min <= s < g.Max()
    ensures
      var g := Grown(w, p, t);
      && g.min == (if p.seqExt < w.min then p.seqExt else w.min)
      && g.Max() == (if p.seqExt >= w.Max() then p.seqExt + 1 else w.Max())
      && (w.min <= s < w.Max() ==> g.items[s - g.min] == w.items[s - w.min])
      && (!(w.min <= s < w.Max()) && s != p.seqExt ==> g.items[s - g.min] == LostItem(t.request, t.dequeue, s))
      && (!(w.min <= s < w.Max()) && s == p.seqExt ==> g.items[s - g.min] == Arrived(p, t, Standalone))
  {
    if p.seqExt < w.min {
      if p.seqExt < s < w.min {
        LostFromAt(t, p.seqExt + 1, w.min - p.seqExt - 1, s - p.seqExt - 1);
      }
    } else if p.seqExt >= w.Max() && w.Max() <= s < p.seqExt {
      LostFromAt(t, w.Max(), p.seqExt - w.Max(), s - w.Max());
    }
  }

  lemma ArrivalPlace(w: Window, p: Arrival, t: Times, kind: Kind, s: int)
    requires var w' := AfterArrival(w, p, t, kind); w'.min <= s < w'.Max()
    ensures
      var w' := AfterArrival(w, p, t, kind);
      w'.min <= w.min && w.Max() <= w'.Max() && w'.min <= p.seqExt < w'.Max()
      && PlaceOk(w, w', p, kind, t.now, t.request, t.dequeue, s)
  {
    hide Grown;
    var g := Grown(w, p, t);
    GrownPlace(w, p, t, s);
    GrownPlace(w, p, t, p.seqExt);
    if p.seqExt > g.min {
      GrownPlace(w, p, t, p.seqExt - 1);
    }
    if p.seqExt + 1 < g.Max() {
      GrownPlace(w, p, t, p.seqExt + 1);
    }
  }

  lemma ArrivalJoins(w: Window, p: Arrival, t: Times, kind: Kind)
    ensures Joined(w, AfterArrival(w, p, t, kind), p, kind, t.now, t.request, t.dequeue)
  {
    hide PlaceOk, Stored, KindAfter, Grown;
    var w' := AfterArrival(w, p, t, kind);
    GrownPlace(w, p, t, p.seqExt);
    forall s | w'.min <= s < w'.Max() ensures PlaceOk(w, w', p, kind, t.now, t.request, t.dequeue, s) {
      ArrivalPlace(w, p, t, kind, s);
    }
  }

  // A packet, exactly. One older than the last frame handed out changes nothing. The first one, and one
  // that comes after a long silence, opens a window of its own. Of the others those that are near join the
  // window; the rest only count as activity.
  lemma ConsumedExactly(b: Contents, c: Config, p: Arrival, now: int, kind: Kind)
    requires c.clockRate > 0
    ensures
      var b' := Consumed(b, c, p, now, kind);
      if b.lastFrame.Some? && b.lastFrame.value > p.timestamp then b' == b
      else if !b.open || StartsAfresh(b, c, p.seqExt, now) then
        && b'.open && b'.window.min == p.seqExt && |b'.window.items| == 1
        && Kept(b'.window.items[0], p, now, Deadline(b', c, p.timestamp)) && b'.window.items[0].kind == kind
        && b'.baseTime == b'.lastPacketTime == now && b'.baseTimestamp == p.timestamp
        && b'.lastFrame == if StartsAfresh(b, c, p.seqExt, now) then None else b.lastFrame
      else if !Near(b.window, p.seqExt, c.capacity) then b' == b.(lastPacketTime := now)
      else
        && b' == b.(lastPacketTime := now, window := b'.window)
        && Joined(b.window, b'.window, p, kind, now, now + c.nackDelay, Deadline(b, c, p.timestamp))
  {
    hide AfterArrival, Joined, TimeDelta;
    if !TooOld(b, p.timestamp) {
      var o := Opened(b, c, p, now);
      var t := TimesOf(o, c, p.timestamp, now);
      if Fresh(b, c, p.seqExt, now) {
        FirstAlone(p, t, kind);
      } else {
        ArrivalJoins(b.window, p, t, kind);
      }
    }
  }

  lemma FirstAlone(p: Arrival, t: Times, kind: Kind)
    ensures
      var w := AfterArrival(Window(p.seqExt, [NewItem(p.seqExt)]), p, t, kind);
      w.min == p.seqExt && |w.items| == 1 && Kept(w.items[0], p, t.now, t.dequeue) && w.items[0].kind == kind
  {
  }

  // A packet as old as the base or newer is due by the clock rate of its stream.
  lemma DeadlineMeans(b: Contents, c: Config, timestamp: nat)
    requires 0 < c.clockRate < 0x1_0000_0000
    requires b.baseTimestamp <= timestamp < 0x40_0000_0000_0000
    ensures Deadline(b, c, timestamp) == b.baseTime + 1_000_000 * (1000 * (timestamp - b.baseTimestamp) / c.clockRate) + c.length
  {
    TimeDeltaExact(timestamp, b.baseTimestamp, c.clockRate);
  }

  // A sweep asks for exactly the packets that are missing, whose time to be asked for has come and which
  // have not been asked for, up to the first packet that is past its deadline before that time.
  lemma AskedMeans(w: Window, now: int, s: nat)
    requires w.Numbered()
    ensures
      s in Nacked(w.items, 0, now).asked <==>
        && w.min <= s < w.Max()
        && (forall k :: 0 <= k <= s - w.min ==>
              DiffMillis(w.items[k].whenNackRequest, now) <= 0 || DiffMillis(w.items[k].whenNackAbandon, now) > 0)
        && !w.items[s - w.min].received && w.items[s - w.min].nackNeeded
        && DiffMillis(w.items[s - w.min].whenNackRequest, now) <= 0
  {
    hide Nacked, DiffMillis;
    AskedExactly(w, w.items, 0, now, s);
  }
}
