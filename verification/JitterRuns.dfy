// Runs of a jitter buffer: packets, frames and reports in any order (src/jitter_buffer.cpp).
module JitterRuns {
  import opened Wire
  import opened JitterWindow
  import opened JitterDequeue
  import opened JitterNack
  import opened JitterBuffer

  // A packet is consumed; frames are taken out; lost packets are asked for.
  datatype Event = Consume(p: Arrival, now: int, kind: Kind) | ProcessDeque(now: int) | ProcessNack(now: int)

  // The buffer, the lists its depacketizer was given, and the frames handed out since the last reset.
  datatype Run = Run(b: Contents, lists: seq<seq<Item>>, frames: seq<Frame>)

  function WholeOf(r: Run): State { State(r.b.window, r.b.lastFrame, r.lists, []) }

  // A packet that starts the buffer over is a reset.
  predicate StartsOver(c: Config, r: Run, e: Event) {
    e.Consume? && !TooOld(r.b, e.p.timestamp) && Resets(r.b, c, e.p.seqExt, e.now)
  }

  function Swept(c: Config, r: Run, now: int): Sweep {
    if c.hasNack && r.b.open then Nacked(r.b.window.items, 0, now) else Sweep(r.b.window.items, [])
  }

  function Happens(c: Config, extract: Extractor, r: Run, e: Event): Run
    requires c.clockRate > 0
  {
    match e
    case Consume(p, now, kind) =>
      var over := StartsOver(c, r, e);
      Run(Consumed(r.b, c, p, now, kind), if over then [] else r.lists, if over then [] else r.frames)
    case ProcessDeque(now) =>
      var d := Dequeued(WholeOf(r), now, extract);
      Run(r.b.(window := d.window, lastFrame := d.last), d.lists, r.frames + d.frames)
    case ProcessNack(now) => r.(b := r.b.(window := Window(r.b.window.min, Swept(c, r, now).items)))
  }

  // What an event asks for.
  function Asked(c: Config, r: Run, e: Event): seq<nat> { if e.ProcessNack? then Swept(c, r, e.now).asked else [] }

  // The run after its first k events.
  function After(c: Config, extract: Extractor, r: Run, es: seq<Event>, k: nat): Run
    requires c.clockRate > 0 && k <= |es|
  {
    if k == 0 then r else Happens(c, extract, After(c, extract, r, es, k - 1), es[k - 1])
  }

  lemma AfterNext(c: Config, extract: Extractor, r: Run, es: seq<Event>, k: nat)
    requires c.clockRate > 0 && k < |es|
    ensures After(c, extract, r, es, k + 1) == Happens(c, extract, After(c, extract, r, es, k), es[k])
  {
    hide Happens;
  }

  // What `Valid` says of a buffer without its ring.
  ghost predicate ContentsOk(b: Contents) { b.window.Numbered() && (!b.open ==> b.window.items == []) }

  lemma ValidMeans(b: JitterBuffer)
    requires b.Valid()
    ensures ContentsOk(b.ToContents())
  {
    if b.itemList != null {
      RingNumbered(b.itemList[..], b.ToWindow(), b.config.capacity);
    }
  }

  // ----- Asking once -----

  // One event: a packet that stays without its mark does not get it back.
  lemma EventKeepsMark(c: Config, extract: Extractor, r: Run, e: Event, s: nat)
    requires c.clockRate > 0 && ContentsOk(r.b)
    ensures
      var r' := Happens(c, extract, r, e);
      && ContentsOk(r'.b)
      && (InWindow(r.b.window, s) && InWindow(r'.b.window, s) && MayAsk(r'.b.window, s) ==> MayAsk(r.b.window, s))
      && (s in Asked(c, r, e) ==> MayAsk(r.b.window, s) && !MayAsk(r'.b.window, s))
  {
    hide Nacked, Dequeued, AfterArrival, TimesOf, Admitted, MayAsk, Due;
    match e
    case Consume(p, now, kind) => ConsumedKeepsMark(r.b, c, p, now, kind, s);
    case ProcessDeque(now) =>
      hide Sound;
      DequeueSound(WholeOf(r), now, extract);
      SoundIsSuffix(WholeOf(r), Dequeued(WholeOf(r), now, extract));
      DropKeepsMarks(r.b.window, Dequeued(WholeOf(r), now, extract).window.min - r.b.window.min);
    case ProcessNack(now) => SweepMarks(r.b.window, now, s);
  }

  lemma SoundIsSuffix(s0: State, s: State)
    requires Sound(s0, s)
    ensures
      && s.window.Numbered() && 0 <= s.window.min - s0.window.min <= |s0.window.items|
      && s.window.items == s0.window.items[s.window.min - s0.window.min..]
  {
  }

  lemma ConsumedKeepsMark(b: Contents, c: Config, p: Arrival, now: int, kind: Kind, s: nat)
    requires c.clockRate > 0 && ContentsOk(b)
    ensures
      var b' := Consumed(b, c, p, now, kind);
      && ContentsOk(b')
      && (InWindow(b.window, s) && InWindow(b'.window, s) && MayAsk(b'.window, s) ==> MayAsk(b.window, s))
  {
    hide AfterArrival, TimesOf, Admitted;
    if !TooOld(b, p.timestamp) {
      var o := Opened(b, c, p, now);
      var t := TimesOf(o, c, p.timestamp, now);
      ArrivalNumbered(o.window, p, t, kind);
      ArrivalKeepsMarks(o.window, p, t, kind);
      FreshWindow(p, t, kind);
    }
  }

  // A buffer opened afresh holds the packet alone.
  lemma FreshWindow(p: Arrival, t: Times, kind: Kind)
    ensures AfterArrival(Window(p.seqExt, [NewItem(p.seqExt)]), p, t, kind).min == p.seqExt
    ensures AfterArrival(Window(p.seqExt, [NewItem(p.seqExt)]), p, t, kind).Max() == p.seqExt + 1
  {
  }

  lemma {:induction false} AfterOk(c: Config, extract: Extractor, r: Run, es: seq<Event>, k: nat)
    requires c.clockRate > 0 && ContentsOk(r.b) && k <= |es|
    ensures ContentsOk(After(c, extract, r, es, k).b)
  {
    hide Happens, ContentsOk;
    if k > 0 {
      AfterOk(c, extract, r, es, k - 1);
      EventKeepsMark(c, extract, After(c, extract, r, es, k - 1), es[k - 1], 0);
    }
  }

  // Between events i and j nothing gives packet s its mark back while it is there.
  lemma {:induction false} MarkStaysOff(c: Config, extract: Extractor, r: Run, es: seq<Event>, i: nat, j: nat, s: nat)
    requires c.clockRate > 0 && ContentsOk(r.b) && i <= j <= |es|
    requires !MayAsk(After(c, extract, r, es, i).b.window, s)
    requires forall k :: i <= k <= j ==> InWindow(After(c, extract, r, es, k).b.window, s)
    ensures !MayAsk(After(c, extract, r, es, j).b.window, s)
    decreases j
  {
    hide Happens, ContentsOk, InWindow, MayAsk;
    if i < j {
      MarkStaysOff(c, extract, r, es, i, j - 1, s);
      AfterOk(c, extract, r, es, j - 1);
      EventKeepsMark(c, extract, After(c, extract, r, es, j - 1), es[j - 1], s);
    }
  }

  // Over every run, no packet is asked for twice as long as it stays in the window, whatever packets,
  // frames and reports come in between.
  lemma AskedOnce(c: Config, extract: Extractor, r: Run, es: seq<Event>, i: nat, j: nat, s: nat)
    requires c.clockRate > 0 && ContentsOk(r.b) && i < j < |es|
    requires s in Asked(c, After(c, extract, r, es, i), es[i])
    requires forall k :: i < k <= j ==> InWindow(After(c, extract, r, es, k).b.window, s)
    ensures s !in Asked(c, After(c, extract, r, es, j), es[j])
  {
    hide After, Happens, ContentsOk, InWindow, MayAsk, Asked;
    AfterNext(c, extract, r, es, i);
    AfterOk(c, extract, r, es, i);
    AfterOk(c, extract, r, es, j);
    EventKeepsMark(c, extract, After(c, extract, r, es, i), es[i], s);
    MarkStaysOff(c, extract, r, es, i + 1, j, s);
    EventKeepsMark(c, extract, After(c, extract, r, es, j), es[j], s);
  }

  // ----- Time -----

  lemma EventKeepsTime(c: Config, extract: Extractor, r: Run, e: Event)
    requires c.clockRate > 0 && ContentsOk(r.b) && TimeOrdered(r.frames, r.b.lastFrame)
    ensures
      var r' := Happens(c, extract, r, e);
      && TimeOrdered(r'.frames, r'.b.lastFrame)
      && (if StartsOver(c, r, e) then r'.frames == [] else r.frames <= r'.frames)
  {
    hide Dequeued, AfterArrival, TimesOf, Admitted;
    if e.ProcessDeque? {
      DequeueKeepsTime(r.frames, WholeOf(r), e.now, extract);
    }
  }

  // Over every run, the frames handed out since the last reset never go back in time.
  lemma {:induction false} TimeNeverGoesBack(c: Config, extract: Extractor, r: Run, es: seq<Event>, k: nat)
    requires c.clockRate > 0 && ContentsOk(r.b) && TimeOrdered(r.frames, r.b.lastFrame) && k <= |es|
    ensures
      var r' := After(c, extract, r, es, k);
      TimeOrdered(r'.frames, r'.b.lastFrame)
    decreases k
  {
    hide Happens, ContentsOk, TimeOrdered;
    if k > 0 {
      TimeNeverGoesBack(c, extract, r, es, k - 1);
      AfterOk(c, extract, r, es, k - 1);
      EventKeepsTime(c, extract, After(c, extract, r, es, k - 1), es[k - 1]);
    }
  }

  // Until a reset, frames stay in the record.
  lemma {:induction false} FramesStay(c: Config, extract: Extractor, r: Run, es: seq<Event>, i: nat, j: nat)
    requires c.clockRate > 0 && ContentsOk(r.b) && TimeOrdered(r.frames, r.b.lastFrame) && i <= j <= |es|
    requires forall k :: i <= k < j ==> !StartsOver(c, After(c, extract, r, es, k), es[k])
    ensures After(c, extract, r, es, i).frames <= After(c, extract, r, es, j).frames
    decreases j
  {
    hide Happens, ContentsOk, TimeOrdered, StartsOver;
    if i < j {
      FramesStay(c, extract, r, es, i, j - 1);
      AfterOk(c, extract, r, es, j - 1);
      TimeNeverGoesBack(c, extract, r, es, j - 1);
      EventKeepsTime(c, extract, After(c, extract, r, es, j - 1), es[j - 1]);
    }
  }

  // What an event hands out.
  function HandedOut(r: Run, e: Event, extract: Extractor): seq<Frame> {
    if e.ProcessDeque? then Dequeued(WholeOf(r), e.now, extract).frames else []
  }

  // Between two resets no call hands out a frame older than any handed out by the calls before it,
  // whatever packets and reports come in between.
  lemma FramesInOrder(c: Config, extract: Extractor, r: Run, es: seq<Event>, i: nat, j: nat, f: Frame, g: Frame)
    requires c.clockRate > 0 && ContentsOk(r.b) && TimeOrdered(r.frames, r.b.lastFrame) && i < j < |es|
    requires forall k :: i < k < j ==> !StartsOver(c, After(c, extract, r, es, k), es[k])
    requires f in HandedOut(After(c, extract, r, es, i), es[i], extract)
    requires g in HandedOut(After(c, extract, r, es, j), es[j], extract)
    ensures f.timestamp <= g.timestamp
  {
    hide After, StartsOver, Dequeued, ContentsOk, TimeOrdered;
    AfterNext(c, extract, r, es, i);
    AfterNext(c, extract, r, es, j);
    FramesStay(c, extract, r, es, i + 1, j);
    TimeNeverGoesBack(c, extract, r, es, j + 1);
    var before, after := After(c, extract, r, es, j), After(c, extract, r, es, j + 1);
    assert f in After(c, extract, r, es, i + 1).frames;
    OrderedAcross(before.frames, HandedOut(before, es[j], extract), after.b.lastFrame, f, g);
  }

  lemma OrderedAcross(a: seq<Frame>, b: seq<Frame>, last: Option<nat>, f: Frame, g: Frame)
    requires TimeOrdered(a + b, last) && f in a && g in b
    ensures f.timestamp <= g.timestamp
  {
    var i :| 0 <= i < |a| && a[i] == f;
    var j :| 0 <= j < |b| && b[j] == g;
    assert (a + b)[i] == f && (a + b)[|a| + j] == g;
  }
}
