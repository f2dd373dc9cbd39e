// Ordered messages over the unreliable network: what the receiving application sees
// (src/sctp/sctp_session.cpp, src/sctp/data_channel_receive_buffer.cpp).
module SctpDelivery {
  import opened Wire
  import opened SctpSerial
  import opened SctpAcks
  import opened SctpSender
  import opened SctpNetwork
  import opened SctpReassembly

  // Which stream a chunk belongs to, which message of the stream it carries a fragment of, and which one.
  datatype Label = Label(sid: uint16, k: nat, j: nat)

  type Labels = nat -> Label

  // What a stream sends next after the first n chunks of the association: message k, from fragment j on.
  datatype Cursor = Cursor(k: nat, j: nat)

  function CursorAt(labels: Labels, sid: uint16, msgs: seq<Message>, n: nat): Cursor {
    if n == 0 then Cursor(0, 0)
    else
      var c := CursorAt(labels, sid, msgs, n - 1);
      if labels(n - 1).sid != sid then c
      else if c.k < |msgs| && c.j + 1 < FragmentCount(|msgs[c.k].data|) then Cursor(c.k, c.j + 1)
      else Cursor(c.k + 1, 0)
  }

  // Chunk i carries what its label says.
  ghost predicate Carries(d: Data, l: Label, start: uint16, msgs: seq<Message>) {
    && l.k < |msgs| && l.j < FragmentCount(|msgs[l.k].data|)
    && Fragment(d.ssn, d.flags, d.ppid, d.payload) == FragmentAt(msgs[l.k], SsnAt(start, l.k), false, l.j)
  }

  // The stream's messages are sent one after the other, each fragment by fragment; chunks of other streams
  // may come anywhere between them.
  ghost predicate Sent(log: seq<Data>, labels: Labels, sid: uint16, start: uint16, msgs: seq<Message>) {
    forall i :: 0 <= i < |log| && labels(i).sid == sid ==>
      Carries(log[i], labels(i), start, msgs) && CursorAt(labels, sid, msgs, i) == Cursor(labels(i).k, labels(i).j)
  }

  // Every chunk, when it was taken, was less than 2^15 places after the first one still missing.
  ghost predicate Near(before: seq<nat>, i: nat) { exists c: nat :: Complete(before, c) && i < c + 0x8000 }

  ghost predicate Complete(before: seq<nat>, c: nat) { forall k: nat :: k < c ==> k in before }

  ghost predicate AllNear(taken: seq<nat>) { forall n :: 0 <= n < |taken| ==> Near(taken[..n], taken[n]) }

  ghost predicate StepNear(w: World, step: Step) { step.DataArrives? ==> step.i < w.count + 0x8000 }

  lemma StepKeepsNear(w: World, initial: uint32, step: Step)
    requires Once(w, initial) && AllNear(w.taken) && Enabled(w, step) && StepNear(w, step)
    ensures AllNear(Perform(w, initial, step).taken)
  {
    hide Once, AfterSack, AfterSend, Take, TakenCount, MoreAfter, SackOf, Duplicate, Near;
    if step.DataArrives? && !Duplicate(w.r, w.log[step.i].tsn) {
      var taken := w.taken + [step.i];
      NearNow(w, initial, step.i);
      forall n | 0 <= n < |taken| ensures Near(taken[..n], taken[n]) {
        if n < |w.taken| {
          assert taken[..n] == w.taken[..n];
        } else {
          assert taken[..n] == w.taken;
        }
      }
    }
  }

  lemma NearNow(w: World, initial: uint32, i: nat)
    requires Once(w, initial) && i < w.count + 0x8000
    ensures Near(w.taken, i)
  {
    hide SenderOk, Stands, ReportOk;
    forall k: nat | k < w.count ensures k in w.taken {
      assert Arrived(w.count, w.more, k);
    }
    assert Complete(w.taken, w.count);
  }

  predicate SameMessage(a: Label, b: Label) { a.sid == b.sid && a.k == b.k }

  // The fragments of a message before this one have been taken.
  ghost predicate InTurn(labels: Labels, before: seq<nat>, i: nat) {
    forall h: nat :: h < i && SameMessage(labels(h), labels(i)) ==> h in before
  }

  ghost predicate AllInTurn(labels: Labels, taken: seq<nat>) {
    forall n :: 0 <= n < |taken| ==> InTurn(labels, taken[..n], taken[n])
  }

  // The network keeps the fragments of each message in order; messages may overtake each other.
  ghost predicate StepInTurn(w: World, labels: Labels, step: Step) {
    step.DataArrives? && step.i < |w.log| && !Duplicate(w.r, w.log[step.i].tsn) ==> InTurn(labels, w.taken, step.i)
  }

  lemma StepKeepsTurn(w: World, initial: uint32, labels: Labels, step: Step)
    requires AllInTurn(labels, w.taken) && Enabled(w, step) && StepInTurn(w, labels, step)
    ensures AllInTurn(labels, Perform(w, initial, step).taken)
  {
    hide AfterSack, AfterSend, Take, TakenCount, MoreAfter, SackOf, Duplicate, InTurn;
    if step.DataArrives? && !Duplicate(w.r, w.log[step.i].tsn) {
      var taken := w.taken + [step.i];
      forall n | 0 <= n < |taken| ensures InTurn(labels, taken[..n], taken[n]) {
        assert taken[..n] == if n < |w.taken| then w.taken[..n] else w.taken;
      }
    }
  }

  ghost predicate RunOrderly(w: World, initial: uint32, labels: Labels, steps: seq<Step>)
    requires RunOf(w, initial, steps)
    decreases |steps|
  {
    steps == [] ||
    (StepNear(w, steps[0]) && StepInTurn(w, labels, steps[0]) && RunOrderly(Perform(w, initial, steps[0]), initial, labels, steps[1..]))
  }

  lemma {:induction false} RunKeepsOrder(w: World, initial: uint32, labels: Labels, steps: seq<Step>)
    requires Once(w, initial) && AllNear(w.taken) && AllInTurn(labels, w.taken)
    requires RunOf(w, initial, steps) && RemembersAll(w, initial, steps) && RunOrderly(w, initial, labels, steps)
    ensures Once(After(w, initial, steps), initial)
    ensures AllNear(After(w, initial, steps).taken) && AllInTurn(labels, After(w, initial, steps).taken)
    decreases |steps|
  {
    hide Once, Perform, Enabled, Remembers, AllNear, StepNear, AllInTurn, StepInTurn;
    if steps != [] {
      StepOnce(w, initial, steps[0]);
      StepKeepsNear(w, initial, steps[0]);
      StepKeepsTurn(w, initial, labels, steps[0]);
      RunKeepsOrder(Perform(w, initial, steps[0]), initial, labels, steps[1..]);
    }
  }

  // ----- Where the chunks of a stream are -----

  predicate Reached(c: Cursor, k: nat, j: nat) { k < c.k || (k == c.k && j < c.j) }

  // A stream never has more messages behind it than there are chunks.
  lemma {:induction false} CursorMoves(labels: Labels, sid: uint16, msgs: seq<Message>, m: nat, n: nat)
    requires m <= n
    ensures
      var a, b := CursorAt(labels, sid, msgs, m), CursorAt(labels, sid, msgs, n);
      a.k <= b.k <= a.k + (n - m) && (a.k == b.k ==> a.j <= b.j)
    decreases n
  {
    hide FragmentCount;
    if m < n {
      CursorMoves(labels, sid, msgs, m, n - 1);
    }
  }

  lemma {:induction false} CursorBound(log: seq<Data>, labels: Labels, sid: uint16, start: uint16, msgs: seq<Message>, n: nat)
    requires Sent(log, labels, sid, start, msgs) && n <= |log|
    ensures CursorAt(labels, sid, msgs, n).k <= |msgs|
    decreases n
  {
    hide FragmentCount, FragmentAt;
    if n > 0 {
      CursorBound(log, labels, sid, start, msgs, n - 1);
    }
  }

  // Every fragment before the cursor has been sent, in one chunk.
  lemma {:induction false} SentBefore(log: seq<Data>, labels: Labels, sid: uint16, start: uint16, msgs: seq<Message>,
                                      n: nat, k: nat, j: nat) returns (i: nat)
    requires Sent(log, labels, sid, start, msgs) && n <= |log| && k < |msgs| && j < FragmentCount(|msgs[k].data|)
    requires Reached(CursorAt(labels, sid, msgs, n), k, j)
    ensures i < n && labels(i) == Label(sid, k, j)
    decreases n
  {
    hide FragmentCount, Carries;
    var before := CursorAt(labels, sid, msgs, n - 1);
    if Reached(before, k, j) {
      i := SentBefore(log, labels, sid, start, msgs, n - 1, k, j);
    } else {
      i := n - 1;
    }
  }

  lemma SentOnce(log: seq<Data>, labels: Labels, sid: uint16, start: uint16, msgs: seq<Message>, h: nat, i: nat)
    requires Sent(log, labels, sid, start, msgs) && h < i < |log| && labels(h).sid == labels(i).sid == sid
    ensures Reached(CursorAt(labels, sid, msgs, i), labels(h).k, labels(h).j) && labels(h) != labels(i)
  {
    hide FragmentCount, Sent, CursorAt;
    CursorOf(log, labels, sid, start, msgs, h);
    CursorOf(log, labels, sid, start, msgs, i);
    CursorPasses(labels, sid, msgs, h);
    CursorMoves(labels, sid, msgs, h + 1, i);
  }

  lemma CursorPasses(labels: Labels, sid: uint16, msgs: seq<Message>, h: nat)
    requires labels(h).sid == sid
    ensures
      var a, b := CursorAt(labels, sid, msgs, h), CursorAt(labels, sid, msgs, h + 1);
      Reached(b, a.k, a.j)
  {
    hide FragmentCount;
  }

  // ----- From taken chunks to delivered messages -----

  // What the stream's buffer sees of the chunks taken from number n on.
  ghost function EventsFrom(labels: Labels, sid: uint16, taken: seq<nat>, n: nat): seq<Event>
    requires n <= |taken|
    decreases |taken| - n
  {
    if n == |taken| then []
    else
      (if labels(taken[n]).sid == sid then [Arrives(labels(taken[n]).k)] else []) + EventsFrom(labels, sid, taken, n + 1)
  }

  // How many fragments of each message of the stream have been taken.
  ghost function Got(labels: Labels, sid: uint16, m: nat, taken: seq<nat>, n: nat): (got: seq<nat>)
    requires n <= |taken|
    ensures |got| == m
  {
    if n == 0 then Repeat<nat>(0, m)
    else
      var before, l := Got(labels, sid, m, taken, n - 1), labels(taken[n - 1]);
      if l.sid == sid && l.k < m then before[l.k := before[l.k] + 1] else before
  }

  ghost predicate Has(labels: Labels, sid: uint16, taken: seq<nat>, n: nat, k: nat, j: nat)
    requires n <= |taken|
  {
    exists h :: 0 <= h < n && labels(taken[h]) == Label(sid, k, j)
  }

  // The chunks taken, their order and what the stream sends.
  ghost predicate Orderly(log: seq<Data>, labels: Labels, sid: uint16, start: uint16, msgs: seq<Message>, taken: seq<nat>) {
    && Sent(log, labels, sid, start, msgs) && Distinct(taken) && AllNear(taken) && AllInTurn(labels, taken)
    && forall i :: i in taken ==> i < |log|
  }

  // The fragments of a message that have been taken are its first ones.
  lemma {:induction false} GotIs(log: seq<Data>, labels: Labels, sid: uint16, start: uint16, msgs: seq<Message>,
                                 taken: seq<nat>, n: nat, k: nat, j: nat)
    requires Orderly(log, labels, sid, start, msgs, taken) && n <= |taken| && k < |msgs|
    ensures Has(labels, sid, taken, n, k, j) <==> j < Got(labels, sid, |msgs|, taken, n)[k]
    ensures Got(labels, sid, |msgs|, taken, n)[k] <= FragmentCount(|msgs[k].data|)
    decreases n, 0
  {
    hide FragmentCount, Sent, AllNear, AllInTurn, Distinct, Orderly, Has;
    if n == 0 {
      RepeatAt<nat>(0, |msgs|);
      HasNone(labels, sid, taken, k, j);
    } else {
      var l := labels(taken[n - 1]);
      GotIs(log, labels, sid, start, msgs, taken, n - 1, k, j);
      HasNext(labels, sid, taken, n, k, j);
      if l.sid == sid && l.k == k {
        TurnIs(log, labels, sid, start, msgs, taken, n - 1);
      }
    }
  }

  lemma HasNone(labels: Labels, sid: uint16, taken: seq<nat>, k: nat, j: nat)
    ensures !Has(labels, sid, taken, 0, k, j)
  {
  }

  lemma HasNext(labels: Labels, sid: uint16, taken: seq<nat>, n: nat, k: nat, j: nat)
    requires 0 < n <= |taken|
    ensures Has(labels, sid, taken, n, k, j) <==> Has(labels, sid, taken, n - 1, k, j) || labels(taken[n - 1]) == Label(sid, k, j)
  {
  }

  // The next chunk taken of a message is the next fragment.
  lemma {:induction false} TurnIs(log: seq<Data>, labels: Labels, sid: uint16, start: uint16, msgs: seq<Message>,
                                  taken: seq<nat>, n: nat)
    requires Orderly(log, labels, sid, start, msgs, taken) && n < |taken| && labels(taken[n]).sid == sid
    ensures
      var l := labels(taken[n]);
      l.k < |msgs| && l.j < FragmentCount(|msgs[l.k].data|) && Got(labels, sid, |msgs|, taken, n)[l.k] == l.j
    decreases n, 1
  {
    hide FragmentCount, Has, Got;
    var i, l := taken[n], labels(taken[n]);
    LabelOk(log, labels, sid, start, msgs, taken, n);
    var g := Got(labels, sid, |msgs|, taken, n)[l.k];
    if g < l.j {
      var h := SentBefore(log, labels, sid, start, msgs, i, l.k, g);
      InTurnTaken(labels, taken, n, h);
      GotIs(log, labels, sid, start, msgs, taken, n, l.k, g);
    } else if g > l.j {
      GotIs(log, labels, sid, start, msgs, taken, n, l.k, l.j);
      NotTwice(log, labels, sid, start, msgs, taken, n);
    }
  }

  lemma LabelOk(log: seq<Data>, labels: Labels, sid: uint16, start: uint16, msgs: seq<Message>, taken: seq<nat>, n: nat)
    requires Orderly(log, labels, sid, start, msgs, taken) && n < |taken| && labels(taken[n]).sid == sid
    ensures
      var i, l := taken[n], labels(taken[n]);
      && i < |log| && Carries(log[i], l, start, msgs) && l.k < |msgs| && l.j < FragmentCount(|msgs[l.k].data|)
      && CursorAt(labels, sid, msgs, i) == Cursor(l.k, l.j)
  {
    hide FragmentCount, AllNear, AllInTurn, Distinct;
    assert taken[n] in taken;
  }

  lemma InTurnTaken(labels: Labels, taken: seq<nat>, n: nat, h: nat)
    requires AllInTurn(labels, taken) && n < |taken| && h < taken[n] && SameMessage(labels(h), labels(taken[n]))
    ensures Has(labels, labels(h).sid, taken, n, labels(h).k, labels(h).j)
  {
    assert InTurn(labels, taken[..n], taken[n]);
    assert h in taken[..n];
  }

  lemma NotTwice(log: seq<Data>, labels: Labels, sid: uint16, start: uint16, msgs: seq<Message>, taken: seq<nat>, n: nat)
    requires Orderly(log, labels, sid, start, msgs, taken) && n < |taken| && labels(taken[n]).sid == sid
    ensures !Has(labels, sid, taken, n, labels(taken[n]).k, labels(taken[n]).j)
  {
    hide FragmentCount, AllNear, AllInTurn, Sent;
    forall h | 0 <= h < n ensures labels(taken[h]) != labels(taken[n]) {
      assert taken[h] in taken && taken[n] in taken;
      if labels(taken[h]).sid == sid {
        if taken[h] < taken[n] {
          SentOnce(log, labels, sid, start, msgs, taken[h], taken[n]);
        } else {
          SentOnce(log, labels, sid, start, msgs, taken[n], taken[h]);
        }
      }
    }
  }

  // A message of the stream is at most as far ahead of the first one not whole as its chunk is ahead of
  // the first one missing.
  lemma WithinReach(log: seq<Data>, labels: Labels, sid: uint16, start: uint16, msgs: seq<Message>, taken: seq<nat>, n: nat)
    requires Orderly(log, labels, sid, start, msgs, taken) && n < |taken| && labels(taken[n]).sid == sid
    ensures labels(taken[n]).k < Ready(msgs, Got(labels, sid, |msgs|, taken, n), 0) + 0x8000
  {
    hide FragmentCount, Has, Got, Sent, Distinct, AllInTurn;
    var i, l, got := taken[n], labels(taken[n]), Got(labels, sid, |msgs|, taken, n);
    LabelOk(log, labels, sid, start, msgs, taken, n);
    var d := Ready(msgs, got, 0);
    if l.k > d {
      ReadyStops(msgs, got, 0);
      GotIs(log, labels, sid, start, msgs, taken, n, d, got[d]);
      var h := SentBefore(log, labels, sid, start, msgs, i, d, got[d]);
      CursorOf(log, labels, sid, start, msgs, h);
      CursorMoves(labels, sid, msgs, h, i);
      assert Near(taken[..n], taken[n]);
      var c: nat :| Complete(taken[..n], c) && i < c + 0x8000;
      if h < c {
        TakenHas(labels, sid, taken, n, h);
      }
    }
  }

  lemma CursorOf(log: seq<Data>, labels: Labels, sid: uint16, start: uint16, msgs: seq<Message>, h: nat)
    requires Sent(log, labels, sid, start, msgs) && h < |log| && labels(h).sid == sid
    ensures CursorAt(labels, sid, msgs, h) == Cursor(labels(h).k, labels(h).j)
  {
  }

  lemma TakenHas(labels: Labels, sid: uint16, taken: seq<nat>, n: nat, h: nat)
    requires n <= |taken| && h in taken[..n] && labels(h).sid == sid
    ensures Has(labels, sid, taken, n, labels(h).k, labels(h).j)
  {
  }

  lemma {:induction false} ReadyStops(msgs: seq<Message>, got: seq<nat>, d: nat)
    requires d <= |msgs| == |got|
    ensures Ready(msgs, got, d) < |msgs| ==> !Whole(msgs, got, Ready(msgs, got, d))
    decreases |msgs| - d
  {
    if d < |msgs| && Whole(msgs, got, d) {
      ReadyStops(msgs, got, d + 1);
    }
  }

  lemma {:induction false} ReadyAtLeast(msgs: seq<Message>, got: seq<nat>, d: nat, c: nat)
    requires d <= c <= |msgs| == |got| && forall k :: d <= k < c ==> Whole(msgs, got, k)
    ensures Ready(msgs, got, d) >= c
    decreases c - d
  {
    if d < c {
      ReadyAtLeast(msgs, got, d + 1, c);
    }
  }

  lemma NextEventOk(log: seq<Data>, labels: Labels, sid: uint16, start: uint16, msgs: seq<Message>, taken: seq<nat>, n: nat)
    requires Orderly(log, labels, sid, start, msgs, taken) && n < |taken| && labels(taken[n]).sid == sid
    ensures
      var got, e := Got(labels, sid, |msgs|, taken, n), Arrives(labels(taken[n]).k);
      EventOk(start, msgs, got, e) && Counted(got, e) == Got(labels, sid, |msgs|, taken, n + 1)
  {
    hide Orderly, FragmentCount, Ready;
    TurnIs(log, labels, sid, start, msgs, taken, n);
    WithinReach(log, labels, sid, start, msgs, taken, n);
  }

  lemma {:induction false} EventsRun(log: seq<Data>, labels: Labels, sid: uint16, start: uint16, msgs: seq<Message>,
                                     taken: seq<nat>, n: nat)
    requires Orderly(log, labels, sid, start, msgs, taken) && n <= |taken|
    ensures
      var got, events := Got(labels, sid, |msgs|, taken, n), EventsFrom(labels, sid, taken, n);
      RunOk(start, msgs, got, events) && CountAll(start, msgs, got, events) == Got(labels, sid, |msgs|, taken, |taken|)
    decreases |taken| - n
  {
    hide Orderly, EventOk, Counted;
    if n < |taken| {
      EventsRun(log, labels, sid, start, msgs, taken, n + 1);
      var rest := EventsFrom(labels, sid, taken, n + 1);
      if labels(taken[n]).sid == sid {
        NextEventOk(log, labels, sid, start, msgs, taken, n);
        assert ([Arrives(labels(taken[n]).k)] + rest)[1..] == rest;
      } else {
        assert [] + rest == rest;
      }
    }
  }

  function FragmentOf(d: Data): Fragment { Fragment(d.ssn, d.flags, d.ppid, d.payload) }

  // What a stream's buffer outputs for the chunks taken from number n on.
  ghost function Delivered(b: Buffer, log: seq<Data>, labels: Labels, sid: uint16, taken: seq<nat>, n: nat): seq<Message>
    requires n <= |taken| && forall i :: i in taken ==> i < |log|
    decreases |taken| - n
  {
    if n == |taken| then []
    else if labels(taken[n]).sid != sid then Delivered(b, log, labels, sid, taken, n + 1)
    else
      assert taken[n] in taken;
      var step := Accept(b, FragmentOf(log[taken[n]]), false);
      step.1 + Delivered(step.0, log, labels, sid, taken, n + 1)
  }

  // The chunk taken is the next fragment of its message.
  lemma ChunkIs(log: seq<Data>, labels: Labels, sid: uint16, start: uint16, msgs: seq<Message>, taken: seq<nat>, n: nat)
    requires Orderly(log, labels, sid, start, msgs, taken) && n < |taken| && labels(taken[n]).sid == sid
    ensures taken[n] < |log|
    ensures
      var got, k := Got(labels, sid, |msgs|, taken, n), labels(taken[n]).k;
      && k < |msgs| && got[k] < FragmentCount(|msgs[k].data|)
      && Chunk(start, msgs, got, Arrives(k)) == FragmentOf(log[taken[n]])
  {
    hide Orderly, FragmentCount, FragmentAt, Got, SsnAt;
    LabelOk(log, labels, sid, start, msgs, taken, n);
    TurnIs(log, labels, sid, start, msgs, taken, n);
  }

  lemma {:induction false} DeliveredIs(b: Buffer, log: seq<Data>, labels: Labels, sid: uint16, start: uint16,
                                       msgs: seq<Message>, taken: seq<nat>, n: nat)
    requires Orderly(log, labels, sid, start, msgs, taken) && n <= |taken|
    ensures
      var got, events := Got(labels, sid, |msgs|, taken, n), EventsFrom(labels, sid, taken, n);
      && RunOk(start, msgs, got, events) && (forall i :: i in taken ==> i < |log|)
      && Delivered(b, log, labels, sid, taken, n) == Outputs(b, start, msgs, got, events)
    decreases |taken| - n
  {
    hide Accept, EventOk, Counted, Sent, AllNear, AllInTurn, Chunk, FragmentOf;
    EventsRun(log, labels, sid, start, msgs, taken, n);
    if n < |taken| {
      var rest := EventsFrom(labels, sid, taken, n + 1);
      if labels(taken[n]).sid == sid {
        NextEventOk(log, labels, sid, start, msgs, taken, n);
        ChunkIs(log, labels, sid, start, msgs, taken, n);
        assert taken[n] in taken;
        DeliveredIs(Accept(b, FragmentOf(log[taken[n]]), false).0, log, labels, sid, start, msgs, taken, n + 1);
        assert ([Arrives(labels(taken[n]).k)] + rest)[1..] == rest;
      } else {
        DeliveredIs(b, log, labels, sid, start, msgs, taken, n + 1);
        assert [] + rest == rest;
      }
    }
  }

  lemma OnceOrderly(w: World, initial: uint32, labels: Labels, sid: uint16, start: uint16, msgs: seq<Message>)
    requires Once(w, initial) && AllNear(w.taken) && AllInTurn(labels, w.taken) && Sent(w.log, labels, sid, start, msgs)
    ensures Orderly(w.log, labels, sid, start, msgs, w.taken)
  {
    hide AllNear, AllInTurn, Sent, SenderOk, Stands, ReportOk, Distinct;
  }

  // The messages all of whose chunks are among the first `count` have arrived whole.
  lemma CountIsReady(w: World, initial: uint32, labels: Labels, sid: uint16, start: uint16, msgs: seq<Message>, c: nat)
    requires Once(w, initial) && Orderly(w.log, labels, sid, start, msgs, w.taken)
    requires c <= |msgs| && c <= CursorAt(labels, sid, msgs, w.count).k && w.count <= |w.log|
    ensures Ready(msgs, Got(labels, sid, |msgs|, w.taken, |w.taken|), 0) >= c
  {
    hide SenderOk, Stands, ReportOk, Orderly, Got, FragmentCount, Has, Distinct;
    var all, got := |w.taken|, Got(labels, sid, |msgs|, w.taken, |w.taken|);
    forall k | 0 <= k < c ensures Whole(msgs, got, k) {
      var j := FragmentCount(|msgs[k].data|) - 1;
      OrderlySent(w.log, labels, sid, start, msgs, w.taken);
      var h := SentBefore(w.log, labels, sid, start, msgs, w.count, k, j);
      assert Arrived(w.count, w.more, h);
      assert w.taken[..all] == w.taken;
      TakenHas(labels, sid, w.taken, all, h);
      GotIs(w.log, labels, sid, start, msgs, w.taken, all, k, j);
    }
    ReadyAtLeast(msgs, got, 0, c);
  }

  lemma OrderlySent(log: seq<Data>, labels: Labels, sid: uint16, start: uint16, msgs: seq<Message>, taken: seq<nat>)
    requires Orderly(log, labels, sid, start, msgs, taken)
    ensures Sent(log, labels, sid, start, msgs)
  {
  }

  lemma CountBound(w: World, initial: uint32)
    requires Once(w, initial)
    ensures w.count <= |w.log|
  {
    hide SenderOk, Stands, ReportOk;
    assert !Arrived(w.count, w.more, |w.log|);
  }

  // End to end, for every ordered stream of an association that carries many, and for messages of any
  // number of fragments: whatever the network loses or repeats, and however it mixes messages and streams,
  // as long as it keeps the fragments of each message in order, the application has received exactly the
  // messages of the stream that have come whole with all the ones before them, in order, each once. Among
  // them are all those that lie within the first `count` chunks.
  lemma StreamDelivered(w: World, initial: uint32, labels: Labels, sid: uint16, start: uint16, msgs: seq<Message>)
    requires Once(w, initial) && AllNear(w.taken) && AllInTurn(labels, w.taken) && Sent(w.log, labels, sid, start, msgs)
    ensures w.count <= |w.log| && forall i :: i in w.taken ==> i < |w.log|
    ensures
      var r := Ready(msgs, Got(labels, sid, |msgs|, w.taken, |w.taken|), 0);
      && Delivered(Buffer(start, map[]), w.log, labels, sid, w.taken, 0) == msgs[..r]
      && CursorAt(labels, sid, msgs, w.count).k <= r
  {
    hide Orderly, RunOk, CountAll, Outputs, Once, Got, Sent, AllNear, AllInTurn, CursorAt;
    OnceOrderly(w, initial, labels, sid, start, msgs);
    GotNone(labels, sid, |msgs|, w.taken);
    EventsRun(w.log, labels, sid, start, msgs, w.taken, 0);
    OrderedDelivery(start, msgs, EventsFrom(labels, sid, w.taken, 0));
    DeliveredIs(Buffer(start, map[]), w.log, labels, sid, start, msgs, w.taken, 0);
    CountBound(w, initial);
    CursorBound(w.log, labels, sid, start, msgs, w.count);
    CountIsReady(w, initial, labels, sid, start, msgs, CursorAt(labels, sid, msgs, w.count).k);
  }

  // The same over every run from the handshake on.
  lemma EveryRunDelivers(w: World, initial: uint32, steps: seq<Step>, labels: Labels, sid: uint16, start: uint16,
                         msgs: seq<Message>)
    requires InitialWorld(w, initial) && RunOf(w, initial, steps) && RemembersAll(w, initial, steps)
    requires RunOrderly(w, initial, labels, steps) && Sent(After(w, initial, steps).log, labels, sid, start, msgs)
    ensures
      var w' := After(w, initial, steps);
      && (forall i :: i in w'.taken ==> i < |w'.log|)
      && Delivered(Buffer(start, map[]), w'.log, labels, sid, w'.taken, 0)
         == msgs[..Ready(msgs, Got(labels, sid, |msgs|, w'.taken, |w'.taken|), 0)]
  {
    hide RunOf, After, RemembersAll, RunOrderly, Sent, Delivered, Got, Ready;
    RunKeepsOrder(w, initial, labels, steps);
    StreamDelivered(After(w, initial, steps), initial, labels, sid, start, msgs);
  }

  lemma GotNone(labels: Labels, sid: uint16, m: nat, taken: seq<nat>)
    ensures Got(labels, sid, m, taken, 0) == Repeat<nat>(0, m)
  {
  }
}
