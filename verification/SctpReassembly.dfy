// Splitting messages into DATA chunks and putting them together again, in stream order
// (src/sctp/sctp_session.cpp, src/sctp/data_channel_receive_buffer.cpp; RFC 4960 section 6.9).
module SctpReassembly {
  import opened Wire

  const FLAG_E: uint8 := 1
  const FLAG_B: uint8 := 2
  const FLAG_COMPLETE: uint8 := 3
  const FLAG_UNORDERED: uint8 := 4
  const MAX_FRAGMENT := 1100

  datatype Message = Message(ppid: uint32, data: bytes)

  predicate IsFirst(flags: uint8) { flags / 2 % 2 == 1 }

  predicate IsLast(flags: uint8) { flags % 2 == 1 }

  // ----- The receive buffer -----

  datatype Pending = Pending(ppid: uint32, payload: bytes, complete: bool)

  datatype Buffer = Buffer(nextSsn: uint16, pending: map<uint16, Pending>)

  const FRESH := Pending(0, [], false)

  function Ahead(a: uint16, b: uint16): nat { (a - b) % 0x1_0000 }

  // static_cast<int16_t>(a - b) < 0
  predicate Before(a: uint16, b: uint16) { Ahead(a, b) >= 0x8000 }

  // A first fragment restarts the payload, but not the completion flag.
  function Accumulate(p: Pending, flags: uint8, ppid: uint32, data: bytes): Pending {
    var q := if IsFirst(flags) then p.(ppid := ppid, payload := []) else p;
    q.(payload := q.payload + data, complete := q.complete || IsLast(flags))
  }

  predicate Deliverable(b: Buffer) { b.nextSsn in b.pending && b.pending[b.nextSsn].complete }

  function Pop(b: Buffer): Buffer { Buffer((b.nextSsn + 1) % 0x1_0000, b.pending - {b.nextSsn}) }

  function Drain(b: Buffer): (Buffer, seq<Message>)
    decreases |b.pending|
  {
    if !Deliverable(b) then (b, [])
    else
      var p := b.pending[b.nextSsn];
      PopShrinks(b);
      var rest := Drain(Pop(b));
      (rest.0, [Message(p.ppid, p.payload)] + rest.1)
  }

  lemma PopShrinks(b: Buffer)
    requires b.nextSsn in b.pending
    ensures |Pop(b).pending| < |b.pending|
  {
    var m := b.pending - {b.nextSsn};
    assert m.Keys == b.pending.Keys - {b.nextSsn};
    assert |m| == |m.Keys| && |b.pending| == |b.pending.Keys|;
  }

  datatype Fragment = Fragment(ssn: uint16, flags: uint8, ppid: uint32, data: bytes)

  function Entry(b: Buffer, f: Fragment): Pending {
    Accumulate(if f.ssn in b.pending then b.pending[f.ssn] else FRESH, f.flags, f.ppid, f.data)
  }

  function Accept(b: Buffer, f: Fragment, unordered: bool): (Buffer, seq<Message>) {
    if unordered then
      var p := Entry(b, f);
      if p.complete then (b.(pending := b.pending[f.ssn := p] - {f.ssn}), [Message(p.ppid, p.payload)])
      else (b.(pending := b.pending[f.ssn := p]), [])
    else if Before(f.ssn, b.nextSsn) then (b, [])
    else Drain(b.(pending := b.pending[f.ssn := Entry(b, f)]))
  }

  // A control message takes a stream sequence number without delivering anything.
  function Consume(b: Buffer, ssn: uint16): Buffer {
    if ssn == b.nextSsn then b.(nextSsn := (b.nextSsn + 1) % 0x1_0000) else b
  }

  class DataChannelReceiveBuffer {
    var nextSsn: uint16
    var pending: map<uint16, Pending>

    function Abs(): Buffer reads this { Buffer(nextSsn, pending) }

    constructor ()
      ensures Abs() == Buffer(0, map[])
    {
      nextSsn, pending := 0, map[];
    }

    method ConsumeSsn(ssn: uint16)
      modifies this
      ensures Abs() == Consume(old(Abs()), ssn)
    {
      if ssn == nextSsn {
        nextSsn := (nextSsn + 1) % 0x1_0000;
      }
    }

    method Receive(ssn: uint16, flags: uint8, unordered: bool, ppid: uint32, data: bytes) returns (out: seq<Message>)
      modifies this
      ensures (Abs(), out) == Accept(old(Abs()), Fragment(ssn, flags, ppid, data), unordered)
    {
      hide Drain;
      out := [];
      if !unordered && (ssn - nextSsn) % 0x1_0000 >= 0x8000 {
        return;
      }
      var entry := if ssn in pending then pending[ssn] else FRESH;
      if flags / 2 % 2 == 1 {
        entry := entry.(ppid := ppid, payload := []);
      }
      entry := entry.(payload := entry.payload + data);
      if flags % 2 == 1 {
        entry := entry.(complete := true);
      }
      pending := pending[ssn := entry];
      if unordered {
        if entry.complete {
          out := [Message(entry.ppid, entry.payload)];
          pending := pending - {ssn};
        }
        return;
      }
      out := DrainConsecutive();
    }

    method DrainConsecutive() returns (out: seq<Message>)
      modifies this
      ensures (Abs(), out) == Drain(old(Abs()))
    {
      hide Drain;
      ghost var b := Abs();
      out := [];
      DrainOne(b, out);
      while true
        invariant Drain(b).0 == Drain(Abs()).0 && Drain(b).1 == out + Drain(Abs()).1
        decreases |pending|
      {
        DrainOne(Abs(), out);
        if nextSsn !in pending || !pending[nextSsn].complete {
          break;
        }
        PopShrinks(Abs());
        out := out + [Message(pending[nextSsn].ppid, pending[nextSsn].payload)];
        pending := pending - {nextSsn};
        nextSsn := (nextSsn + 1) % 0x1_0000;
      }
    }
  }

  lemma DrainOne(b: Buffer, out: seq<Message>)
    ensures !Deliverable(b) ==> Drain(b).0 == b && out + Drain(b).1 == out
    ensures Deliverable(b) ==>
              && Drain(b).0 == Drain(Pop(b)).0
              && out + Drain(b).1
                 == out + [Message(b.pending[b.nextSsn].ppid, b.pending[b.nextSsn].payload)] + Drain(Pop(b)).1
    ensures out == [] ==> out + Drain(b).1 == Drain(b).1
  {
  }

  // ----- Fragments of a message -----

  function FragmentCount(size: nat): (n: nat)
    ensures n >= 1
  {
    if size <= MAX_FRAGMENT then 1 else (size + MAX_FRAGMENT - 1) / MAX_FRAGMENT
  }

  // Where fragment j starts.
  function Cut(size: nat, j: nat): (c: nat)
    requires j <= FragmentCount(size)
    ensures c <= size && (j == FragmentCount(size) ==> c == size)
  {
    if j * MAX_FRAGMENT < size then j * MAX_FRAGMENT else size
  }

  function FlagsAt(size: nat, j: nat, unordered: bool): uint8
    requires j < FragmentCount(size)
  {
    (if j == 0 then FLAG_B as int else 0) + (if j == FragmentCount(size) - 1 then FLAG_E as int else 0)
    + (if unordered then FLAG_UNORDERED as int else 0)
  }

  lemma CutsGrow(size: nat, j: nat)
    requires j < FragmentCount(size)
    ensures Cut(size, j) <= Cut(size, j + 1) <= Cut(size, j) + MAX_FRAGMENT
  {
  }

  function FragmentAt(m: Message, ssn: uint16, unordered: bool, j: nat): Fragment
    requires j < FragmentCount(|m.data|)
  {
    CutsGrow(|m.data|, j);
    Fragment(ssn, FlagsAt(|m.data|, j, unordered), m.ppid, m.data[Cut(|m.data|, j)..Cut(|m.data|, j + 1)])
  }

  // What is pending after the first `n` fragments.
  function Partial(m: Message, n: nat): Pending
    requires 0 < n <= FragmentCount(|m.data|)
  {
    Pending(m.ppid, m.data[..Cut(|m.data|, n)], n == FragmentCount(|m.data|))
  }

  lemma FlagsMean(size: nat, j: nat, unordered: bool)
    requires j < FragmentCount(size)
    ensures IsFirst(FlagsAt(size, j, unordered)) == (j == 0)
    ensures IsLast(FlagsAt(size, j, unordered)) == (j == FragmentCount(size) - 1)
  {
  }

  // Fragments accumulate in order to the message itself.
  lemma NextFragment(m: Message, ssn: uint16, unordered: bool, j: nat, p: Pending)
    requires j < FragmentCount(|m.data|) && p == if j == 0 then FRESH else Partial(m, j)
    ensures
      var f := FragmentAt(m, ssn, unordered, j);
      Accumulate(p, f.flags, f.ppid, f.data) == Partial(m, j + 1)
  {
    hide FlagsAt, IsFirst, IsLast;
    FlagsMean(|m.data|, j, unordered);
    CutsGrow(|m.data|, j);
    var a, b := Cut(|m.data|, j), Cut(|m.data|, j + 1);
    assert m.data[..a] + m.data[a..b] == m.data[..b];
    if j == 0 {
      assert [] + m.data[a..b] == m.data[..b];
    }
  }

  // ----- Runs of an ordered stream -----

  // Message k of the stream travels under sequence number start + k, modulo 2^16.
  function SsnAt(start: uint16, k: nat): uint16 { (start + k) % 0x1_0000 }

  // `got[k]` is how many fragments of message k have arrived.
  predicate Whole(msgs: seq<Message>, got: seq<nat>, k: nat)
    requires |got| == |msgs| && k < |msgs|
  {
    got[k] == FragmentCount(|msgs[k].data|)
  }

  // The number of messages that have arrived whole with all the ones before them.
  function Ready(msgs: seq<Message>, got: seq<nat>, d: nat): (r: nat)
    requires d <= |msgs| == |got|
    ensures d <= r <= |msgs|
    decreases |msgs| - d
  {
    if d < |msgs| && Whole(msgs, got, d) then Ready(msgs, got, d + 1) else d
  }

  datatype Event =
    | Arrives(k: nat)           // the next fragment of message k
    | Repeated(f: Fragment)     // any chunk under a sequence number already delivered

  ghost predicate EventOk(start: uint16, msgs: seq<Message>, got: seq<nat>, e: Event)
    requires |got| == |msgs|
  {
    var d := Ready(msgs, got, 0);
    match e
    case Arrives(k) => k < |msgs| && k < d + 0x8000 && got[k] < FragmentCount(|msgs[k].data|)
    case Repeated(f) => Before(f.ssn, SsnAt(start, d))
  }

  function Counted(got: seq<nat>, e: Event): seq<nat>
    requires e.Arrives? ==> e.k < |got|
  {
    if e.Arrives? then got[e.k := got[e.k] + 1] else got
  }

  function Chunk(start: uint16, msgs: seq<Message>, got: seq<nat>, e: Event): Fragment
    requires e.Arrives? ==> e.k < |msgs| == |got| && got[e.k] < FragmentCount(|msgs[e.k].data|)
  {
    match e
    case Arrives(k) => FragmentAt(msgs[k], SsnAt(start, k), false, got[k])
    case Repeated(f) => f
  }

  // The buffer's contents in the middle of a run, with the first `d` messages delivered.
  ghost predicate Holds(b: Buffer, start: uint16, msgs: seq<Message>, got: seq<nat>, d: nat)
    requires d <= |msgs| == |got|
  {
    && b.nextSsn == SsnAt(start, d) && Counts(msgs, got, d)
    && (forall k :: d <= k < |msgs| && got[k] > 0 ==> Has(b, start, msgs[k], got[k], d, k))
    && (forall s :: s in b.pending ==> Started(got, d + Ahead(s, b.nextSsn)))
  }

  ghost predicate Counts(msgs: seq<Message>, got: seq<nat>, d: nat)
    requires d <= |msgs| == |got|
  {
    && (forall k :: 0 <= k < d ==> Whole(msgs, got, k))
    && (forall k :: 0 <= k < |msgs| ==> got[k] <= FragmentCount(|msgs[k].data|))
  }

  predicate Has(b: Buffer, start: uint16, m: Message, n: nat, d: nat, k: nat)
    requires 0 < n <= FragmentCount(|m.data|)
  {
    k < d + 0x8000 && SsnAt(start, k) in b.pending && b.pending[SsnAt(start, k)] == Partial(m, n)
  }

  predicate Started(got: seq<nat>, k: nat) { k < |got| && got[k] > 0 }

  lemma AheadOf(start: uint16, d: nat, k: nat)
    requires d <= k < d + 0x1_0000
    ensures Ahead(SsnAt(start, k), SsnAt(start, d)) == k - d
  {
  }

  lemma SsnApart(start: uint16, j: nat, k: nat)
    requires j < k < j + 0x1_0000
    ensures SsnAt(start, j) != SsnAt(start, k)
  {
  }

  lemma SsnNext(start: uint16, d: nat)
    ensures (SsnAt(start, d) + 1) % 0x1_0000 == SsnAt(start, d + 1)
  {
  }

  lemma AheadNext(s: uint16, n: uint16)
    requires s != n
    ensures 1 + Ahead(s, (n + 1) % 0x1_0000) == Ahead(s, n)
  {
  }

  lemma AheadSelf(n: uint16)
    ensures Ahead(n, n) == 0
  {
  }

  lemma WholeIsWhole(msgs: seq<Message>, got: seq<nat>, d: nat)
    requires d < |msgs| == |got| && Whole(msgs, got, d)
    ensures Partial(msgs[d], got[d]) == Pending(msgs[d].ppid, msgs[d].data, true)
  {
  }

  lemma DeliverableIs(b: Buffer, start: uint16, msgs: seq<Message>, got: seq<nat>, d: nat)
    requires d <= |msgs| == |got| && Holds(b, start, msgs, got, d)
    ensures Deliverable(b) <==> d < |msgs| && Whole(msgs, got, d)
    ensures Deliverable(b) ==> b.pending[b.nextSsn] == Pending(msgs[d].ppid, msgs[d].data, true)
  {
    hide Ahead, SsnAt, FragmentCount;
    AheadSelf(b.nextSsn);
    if d < |msgs| && Whole(msgs, got, d) {
      WholeIsWhole(msgs, got, d);
    }
  }

  lemma PopHolds(b: Buffer, start: uint16, msgs: seq<Message>, got: seq<nat>, d: nat)
    requires d < |msgs| == |got| && Holds(b, start, msgs, got, d) && Whole(msgs, got, d)
    ensures Holds(Pop(b), start, msgs, got, d + 1)
  {
    hide Ahead, SsnAt, FragmentCount, Partial, Whole, Started, Has;
    var b' := Pop(b);
    SsnNext(start, d);
    forall k | d + 1 <= k < |msgs| && got[k] > 0 ensures Has(b', start, msgs[k], got[k], d + 1, k) {
      HasAfterPop(b, start, msgs[k], got[k], d, k);
    }
    forall s | s in b'.pending ensures Started(got, d + 1 + Ahead(s, b'.nextSsn)) {
      AheadNext(s, b.nextSsn);
    }
  }

  lemma HasAfterPop(b: Buffer, start: uint16, m: Message, n: nat, d: nat, k: nat)
    requires b.nextSsn == SsnAt(start, d) && d < k && 0 < n <= FragmentCount(|m.data|) && Has(b, start, m, n, d, k)
    ensures Has(Pop(b), start, m, n, d + 1, k)
  {
    hide SsnAt, Partial;
    SsnApart(start, d, k);
  }

  lemma {:induction false} DrainReady(b: Buffer, start: uint16, msgs: seq<Message>, got: seq<nat>, d: nat)
    requires d <= |msgs| == |got| && Holds(b, start, msgs, got, d)
    ensures
      var r := Ready(msgs, got, d);
      Drain(b).1 == msgs[d..r] && Holds(Drain(b).0, start, msgs, got, r)
    decreases |msgs| - d
  {
    hide Holds, Whole, Pop;
    DeliverableIs(b, start, msgs, got, d);
    if d < |msgs| && Whole(msgs, got, d) {
      PopHolds(b, start, msgs, got, d);
      DrainReady(Pop(b), start, msgs, got, d + 1);
      assert [msgs[d]] + msgs[d + 1..Ready(msgs, got, d + 1)] == msgs[d..Ready(msgs, got, d + 1)];
    }
  }

  function Put(b: Buffer, f: Fragment): Buffer { b.(pending := b.pending[f.ssn := Entry(b, f)]) }

  lemma ArrivalEntry(b: Buffer, start: uint16, msgs: seq<Message>, got: seq<nat>, d: nat, k: nat)
    requires d <= |msgs| == |got| && Holds(b, start, msgs, got, d)
    requires d <= k < |msgs| && k < d + 0x8000 && got[k] < FragmentCount(|msgs[k].data|)
    ensures Has(Put(b, Chunk(start, msgs, got, Arrives(k))), start, msgs[k], got[k] + 1, d, k)
  {
    hide Ahead, SsnAt, FragmentCount, Partial, Accumulate, FragmentAt, Counts;
    var f := Chunk(start, msgs, got, Arrives(k));
    FragmentSsn(start, msgs, got, k);
    AheadOf(start, d, k);
    NextFragment(msgs[k], f.ssn, false, got[k], if got[k] == 0 then FRESH else Partial(msgs[k], got[k]));
  }

  lemma HasAfterPut(b: Buffer, f: Fragment, start: uint16, m: Message, n: nat, d: nat, i: nat, k: nat)
    requires d <= i && d <= k < d + 0x8000 && i != k && f.ssn == SsnAt(start, k)
    requires 0 < n <= FragmentCount(|m.data|) && Has(b, start, m, n, d, i)
    ensures Has(Put(b, f), start, m, n, d, i)
  {
    hide SsnAt, Partial, Accumulate, FragmentCount;
    if i < k {
      SsnApart(start, i, k);
    } else {
      SsnApart(start, k, i);
    }
  }

  lemma CountsNext(msgs: seq<Message>, got: seq<nat>, d: nat, k: nat)
    requires d <= k < |msgs| == |got| && got[k] < FragmentCount(|msgs[k].data|) && Counts(msgs, got, d)
    ensures Counts(msgs, Counted(got, Arrives(k)), d)
  {
    hide FragmentCount;
    var got' := Counted(got, Arrives(k));
    forall i | 0 <= i < d ensures Whole(msgs, got', i) {
      assert Whole(msgs, got, i);
    }
  }

  lemma ArrivalHolds(b: Buffer, start: uint16, msgs: seq<Message>, got: seq<nat>, d: nat, k: nat)
    requires d <= |msgs| == |got| && Holds(b, start, msgs, got, d)
    requires d <= k < |msgs| && k < d + 0x8000 && got[k] < FragmentCount(|msgs[k].data|)
    ensures Holds(Put(b, Chunk(start, msgs, got, Arrives(k))), start, msgs, Counted(got, Arrives(k)), d)
  {
    hide Ahead, SsnAt, FragmentCount, Chunk, Has, Entry;
    var f, got' := Chunk(start, msgs, got, Arrives(k)), Counted(got, Arrives(k));
    var b' := Put(b, f);
    FragmentSsn(start, msgs, got, k);
    ArrivalEntry(b, start, msgs, got, d, k);
    AheadOf(start, d, k);
    CountsNext(msgs, got, d, k);
    forall i | d <= i < |msgs| && got'[i] > 0 ensures Has(b', start, msgs[i], got'[i], d, i) {
      if i != k {
        HasAfterPut(b, f, start, msgs[i], got[i], d, i, k);
      }
    }
    forall s | s in b'.pending ensures Started(got', d + Ahead(s, b'.nextSsn)) {
      if s != f.ssn {
        assert Started(got, d + Ahead(s, b.nextSsn));
      }
    }
  }

  lemma FragmentSsn(start: uint16, msgs: seq<Message>, got: seq<nat>, k: nat)
    requires k < |msgs| == |got| && got[k] < FragmentCount(|msgs[k].data|)
    ensures Chunk(start, msgs, got, Arrives(k)).ssn == SsnAt(start, k)
  {
  }

  // ----- Ordered delivery -----

  // The counts after a run of events, each of which must be possible.
  ghost predicate RunOk(start: uint16, msgs: seq<Message>, got: seq<nat>, events: seq<Event>)
    requires |got| == |msgs|
    decreases |events|
  {
    events == [] ||
    (EventOk(start, msgs, got, events[0]) && RunOk(start, msgs, Counted(got, events[0]), events[1..]))
  }

  ghost function CountAll(start: uint16, msgs: seq<Message>, got: seq<nat>, events: seq<Event>): (r: seq<nat>)
    requires |got| == |msgs| && RunOk(start, msgs, got, events)
    ensures |r| == |msgs|
    decreases |events|
  {
    if events == [] then got else CountAll(start, msgs, Counted(got, events[0]), events[1..])
  }

  // Everything the buffer outputs over a run.
  ghost function Outputs(b: Buffer, start: uint16, msgs: seq<Message>, got: seq<nat>, events: seq<Event>): seq<Message>
    requires |got| == |msgs| && RunOk(start, msgs, got, events)
    decreases |events|
  {
    if events == [] then []
    else
      var step := Accept(b, Chunk(start, msgs, got, events[0]), false);
      step.1 + Outputs(step.0, start, msgs, Counted(got, events[0]), events[1..])
  }

  lemma {:induction false} ReadyStart(msgs: seq<Message>, got: seq<nat>, d: nat, e: nat)
    requires d <= e <= |msgs| == |got| && forall k :: d <= k < e ==> Whole(msgs, got, k)
    ensures Ready(msgs, got, d) == Ready(msgs, got, e)
    decreases e - d
  {
    if d < e {
      ReadyStart(msgs, got, d + 1, e);
    }
  }

  lemma {:induction false} ReadyWhole(msgs: seq<Message>, got: seq<nat>, d: nat)
    requires d <= |msgs| == |got|
    ensures forall k :: d <= k < Ready(msgs, got, d) ==> Whole(msgs, got, k)
    decreases |msgs| - d
  {
    if d < |msgs| && Whole(msgs, got, d) {
      ReadyWhole(msgs, got, d + 1);
    }
  }

  lemma BeforeNever(start: uint16, d: nat, k: nat)
    requires d <= k < d + 0x8000
    ensures !Before(SsnAt(start, k), SsnAt(start, d))
  {
    AheadOf(start, d, k);
  }

  // One event: what becomes whole is delivered, in order.
  lemma EventDelivers(b: Buffer, start: uint16, msgs: seq<Message>, got: seq<nat>, e: Event)
    requires |got| == |msgs| && Holds(b, start, msgs, got, Ready(msgs, got, 0)) && EventOk(start, msgs, got, e)
    ensures
      var d, got', step := Ready(msgs, got, 0), Counted(got, e), Accept(b, Chunk(start, msgs, got, e), false);
      && d <= Ready(msgs, got', 0) && step.1 == msgs[d..Ready(msgs, got', 0)]
      && Holds(step.0, start, msgs, got', Ready(msgs, got', 0))
  {
    hide Drain, SsnAt, FragmentCount, Ready, Has, Started, Ahead, Entry;
    var d, got' := Ready(msgs, got, 0), Counted(got, e);
    match e
    case Repeated(f) =>
      assert msgs[d..d] == [];
    case Arrives(k) =>
      ReadyWhole(msgs, got, 0);
      assert k < d ==> Whole(msgs, got, k);
      FragmentSsn(start, msgs, got, k);
      BeforeNever(start, d, k);
      ArrivalHolds(b, start, msgs, got, d, k);
      DrainReady(Put(b, Chunk(start, msgs, got, e)), start, msgs, got', d);
      ReadyStart(msgs, got', 0, d);
  }

  lemma {:induction false} RunDelivers(b: Buffer, start: uint16, msgs: seq<Message>, got: seq<nat>, events: seq<Event>)
    requires |got| == |msgs| && Holds(b, start, msgs, got, Ready(msgs, got, 0)) && RunOk(start, msgs, got, events)
    ensures
      var d, r := Ready(msgs, got, 0), Ready(msgs, CountAll(start, msgs, got, events), 0);
      d <= r && Outputs(b, start, msgs, got, events) == msgs[d..r]
    decreases |events|
  {
    hide Holds, Accept, Ready, Chunk, Before, FragmentCount;
    var d := Ready(msgs, got, 0);
    if events == [] {
      assert msgs[d..d] == [];
    } else {
      var got' := Counted(got, events[0]);
      var d', r := Ready(msgs, got', 0), Ready(msgs, CountAll(start, msgs, got, events), 0);
      EventDelivers(b, start, msgs, got, events[0]);
      RunDelivers(Accept(b, Chunk(start, msgs, got, events[0]), false).0, start, msgs, got', events[1..]);
      assert msgs[d..d'] + msgs[d'..r] == msgs[d..r];
    }
  }

  // Over a whole run the outputs are exactly the messages that have arrived whole with all the ones
  // before them: in order, each once, however often sequence numbers wrap.
  lemma OrderedDelivery(start: uint16, msgs: seq<Message>, events: seq<Event>)
    requires RunOk(start, msgs, Repeat<nat>(0, |msgs|), events)
    ensures
      var none := Repeat<nat>(0, |msgs|);
      Outputs(Buffer(start, map[]), start, msgs, none, events) == msgs[..Ready(msgs, CountAll(start, msgs, none, events), 0)]
  {
    hide Ready, RunOk, CountAll, Outputs;
    var none, b := Repeat<nat>(0, |msgs|), Buffer(start, map[]);
    NothingYet(start, msgs);
    RunDelivers(b, start, msgs, none, events);
  }

  lemma NothingYet(start: uint16, msgs: seq<Message>)
    ensures
      var none := Repeat<nat>(0, |msgs|);
      Ready(msgs, none, 0) == 0 && Holds(Buffer(start, map[]), start, msgs, none, 0)
  {
    RepeatAt<nat>(0, |msgs|);
  }

  // ----- Unordered channels -----

  // The fragments of a message from number j on, in order.
  ghost function Unordered(b: Buffer, m: Message, ssn: uint16, j: nat): (Buffer, seq<Message>)
    requires j <= FragmentCount(|m.data|)
    decreases FragmentCount(|m.data|) - j
  {
    if j == FragmentCount(|m.data|) then (b, [])
    else
      var step := Accept(b, FragmentAt(m, ssn, true, j), true);
      var rest := Unordered(step.0, m, ssn, j + 1);
      (rest.0, step.1 + rest.1)
  }

  lemma {:induction false} UnorderedFrom(b: Buffer, m: Message, ssn: uint16, j: nat)
    requires j < FragmentCount(|m.data|) && ssn !in b.pending
    ensures
      var start := if j == 0 then b else b.(pending := b.pending[ssn := Partial(m, j)]);
      Unordered(start, m, ssn, j) == (b, [m])
    decreases FragmentCount(|m.data|) - j
  {
    hide FragmentCount, FlagsAt, Cut, Accumulate;
    var start := if j == 0 then b else b.(pending := b.pending[ssn := Partial(m, j)]);
    NextFragment(m, ssn, true, j, if j == 0 then FRESH else Partial(m, j));
    var next := b.pending[ssn := Partial(m, j + 1)];
    assert start.pending[ssn := Partial(m, j + 1)] == next;
    if j + 1 == FragmentCount(|m.data|) {
      assert next - {ssn} == b.pending;
      WholePartial(m);
      assert [m] + [] == [m];
    } else {
      UnorderedFrom(b, m, ssn, j + 1);
      assert [] + [m] == [m];
    }
  }

  lemma WholePartial(m: Message)
    ensures Partial(m, FragmentCount(|m.data|)) == Pending(m.ppid, m.data, true)
  {
  }

  // On an unordered channel a message goes out as soon as its last fragment comes, whatever else is
  // pending and whatever its number, and leaves the buffer as it was.
  lemma UnorderedDelivery(b: Buffer, m: Message, ssn: uint16)
    requires ssn !in b.pending
    ensures Unordered(b, m, ssn, 0) == (b, [m])
  {
    hide FragmentCount, Unordered;
    CountAtLeastOne(|m.data|);
    UnorderedFrom(b, m, ssn, 0);
  }

  lemma CountAtLeastOne(size: nat)
    ensures FragmentCount(size) >= 1
  {
  }

  // ----- Where delivery fails -----

  lemma BehindByOne(s: uint16)
    ensures Before(s, (s + 1) % 0x1_0000) && !Before(s, s)
  {
  }

  lemma DrainLast(ssn: uint16, p: Pending)
    requires p.complete
    ensures Drain(Buffer(ssn, map[ssn := p])) == (Buffer((ssn + 1) % 0x1_0000, map[]), [Message(p.ppid, p.payload)])
  {
    var b := Buffer(ssn, map[ssn := p]);
    assert b.pending - {ssn} == map[];
    DrainOne(b, []);
    DrainOne(Pop(b), []);
    assert Drain(b).1 == [Message(p.ppid, p.payload)];
  }

  // ----- Fragments of one message in any order -----

  // Indices of fragments, in the order in which they arrive; some may be missing or come again.
  ghost predicate OrderOk(m: Message, order: seq<nat>) { forall k :: 0 <= k < |order| ==> order[k] < FragmentCount(|m.data|) }

  // Everything the buffer outputs.
  ghost function ArriveAll(b: Buffer, m: Message, ssn: uint16, order: seq<nat>): seq<Message>
    requires OrderOk(m, order)
    decreases |order|
  {
    if order == [] then []
    else
      var step := Accept(b, FragmentAt(m, ssn, false, order[0]), false);
      step.1 + ArriveAll(step.0, m, ssn, order[1..])
  }

  // What is pending after these arrivals.
  ghost function Gathered(m: Message, order: seq<nat>): Pending
    requires OrderOk(m, order)
    decreases |order|
  {
    if order == [] then FRESH
    else
      var f := FragmentAt(m, 0, false, order[|order| - 1]);
      Accumulate(Gathered(m, order[..|order| - 1]), f.flags, f.ppid, f.data)
  }

  // The arrivals from the latest first fragment on; all of them if it has not come.
  function SinceFirst(order: seq<nat>): seq<nat> {
    if order == [] then []
    else if order[|order| - 1] == 0 then [0]
    else SinceFirst(order[..|order| - 1]) + [order[|order| - 1]]
  }

  lemma {:induction false} SinceFirstOk(m: Message, order: seq<nat>)
    requires OrderOk(m, order)
    ensures OrderOk(m, SinceFirst(order))
    decreases |order|
  {
    hide FragmentCount;
    if order != [] {
      SinceFirstOk(m, order[..|order| - 1]);
    }
  }

  ghost function Joined(m: Message, order: seq<nat>): bytes
    requires OrderOk(m, order)
    decreases |order|
  {
    if order == [] then []
    else Joined(m, order[..|order| - 1]) + FragmentAt(m, 0, false, order[|order| - 1]).data
  }

  lemma {:induction false} GatheredIs(m: Message, order: seq<nat>)
    requires OrderOk(m, order)
    ensures OrderOk(m, SinceFirst(order))
    ensures
      Gathered(m, order) == Pending(if 0 in order then m.ppid else 0, Joined(m, SinceFirst(order)),
                                    FragmentCount(|m.data|) - 1 in order)
    decreases |order|
  {
    hide FragmentCount, FlagsAt, IsFirst, IsLast, Cut;
    SinceFirstOk(m, order);
    if order != [] {
      var init, j := order[..|order| - 1], order[|order| - 1];
      GatheredIs(m, init);
      FlagsMean(|m.data|, j, false);
      assert order == init + [j];
      var since := SinceFirst(order);
      assert since[|since| - 1] == j && since[..|since| - 1] == if j == 0 then [] else SinceFirst(init);
    }
  }

  // The arrivals up to the first one of fragment x.
  function Through(order: seq<nat>, x: nat): seq<nat> {
    if order == [] then [] else if order[0] == x then [x] else [order[0]] + Through(order[1..], x)
  }

  lemma {:induction false} ThroughOk(m: Message, order: seq<nat>, x: nat)
    requires OrderOk(m, order)
    ensures OrderOk(m, Through(order, x))
    decreases |order|
  {
    hide FragmentCount;
    if order != [] && order[0] != x {
      ThroughOk(m, order[1..], x);
    }
  }

  lemma ThroughNext(done: seq<nat>, order: seq<nat>, x: nat)
    ensures order != [] ==>
      done + Through(order, x) == if order[0] == x then done + [x] else done + [order[0]] + Through(order[1..], x)
  {
    if order != [] && order[0] != x {
      assert done + ([order[0]] + Through(order[1..], x)) == done + [order[0]] + Through(order[1..], x);
    }
  }

  // The message the buffer makes of what has been gathered.
  ghost function MadeOf(m: Message, seen: seq<nat>): Message
    requires OrderOk(m, seen) && OrderOk(m, SinceFirst(seen))
  {
    Message(if 0 in seen then m.ppid else 0, Joined(m, SinceFirst(seen)))
  }

  function Only(ssn: uint16, done: seq<nat>, p: Pending): Buffer { Buffer(ssn, if done == [] then map[] else map[ssn := p]) }

  lemma OneMore(m: Message, ssn: uint16, done: seq<nat>, j: nat)
    requires OrderOk(m, done) && j < FragmentCount(|m.data|)
    ensures OrderOk(m, done + [j])
    ensures Put(Only(ssn, done, Gathered(m, done)), FragmentAt(m, ssn, false, j))
            == Only(ssn, done + [j], Gathered(m, done + [j]))
  {
    hide FragmentCount, FlagsAt, Accumulate, Cut;
    assert (done + [j])[..|done|] == done;
  }

  // Once the message is out, whatever comes of it is dropped.
  lemma {:induction false} RestDropped(b: Buffer, m: Message, ssn: uint16, order: seq<nat>)
    requires OrderOk(m, order) && Before(ssn, b.nextSsn)
    ensures ArriveAll(b, m, ssn, order) == []
    decreases |order|
  {
    hide FragmentCount, FlagsAt, Before, Cut;
    if order != [] {
      RestDropped(b, m, ssn, order[1..]);
    }
  }

  lemma {:induction false} ArrivesFrom(m: Message, ssn: uint16, done: seq<nat>, order: seq<nat>)
    requires OrderOk(m, done) && OrderOk(m, order) && FragmentCount(|m.data|) - 1 !in done
    ensures
      var last := FragmentCount(|m.data|) - 1;
      var seen := done + Through(order, last);
      && OrderOk(m, seen) && OrderOk(m, SinceFirst(seen))
      && ArriveAll(Only(ssn, done, Gathered(m, done)), m, ssn, order) == if last in order then [MadeOf(m, seen)] else []
    decreases |order|
  {
    hide Accept, FragmentCount, FragmentAt, Gathered, MadeOf, Only, Through, SinceFirst;
    var last := FragmentCount(|m.data|) - 1;
    ThroughNext(done, order, last);
    ThroughOk(m, order, last);
    SinceFirstOk(m, done + Through(order, last));
    if order != [] {
      var j, next := order[0], done + [order[0]];
      ArrivesNext(m, ssn, done, j);
      if j == last {
        BehindByOne(ssn);
        RestDropped(Buffer((ssn + 1) % 0x1_0000, map[]), m, ssn, order[1..]);
      } else {
        ArrivesFrom(m, ssn, next, order[1..]);
      }
    }
  }

  // One arrival.
  lemma ArrivesNext(m: Message, ssn: uint16, done: seq<nat>, j: nat)
    requires OrderOk(m, done) && j < FragmentCount(|m.data|) && FragmentCount(|m.data|) - 1 !in done
    ensures OrderOk(m, done + [j]) && OrderOk(m, SinceFirst(done + [j]))
    ensures Accept(Only(ssn, done, Gathered(m, done)), FragmentAt(m, ssn, false, j), false)
            == if j == FragmentCount(|m.data|) - 1 then (Buffer((ssn + 1) % 0x1_0000, map[]), [MadeOf(m, done + [j])])
               else (Only(ssn, done + [j], Gathered(m, done + [j])), [])
  {
    hide Drain, FragmentCount, FlagsAt, Gathered, Accumulate, Before, Cut, Entry;
    var next := done + [j];
    OneMore(m, ssn, done, j);
    GatheredIs(m, next);
    BehindByOne(ssn);
    if j == FragmentCount(|m.data|) - 1 {
      DrainLast(ssn, Gathered(m, next));
    } else {
      DrainOne(Only(ssn, next, Gathered(m, next)), []);
    }
  }

  // Fragments of one message are joined in the order of their arrival. For any message and any order, an
  // empty buffer outputs nothing before the last fragment, then one message: the one that was sent exactly
  // when what came from the latest first fragment up to the first arrival of the last one joins to its
  // data, the payload type included.
  lemma ArrivalOrderExactly(start: uint16, m: Message, order: seq<nat>)
    requires OrderOk(m, order)
    ensures
      var last := FragmentCount(|m.data|) - 1;
      var seen, out := Through(order, last), ArriveAll(Buffer(start, map[]), m, start, order);
      && OrderOk(m, seen) && OrderOk(m, SinceFirst(seen))
      && out == (if last in order then [MadeOf(m, seen)] else [])
      && (out == [m] <==>
            last in order && (0 in seen || m.ppid == 0) && Joined(m, SinceFirst(seen)) == m.data)
  {
    hide FragmentCount, Gathered, ArriveAll, Joined;
    ArrivesFrom(m, start, [], order);
    assert [] + Through(order, FragmentCount(|m.data|) - 1) == Through(order, FragmentCount(|m.data|) - 1);
  }

  // So when the last of two fragments overtakes the first, half a message is delivered under no payload
  // type, and the other half never.
  lemma OvertakenFragmentCorrupts(start: uint16, m: Message)
    requires FragmentCount(|m.data|) == 2
    ensures
      var out := ArriveAll(Buffer(start, map[]), m, start, [1, 0]);
      out == [Message(0, m.data[MAX_FRAGMENT..])] && out != [m]
  {
    hide ArriveAll, Joined, SinceFirst;
    var order: seq<nat>, one: seq<nat> := [1, 0], [1];
    ArrivalOrderExactly(start, m, order);
    assert Through(order, 1) == one;
    LastAlone(m);
  }

  lemma LastAlone(m: Message)
    requires FragmentCount(|m.data|) == 2
    ensures OrderOk(m, [1]) && SinceFirst([1]) == [1] && Joined(m, [1]) == m.data[MAX_FRAGMENT..]
  {
    var one: seq<nat> := [1];
    assert one[..0] == [] && SinceFirst([]) == [] && Joined(m, []) == [];
    assert SinceFirst(one) == [] + [1];
    assert Joined(m, one) == [] + m.data[MAX_FRAGMENT..] == m.data[MAX_FRAGMENT..];
  }

  // The opener of a channel sends its first message under stream sequence number 0, which the channel's
  // control message has already used. A receiver that has consumed it drops that message and goes on
  // with the next: what it delivers starts with the second message.
  lemma OpenTakesFirstNumber(m: Message, msgs: seq<Message>, events: seq<Event>)
    requires RunOk(1, msgs, Repeat<nat>(0, |msgs|), events)
    ensures
      var b, none := Consume(Buffer(0, map[]), 0), Repeat<nat>(0, |msgs|);
      && (forall j :: 0 <= j < FragmentCount(|m.data|) ==> Accept(b, FragmentAt(m, 0, false, j), false) == (b, []))
      && (forall k :: 0 <= k < |msgs| ==> SsnAt(1, k) == SsnAt(0, k + 1))
      && Outputs(b, 1, msgs, none, events) == msgs[..Ready(msgs, CountAll(1, msgs, none, events), 0)]
  {
    hide Drain, RunOk, Ready, Outputs, CountAll, FlagsAt, FragmentCount;
    BehindByOne(0);
    OrderedDelivery(1, msgs, events);
  }
}
