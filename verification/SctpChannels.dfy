// Messages on channels: how they become chunks, and what the application hears of the chunks that come
// (src/sctp/sctp_session.cpp).
module SctpChannels {
  import opened Wire
  import opened SctpSerial
  import opened SctpAcks
  import opened SctpSender
  import opened SctpReassembly

  const PPID_DCEP: uint32 := 50
  const PPID_STRING: uint32 := 51
  const PPID_BINARY: uint32 := 53
  const PPID_STRING_EMPTY: uint32 := 56
  const PPID_BINARY_EMPTY: uint32 := 57
  const DCEP_ACK: uint8 := 2
  const DCEP_OPEN: uint8 := 3

  datatype ChannelState = Unopened | Opening | Opened

  datatype Channel = Channel(
    name: bytes, streamId: uint16, unordered: bool, state: ChannelState, buffer: Buffer, sendSsn: uint16)

  datatype Outgoing = Outgoing(name: bytes, text: bool, data: bytes)

  datatype Packet =
    | DataPacket(tag: uint32, d: Data)
    | SackPacket(tag: uint32, sack: Sack)
    | InitPacket(initiateTag: uint32, initialTsn: uint32)
    | InitAckPacket(tag: uint32, initiateTag: uint32, initialTsn: uint32, cookie: bytes)
    | CookieEchoPacket(tag: uint32, cookie: bytes)
    | CookieAckPacket(tag: uint32)

  // What the listener is told.
  datatype Notice = TextReceived(name: bytes, text: bytes) | BinaryReceived(name: bytes, data: bytes) | ChannelOpened(name: bytes)

  // ----- Sending -----

  function PpidFor(m: Outgoing): uint32 {
    if m.text then (if m.data == [] then PPID_STRING_EMPTY else PPID_STRING)
    else if m.data == [] then PPID_BINARY_EMPTY else PPID_BINARY
  }

  function DataFrom(f: Fragment, tsn: uint32, streamId: uint16): Data {
    Data(tsn, f.flags, streamId, f.ssn, f.ppid, f.data)
  }

  // The sending side together with everything sent so far.
  datatype Output = Output(s: Sender, packets: seq<Packet>)

  function Emit(o: Output, tag: uint32, d: Data): Output {
    Output(AfterSend(o.s, d), o.packets + [DataPacket(tag, d)])
  }

  // The first `n` fragments of a message.
  function EmitFragments(o: Output, tag: uint32, c: Channel, m: Outgoing, n: nat): Output
    requires n <= FragmentCount(|m.data|)
  {
    if n == 0 then o
    else
      var before := EmitFragments(o, tag, c, m, n - 1);
      var f := FragmentAt(Message(PpidFor(m), m.data), c.sendSsn, c.unordered, n - 1);
      Emit(before, tag, DataFrom(f, before.s.current, c.streamId))
  }

  function EmitMessage(o: Output, tag: uint32, c: Channel, m: Outgoing): Output {
    EmitFragments(o, tag, c, m, FragmentCount(|m.data|))
  }

  // std::find_if over the channels: the first match, or the length of the list.
  function FindLabel(cs: seq<Channel>, name: bytes): (i: nat)
    ensures i <= |cs|
    ensures i < |cs| ==> cs[i].name == name
  {
    if cs == [] then 0 else if cs[0].name == name then 0 else 1 + FindLabel(cs[1..], name)
  }

  function FindStream(cs: seq<Channel>, streamId: uint16): (i: nat)
    ensures i <= |cs|
    ensures i < |cs| ==> cs[i].streamId == streamId
  {
    if cs == [] then 0 else if cs[0].streamId == streamId then 0 else 1 + FindStream(cs[1..], streamId)
  }

  predicate CanSend(cs: seq<Channel>, name: bytes) {
    var i := FindLabel(cs, name);
    i < |cs| && cs[i].state == Opened
  }

  function BumpSsn(cs: seq<Channel>, i: nat): seq<Channel>
    requires i < |cs|
  {
    cs[i := cs[i].(sendSsn := (cs[i].sendSsn + 1) % 0x1_0000)]
  }

  // The peer's window has no room for all of it.
  predicate Blocked(s: Sender, m: Outgoing, rwnd: uint32) { m.data != [] && s.flight + |m.data| > rwnd }

  datatype Queue = Queue(o: Output, channels: seq<Channel>, pending: seq<Outgoing>)

  // Messages leave the queue in order, until one does not fit.
  function Transmit(q: Queue, tag: uint32, rwnd: uint32): Queue
    decreases |q.pending|
  {
    if q.pending == [] then q
    else if !CanSend(q.channels, q.pending[0].name) then Transmit(q.(pending := q.pending[1..]), tag, rwnd)
    else if Blocked(q.o.s, q.pending[0], rwnd) then q
    else Transmit(TransmitOne(q, tag), tag, rwnd)
  }

  function TransmitOne(q: Queue, tag: uint32): Queue
    requires q.pending != [] && CanSend(q.channels, q.pending[0].name)
  {
    var i, m := FindLabel(q.channels, q.pending[0].name), q.pending[0];
    Queue(EmitMessage(q.o, tag, q.channels[i], m), BumpSsn(q.channels, i), q.pending[1..])
  }

  lemma TransmitStep(q: Queue, tag: uint32, rwnd: uint32)
    requires q.pending != []
    ensures !CanSend(q.channels, q.pending[0].name) ==>
              Transmit(q, tag, rwnd) == Transmit(q.(pending := q.pending[1..]), tag, rwnd)
    ensures CanSend(q.channels, q.pending[0].name) && Blocked(q.o.s, q.pending[0], rwnd) ==> Transmit(q, tag, rwnd) == q
    ensures CanSend(q.channels, q.pending[0].name) && !Blocked(q.o.s, q.pending[0], rwnd) ==>
              Transmit(q, tag, rwnd) == Transmit(TransmitOne(q, tag), tag, rwnd)
  {
  }

  lemma TransmitDone(q: Queue, tag: uint32, rwnd: uint32)
    ensures q.pending == [] ==> Transmit(q, tag, rwnd) == q
  {
  }

  // ----- One message -----

  lemma SingleFragment(m: Message, ssn: uint16, unordered: bool)
    requires |m.data| <= MAX_FRAGMENT
    ensures FragmentCount(|m.data|) == 1
    ensures FragmentAt(m, ssn, unordered, 0)
            == Fragment(ssn, FLAG_COMPLETE + (if unordered then FLAG_UNORDERED else 0), m.ppid, m.data)
  {
  }

  lemma EmitSingle(o: Output, tag: uint32, c: Channel, m: Outgoing)
    requires |m.data| <= MAX_FRAGMENT
    ensures
      var flags := FLAG_COMPLETE + (if c.unordered then FLAG_UNORDERED else 0);
      EmitMessage(o, tag, c, m) == Emit(o, tag, Data(o.s.current, flags, c.streamId, c.sendSsn, PpidFor(m), m.data))
  {
    SingleFragment(Message(PpidFor(m), m.data), c.sendSsn, c.unordered);
    assert EmitFragments(o, tag, c, m, 0) == o;
  }

  lemma EmitNone(o: Output, tag: uint32, c: Channel, m: Outgoing)
    ensures EmitFragments(o, tag, c, m, 0) == o == WithTimer(o, o.s.armed)
  {
  }

  lemma CutEnds(size: nat)
    ensures Cut(size, 0) == 0
  {
  }

  lemma CutAll(size: nat, j: nat)
    requires size > MAX_FRAGMENT && j <= FragmentCount(size) && Cut(size, j) == size
    ensures j == FragmentCount(size)
  {
  }

  // The loop's offset, size and flags are those of fragment j.
  lemma FragmentIs(m: Message, ssn: uint16, unordered: bool, j: nat, offset: nat, fragSize: nat)
    requires j <= FragmentCount(|m.data|) && offset == Cut(|m.data|, j) < |m.data| && MAX_FRAGMENT < |m.data|
    requires fragSize == if |m.data| - offset < MAX_FRAGMENT then |m.data| - offset else MAX_FRAGMENT
    ensures j < FragmentCount(|m.data|) && Cut(|m.data|, j + 1) == offset + fragSize
    ensures
      var flags := (if unordered then FLAG_UNORDERED else 0) + (if j == 0 then FLAG_B else 0)
                   + (if offset + fragSize >= |m.data| then FLAG_E else 0);
      FragmentAt(m, ssn, unordered, j) == Fragment(ssn, flags, m.ppid, m.data[offset..offset + fragSize])
  {
  }

  function WithTimer(o: Output, armed: bool): Output { o.(s := o.s.(armed := armed)) }

  // One more fragment, sent while the timer field lags behind.
  lemma EmitNext(o: Output, tag: uint32, c: Channel, m: Outgoing, j: nat, now: Output, armed: bool, d: Data)
    requires j < FragmentCount(|m.data|) && EmitFragments(o, tag, c, m, j) == WithTimer(now, armed)
    requires d == DataFrom(FragmentAt(Message(PpidFor(m), m.data), c.sendSsn, c.unordered, j), now.s.current, c.streamId)
    ensures EmitFragments(o, tag, c, m, j + 1) == WithTimer(Emit(now, tag, d), armed || now.s.sent == [])
  {
    hide FragmentAt, FragmentCount;
  }

  // ----- What goes on the wire -----

  // These chunks, and nothing else, were put on the wire and remembered, in order, under consecutive numbers.
  ghost predicate SentOut(o: Output, o': Output, tag: uint32, ds: seq<Data>) {
    && o'.s.sent == o.s.sent + ds
    && |o'.packets| == |o.packets| + |ds| && o.packets <= o'.packets
    && (forall k :: 0 <= k < |ds| ==> o'.packets[|o.packets| + k] == DataPacket(tag, ds[k]))
    && (forall k :: 0 <= k < |ds| ==> ds[k].tsn == (o.s.current + k) % WORD)
    && o'.s.current == (o.s.current + |ds|) % WORD
  }

  lemma SentNothing(o: Output, tag: uint32)
    ensures SentOut(o, o, tag, [])
  {
  }

  lemma SentOne(o: Output, tag: uint32, d: Data)
    requires d.tsn == o.s.current
    ensures SentOut(o, Emit(o, tag, d), tag, [d])
  {
  }

  lemma SentThen(o: Output, o1: Output, o2: Output, tag: uint32, ds: seq<Data>, es: seq<Data>)
    requires SentOut(o, o1, tag, ds) && SentOut(o1, o2, tag, es)
    ensures SentOut(o, o2, tag, ds + es)
  {
    var all := ds + es;
    forall k | 0 <= k < |all|
      ensures o2.packets[|o.packets| + k] == DataPacket(tag, all[k]) && all[k].tsn == (o.s.current + k) % WORD
    {
      if k < |ds| {
        assert o2.packets[|o.packets| + k] == o1.packets[|o.packets| + k];
      } else {
        assert o2.packets[|o1.packets| + (k - |ds|)] == DataPacket(tag, es[k - |ds|]);
        WrapSum(o.s.current, |ds|, k - |ds|);
      }
    }
    WrapSum(o.s.current, |ds|, |es|);
    assert o.s.sent + ds + es == o.s.sent + all;
  }

  lemma WrapSum(x: nat, a: nat, b: nat)
    ensures ((x + a) % WORD + b) % WORD == (x + (a + b)) % WORD
  {
  }

  function Payloads(ds: seq<Data>): bytes {
    if ds == [] then [] else Payloads(ds[..|ds| - 1]) + ds[|ds| - 1].payload
  }

  // The payload protocol identifiers of RFC 8831.
  function PpidOf(text: bool, isEmpty: bool): uint32 {
    if text then (if isEmpty then 56 else 51) else if isEmpty then 57 else 53
  }

  // The message, cut into chunks of 1100 bytes, the first and the last marked, under the channel's numbers.
  ghost predicate CarriesMessage(ds: seq<Data>, c: Channel, m: Outgoing) {
    && ds != [] && Payloads(ds) == m.data
    && forall j :: 0 <= j < |ds| ==> IsPart(ds[j], j, |ds|, c, m)
  }

  predicate IsPart(d: Data, j: nat, n: nat, c: Channel, m: Outgoing) {
    && d.streamId == c.streamId && d.ssn == c.sendSsn && d.ppid == PpidOf(m.text, m.data == [])
    && d.flags == (if j == 0 then 2 else 0) + (if j == n - 1 then 1 else 0) + (if c.unordered then 4 else 0)
    && |d.payload| <= 1100 && (j < n - 1 ==> |d.payload| == 1100)
  }

  // The j-th chunk of a message.
  function ChunkAt(current: uint32, c: Channel, m: Outgoing, j: nat): Data
    requires j < FragmentCount(|m.data|)
  {
    DataFrom(FragmentAt(Message(PpidFor(m), m.data), c.sendSsn, c.unordered, j), (current + j) % WORD, c.streamId)
  }

  lemma {:induction false} FragmentsSent(o: Output, tag: uint32, c: Channel, m: Outgoing, n: nat) returns (ds: seq<Data>)
    requires n <= FragmentCount(|m.data|)
    ensures SentOut(o, EmitFragments(o, tag, c, m, n), tag, ds)
    ensures |ds| == n && forall j :: 0 <= j < n ==> ds[j] == ChunkAt(o.s.current, c, m, j)
  {
    hide SentOut, FragmentAt, FragmentCount, Emit;
    if n == 0 {
      ds := [];
      SentNothing(o, tag);
    } else {
      var before := EmitFragments(o, tag, c, m, n - 1);
      ds := FragmentsSent(o, tag, c, m, n - 1);
      SentCurrent(o, before, tag, ds);
      var d := ChunkAt(o.s.current, c, m, n - 1);
      SentOne(before, tag, d);
      SentThen(o, before, Emit(before, tag, d), tag, ds, [d]);
      ds := ds + [d];
    }
  }

  lemma SentCurrent(o: Output, o': Output, tag: uint32, ds: seq<Data>)
    requires SentOut(o, o', tag, ds)
    ensures o'.s.current == (o.s.current + |ds|) % WORD
  {
  }

  lemma {:induction false} PayloadsAre(current: uint32, c: Channel, m: Outgoing, ds: seq<Data>)
    requires |ds| <= FragmentCount(|m.data|)
    requires forall j :: 0 <= j < |ds| ==> ds[j] == ChunkAt(current, c, m, j)
    ensures Payloads(ds) == m.data[..Cut(|m.data|, |ds|)]
    decreases |ds|
  {
    hide FragmentCount, FlagsAt, Cut;
    if ds == [] {
      CutEnds(|m.data|);
    } else {
      var j := |ds| - 1;
      PayloadsAre(current, c, m, ds[..j]);
      CutsGrow(|m.data|, j);
      assert m.data[..Cut(|m.data|, j)] + m.data[Cut(|m.data|, j)..Cut(|m.data|, j + 1)] == m.data[..Cut(|m.data|, j + 1)];
    }
  }

  lemma ChunkIsPart(current: uint32, c: Channel, m: Outgoing, j: nat)
    requires j < FragmentCount(|m.data|)
    ensures IsPart(ChunkAt(current, c, m, j), j, FragmentCount(|m.data|), c, m)
  {
    PartSize(|m.data|, j);
  }

  lemma PartSize(size: nat, j: nat)
    requires j < FragmentCount(size)
    ensures Cut(size, j) <= Cut(size, j + 1) <= Cut(size, j) + 1100
    ensures j < FragmentCount(size) - 1 ==> Cut(size, j + 1) == Cut(size, j) + 1100
  {
  }

  // A message goes out whole, as its chunks and nothing else.
  lemma MessageSent(o: Output, tag: uint32, c: Channel, m: Outgoing) returns (ds: seq<Data>)
    ensures SentOut(o, EmitMessage(o, tag, c, m), tag, ds) && CarriesMessage(ds, c, m)
    ensures |ds| == FragmentCount(|m.data|) && forall j :: 0 <= j < |ds| ==> ds[j] == ChunkAt(o.s.current, c, m, j)
  {
    hide SentOut, EmitFragments, ChunkAt, FragmentCount, IsPart, Cut;
    ds := FragmentsSent(o, tag, c, m, FragmentCount(|m.data|));
    PayloadsAre(o.s.current, c, m, ds);
    CountPositive(|m.data|);
    assert m.data[..|m.data|] == m.data;
    forall j | 0 <= j < |ds| ensures IsPart(ds[j], j, |ds|, c, m) {
      ChunkIsPart(o.s.current, c, m, j);
    }
  }

  lemma CountPositive(size: nat)
    ensures FragmentCount(size) >= 1 && Cut(size, FragmentCount(size)) == size
  {
  }

  // Of these messages those with an open channel went out, one after the other, each under its channel's
  // next number.
  ghost predicate SentInOrder(cs: seq<Channel>, msgs: seq<Outgoing>, ds: seq<Data>, cs': seq<Channel>)
    decreases |msgs|
  {
    if msgs == [] then ds == [] && cs' == cs
    else if !CanSend(cs, msgs[0].name) then SentInOrder(cs, msgs[1..], ds, cs')
    else
      exists n: nat :: n <= |ds|
        && CarriesMessage(ds[..n], cs[FindLabel(cs, msgs[0].name)], msgs[0])
        && SentInOrder(BumpSsn(cs, FindLabel(cs, msgs[0].name)), msgs[1..], ds[n..], cs')
  }

  lemma SentFirst(cs: seq<Channel>, msgs: seq<Outgoing>, part: seq<Data>, rest: seq<Data>, cs': seq<Channel>)
    requires msgs != [] && CanSend(cs, msgs[0].name)
    requires CarriesMessage(part, cs[FindLabel(cs, msgs[0].name)], msgs[0])
    requires SentInOrder(BumpSsn(cs, FindLabel(cs, msgs[0].name)), msgs[1..], rest, cs')
    ensures SentInOrder(cs, msgs, part + rest, cs')
  {
    hide CarriesMessage;
    var ds, n := part + rest, |part|;
    assert ds[..n] == part && ds[n..] == rest;
  }

  // The queue, exactly: a front part of it leaves, whatever has an open channel goes out, and what stays
  // starts with a message for which the peer's window has no room.
  lemma {:induction false} TransmitSends(q: Queue, tag: uint32, rwnd: uint32) returns (n: nat, ds: seq<Data>)
    ensures n <= |q.pending| && Transmit(q, tag, rwnd).pending == q.pending[n..]
    ensures SentOut(q.o, Transmit(q, tag, rwnd).o, tag, ds)
    ensures SentInOrder(q.channels, q.pending[..n], ds, Transmit(q, tag, rwnd).channels)
    ensures n < |q.pending| ==>
              var q', m := Transmit(q, tag, rwnd), q.pending[n];
              CanSend(q'.channels, m.name) && m.data != [] && q'.o.s.flight + |m.data| > rwnd
    decreases |q.pending|
  {
    hide SentOut, EmitMessage, CarriesMessage, FindLabel, BumpSsn;
    if q.pending == [] {
      n, ds := 0, [];
      SentNothing(q.o, tag);
    } else if !CanSend(q.channels, q.pending[0].name) {
      n, ds := TransmitSends(q.(pending := q.pending[1..]), tag, rwnd);
      assert q.pending[1..][n..] == q.pending[n + 1..] && q.pending[..n + 1][1..] == q.pending[1..][..n];
      n := n + 1;
    } else if Blocked(q.o.s, q.pending[0], rwnd) {
      n, ds := 0, [];
      SentNothing(q.o, tag);
    } else {
      var q1 := TransmitOne(q, tag);
      TransmitOneIs(q, tag);
      var part := MessageSent(q.o, tag, q.channels[FindLabel(q.channels, q.pending[0].name)], q.pending[0]);
      n, ds := TransmitSends(q1, tag, rwnd);
      SentThen(q.o, q1.o, Transmit(q, tag, rwnd).o, tag, part, ds);
      assert q.pending[1..][n..] == q.pending[n + 1..] && q.pending[..n + 1][1..] == q.pending[1..][..n];
      SentFirst(q.channels, q.pending[..n + 1], part, ds, Transmit(q, tag, rwnd).channels);
      n, ds := n + 1, part + ds;
    }
  }

  lemma TransmitOneIs(q: Queue, tag: uint32)
    requires q.pending != [] && CanSend(q.channels, q.pending[0].name)
    ensures
      var i, q1 := FindLabel(q.channels, q.pending[0].name), TransmitOne(q, tag);
      && i < |q.channels| && q1.pending == q.pending[1..] && q1.channels == BumpSsn(q.channels, i)
      && q1.o == EmitMessage(q.o, tag, q.channels[i], q.pending[0])
  {
  }

  // A message can be sent when the first channel of its name is open.
  lemma {:induction false} CanSendExactly(cs: seq<Channel>, name: bytes)
    ensures CanSend(cs, name) <==>
            exists i :: 0 <= i < |cs| && cs[i].name == name && cs[i].state == Opened && forall k :: 0 <= k < i ==> cs[k].name != name
    decreases |cs|
  {
    FindLabelFirst(cs, name);
  }

  lemma {:induction false} FindLabelFirst(cs: seq<Channel>, name: bytes)
    ensures forall k :: 0 <= k < FindLabel(cs, name) ==> cs[k].name != name
  {
    if cs != [] && cs[0].name != name {
      FindLabelFirst(cs[1..], name);
      forall k | 0 <= k < FindLabel(cs, name) ensures cs[k].name != name {
        assert k > 0 ==> cs[k] == cs[1..][k - 1];
      }
    }
  }

  // ----- What the peer's window means -----

  lemma {:induction false} EmitFlight(o: Output, tag: uint32, c: Channel, m: Outgoing, n: nat)
    requires n <= FragmentCount(|m.data|) && o.s.flight + Cut(|m.data|, n) < WORD
    ensures EmitFragments(o, tag, c, m, n).s.flight == o.s.flight + Cut(|m.data|, n)
  {
    hide FragmentCount, FlagsAt, Cut, Emit;
    if n > 0 {
      CutsGrow(|m.data|, n - 1);
      EmitFlight(o, tag, c, m, n - 1);
      var before := EmitFragments(o, tag, c, m, n - 1);
      EmitAdds(before, tag, DataFrom(FragmentAt(Message(PpidFor(m), m.data), c.sendSsn, c.unordered, n - 1), before.s.current, c.streamId));
    } else {
      CutEnds(|m.data|);
    }
  }

  lemma EmitAdds(o: Output, tag: uint32, d: Data)
    requires o.s.flight + |d.payload| < WORD
    ensures Emit(o, tag, d).s.flight == o.s.flight + |d.payload|
  {
  }

  lemma TransmitOneFlight(q: Queue, tag: uint32)
    requires q.pending != [] && CanSend(q.channels, q.pending[0].name) && q.o.s.flight + |q.pending[0].data| < WORD
    ensures TransmitOne(q, tag).o.s.flight == q.o.s.flight + |q.pending[0].data|
  {
    var i, m := FindLabel(q.channels, q.pending[0].name), q.pending[0];
    EmitFlight(q.o, tag, q.channels[i], m, FragmentCount(|m.data|));
  }

  // Flow control: sending from the queue never takes the bytes in flight past the peer's window.
  lemma {:induction false} TransmitWithinWindow(q: Queue, tag: uint32, rwnd: uint32)
    ensures Transmit(q, tag, rwnd).o.s.flight <= q.o.s.flight || Transmit(q, tag, rwnd).o.s.flight <= rwnd
    decreases |q.pending|
  {
    if q.pending != [] {
      hide TransmitOne;
      if !CanSend(q.channels, q.pending[0].name) {
        TransmitWithinWindow(q.(pending := q.pending[1..]), tag, rwnd);
      } else if !Blocked(q.o.s, q.pending[0], rwnd) {
        TransmitOneFlight(q, tag);
        TransmitShrinks(q, tag);
        TransmitWithinWindow(TransmitOne(q, tag), tag, rwnd);
      }
    }
  }

  lemma TransmitShrinks(q: Queue, tag: uint32)
    requires q.pending != [] && CanSend(q.channels, q.pending[0].name)
    ensures |TransmitOne(q, tag).pending| < |q.pending|
  {
  }

  // A message larger than the peer's window is not sent even with nothing in flight, and holds up the
  // whole queue behind it.
  lemma LargeMessageBlocks(q: Queue, tag: uint32, rwnd: uint32)
    requires q.pending != [] && CanSend(q.channels, q.pending[0].name)
    ensures |q.pending[0].data| > rwnd ==> Transmit(q, tag, rwnd) == q
    ensures Transmit(q, tag, rwnd) == q <==> Blocked(q.o.s, q.pending[0], rwnd)
  {
    if !Blocked(q.o.s, q.pending[0], rwnd) {
      TransmitShrinks(q, tag);
      TransmitTakes(TransmitOne(q, tag), tag, rwnd);
    }
  }

  // An acknowledgement, with the peer's window, or a message from the application.
  datatype QueueEvent = Acknowledged(sack: Sack, rwnd: uint32, newly: bool) | Submitted(m: Outgoing)

  // The queue and the peer's window after an event.
  function OnEvent(q: Queue, tag: uint32, rwnd: uint32, e: QueueEvent): (Queue, uint32) {
    match e
    case Acknowledged(sack, rwnd, newly) =>
      var acked := q.(o := q.o.(s := AfterSack(q.o.s, sack)));
      (if newly then Transmit(acked, tag, rwnd) else acked, rwnd)
    case Submitted(m) =>
      if !CanSend(q.channels, m.name) then (q, rwnd)
      else if Blocked(q.o.s, m, rwnd) then (q.(pending := q.pending + [m]), rwnd)
      else
        var i := FindLabel(q.channels, m.name);
        (q.(o := EmitMessage(q.o, tag, q.channels[i], m), channels := BumpSsn(q.channels, i)), rwnd)
  }

  function OnEvents(q: Queue, tag: uint32, rwnd: uint32, es: seq<QueueEvent>): Queue
    decreases |es|
  {
    if es == [] then q
    else
      var next := OnEvent(q, tag, rwnd, es[0]);
      OnEvents(next.0, tag, next.1, es[1..])
  }

  lemma {:induction false} BumpKeepsOpen(cs: seq<Channel>, i: nat, name: bytes)
    requires i < |cs|
    ensures FindLabel(BumpSsn(cs, i), name) == FindLabel(cs, name) && CanSend(BumpSsn(cs, i), name) == CanSend(cs, name)
    decreases |cs|
  {
    if i > 0 {
      BumpKeepsOpen(cs[1..], i - 1, name);
      assert BumpSsn(cs, i)[1..] == BumpSsn(cs[1..], i - 1);
    } else {
      assert BumpSsn(cs, i)[1..] == cs[1..];
    }
  }

  // Over every run in which the peer's window stays smaller than the message at the front of the queue,
  // neither it nor anything behind it is sent, whatever is acknowledged.
  lemma {:induction false} LargeMessageStays(q: Queue, tag: uint32, rwnd: uint32, es: seq<QueueEvent>)
    requires q.pending != [] && CanSend(q.channels, q.pending[0].name)
    requires forall k :: 0 <= k < |es| && es[k].Acknowledged? ==> es[k].rwnd < |q.pending[0].data|
    ensures q.pending <= OnEvents(q, tag, rwnd, es).pending
    decreases |es|
  {
    hide EmitMessage, FindLabel, CanSend, BumpSsn, AfterSack;
    if es != [] {
      var next := OnEvent(q, tag, rwnd, es[0]);
      if es[0].Acknowledged? {
        LargeMessageBlocks(q.(o := q.o.(s := AfterSack(q.o.s, es[0].sack))), tag, es[0].rwnd);
      } else if CanSend(q.channels, es[0].m.name) && !Blocked(q.o.s, es[0].m, rwnd) {
        LabelFound(q.channels, es[0].m.name);
        BumpKeepsOpen(q.channels, FindLabel(q.channels, es[0].m.name), q.pending[0].name);
      }
      LargeMessageStays(next.0, tag, next.1, es[1..]);
    }
  }

  lemma LabelFound(cs: seq<Channel>, name: bytes)
    requires CanSend(cs, name)
    ensures FindLabel(cs, name) < |cs|
  {
  }

  lemma {:induction false} TransmitTakes(q: Queue, tag: uint32, rwnd: uint32)
    ensures |Transmit(q, tag, rwnd).pending| <= |q.pending|
    decreases |q.pending|
  {
    if q.pending != [] {
      if !CanSend(q.channels, q.pending[0].name) {
        TransmitTakes(q.(pending := q.pending[1..]), tag, rwnd);
      } else if !Blocked(q.o.s, q.pending[0], rwnd) {
        TransmitTakes(TransmitOne(q, tag), tag, rwnd);
      }
    }
  }

  // ----- Receiving -----

  predicate IsUserData(ppid: uint32) {
    ppid == PPID_STRING || ppid == PPID_STRING_EMPTY || ppid == PPID_BINARY || ppid == PPID_BINARY_EMPTY
  }

  function NoticesFor(name: bytes, msgs: seq<Message>): seq<Notice> {
    if msgs == [] then []
    else
      var m := msgs[|msgs| - 1];
      NoticesFor(name, msgs[..|msgs| - 1])
      + [if m.ppid == PPID_STRING || m.ppid == PPID_STRING_EMPTY then TextReceived(name, m.data)
         else BinaryReceived(name, m.data)]
  }

  lemma NoticesNext(before: seq<Notice>, name: bytes, msgs: seq<Message>, k: nat)
    requires k < |msgs|
    ensures
      var m := msgs[k];
      before + NoticesFor(name, msgs[..k + 1]) ==
        before + NoticesFor(name, msgs[..k])
        + [if m.ppid == PPID_STRING || m.ppid == PPID_STRING_EMPTY then TextReceived(name, m.data)
           else BinaryReceived(name, m.data)]
  {
    assert msgs[..k + 1][..k] == msgs[..k];
  }

  // What the application side looks like after a chunk: channels, and what the listener was told.
  datatype App = App(channels: seq<Channel>, notices: seq<Notice>)

  function Routed(a: App, d: Data): App {
    var i := FindStream(a.channels, d.streamId);
    if i == |a.channels| then a
    else
      var c := a.channels[i];
      var (buffer, msgs) := Accept(c.buffer, Fragment(d.ssn, d.flags, d.ppid, d.payload), c.unordered);
      App(a.channels[i := c.(buffer := buffer)], a.notices + NoticesFor(c.name, msgs))
  }

  datatype Control = Ignored | Acknowledges | Opens(name: bytes, unordered: bool)

  function ParseControl(payload: bytes): Control {
    if payload == [] then Ignored
    else if payload[0] == DCEP_ACK then Acknowledges
    else if payload[0] != DCEP_OPEN || |payload| < 12 then Ignored
    else
      var size := ReadU16(payload[8..]);
      if size > |payload| - 12 then Ignored
      else Opens(payload[12..12 + size], payload[1] >= 0x80)
  }

  // The open message for an ordered, reliable channel.
  function OpenPayload(name: bytes): bytes {
    [DCEP_OPEN, 0, 1, 0, 0, 0, 0, 0] + WriteU16(|name| % 0x1_0000) + [0, 0] + name
  }

  // The name's length is cut to 16 bits, so exactly the names that fit come through.
  lemma OpenRoundTrip(name: bytes)
    ensures ParseControl(OpenPayload(name)) == Opens(name, false) <==> |name| < 0x1_0000
  {
    var head: bytes := [DCEP_OPEN, 0, 1, 0, 0, 0, 0, 0];
    var p, size := OpenPayload(name), WriteU16(|name| % 0x1_0000);
    assert p[8..] == size + ([0, 0] + name);
    ReadWriteU16(|name| % 0x1_0000, [0, 0] + name);
    assert p[12..] == name && p[12..12 + |name| % 0x1_0000] == name[..|name| % 0x1_0000];
    assert p[0] == DCEP_OPEN && p[1] == 0;
  }

  function FindOpening(cs: seq<Channel>, streamId: uint16): (i: nat)
    ensures i <= |cs|
    ensures i < |cs| ==> cs[i].streamId == streamId && cs[i].state == Opening
  {
    if cs == [] then 0
    else if cs[0].streamId == streamId && cs[0].state == Opening then 0
    else 1 + FindOpening(cs[1..], streamId)
  }

  // Control messages take their stream sequence number from the receive buffer.
  function Controlled(a: App, d: Data): App {
    match ParseControl(d.payload)
    case Ignored => a
    case Acknowledges =>
      var i := FindOpening(a.channels, d.streamId);
      if i == |a.channels| then a
      else
        var c := a.channels[i];
        App(a.channels[i := c.(state := Opened, buffer := Consume(c.buffer, d.ssn))],
            a.notices + [ChannelOpened(c.name)])
    case Opens(name, unordered) =>
      App(a.channels + [Channel(name, d.streamId, unordered, Opened, Consume(Buffer(0, map[]), d.ssn), 0)],
          a.notices + [ChannelOpened(name)])
  }

  function ControlChunk(tsn: uint32, streamId: uint16, payload: bytes): Data {
    Data(tsn, FLAG_COMPLETE, streamId, 0, PPID_DCEP, payload)
  }

  // A chunk taken for the first time: the application side, and the packets sent after the acknowledgement.
  function AfterNewData(a: App, o: Output, tag: uint32, d: Data): (App, Output) {
    if IsUserData(d.ppid) then (Routed(a, d), o)
    else if d.ppid != PPID_DCEP then (a, o)
    else if ParseControl(d.payload).Opens? then
      (Controlled(a, d), Emit(o, tag, ControlChunk(o.s.current, d.streamId, [DCEP_ACK])))
    else (Controlled(a, d), o)
  }

  // The channels' open messages, in order.
  function EmitOpens(o: Output, tag: uint32, cs: seq<Channel>, n: nat): Output
    requires n <= |cs|
  {
    if n == 0 then o
    else
      var before := EmitOpens(o, tag, cs, n - 1);
      Emit(before, tag, ControlChunk(before.s.current, cs[n - 1].streamId, OpenPayload(cs[n - 1].name)))
  }

  // ----- Opening channels -----

  // The open messages go out one for each channel, under stream sequence number 0.
  lemma {:induction false} OpensSent(o: Output, tag: uint32, cs: seq<Channel>, n: nat) returns (ds: seq<Data>)
    requires n <= |cs|
    ensures SentOut(o, EmitOpens(o, tag, cs, n), tag, ds)
    ensures |ds| == n && forall k :: 0 <= k < n ==> ds[k] == ControlChunk((o.s.current + k) % WORD, cs[k].streamId, OpenPayload(cs[k].name))
  {
    hide SentOut, OpenPayload, Emit;
    if n == 0 {
      ds := [];
      SentNothing(o, tag);
    } else {
      var before := EmitOpens(o, tag, cs, n - 1);
      ds := OpensSent(o, tag, cs, n - 1);
      SentCurrent(o, before, tag, ds);
      var d := ControlChunk(before.s.current, cs[n - 1].streamId, OpenPayload(cs[n - 1].name));
      SentOne(before, tag, d);
      SentThen(o, before, Emit(before, tag, d), tag, ds, [d]);
      ds := ds + [d];
    }
  }

  lemma {:induction false} FindOpeningFirst(cs: seq<Channel>, streamId: uint16)
    ensures forall k :: 0 <= k < FindOpening(cs, streamId) ==> cs[k].streamId != streamId || cs[k].state != Opening
  {
    if cs != [] && !(cs[0].streamId == streamId && cs[0].state == Opening) {
      FindOpeningFirst(cs[1..], streamId);
      forall k | 0 <= k < FindOpening(cs, streamId) ensures cs[k].streamId != streamId || cs[k].state != Opening {
        assert k > 0 ==> cs[k] == cs[1..][k - 1];
      }
    }
  }

  // Opening a channel, both ends: the open message makes the peer add an open channel of that name and
  // answer; the answer opens the channel that waits for it, and nothing else. Both sides tell the
  // application, and both have used up stream sequence number 0.
  lemma ChannelHandshake(a: App, i: nat, b: App, o: Output, tag: uint32, t: uint32, u: uint32, oa: Output, tagA: uint32)
    requires i < |a.channels| && a.channels[i].state == Opening && |a.channels[i].name| < 0x1_0000
    requires forall k :: 0 <= k < i ==> a.channels[k].streamId != a.channels[i].streamId || a.channels[k].state != Opening
    requires a.channels[i].buffer == Buffer(0, map[])
    ensures
      var c := a.channels[i];
      var peer := AfterNewData(b, o, tag, Data(t, 3, c.streamId, 0, 50, OpenPayload(c.name)));
      && peer.0 == App(b.channels + [Channel(c.name, c.streamId, false, Opened, Buffer(1, map[]), 0)],
                         b.notices + [ChannelOpened(c.name)])
      && SentOut(o, peer.1, tag, [Data(o.s.current, 3, c.streamId, 0, 50, [2])])
      && AfterNewData(a, oa, tagA, Data(u, 3, c.streamId, 0, 50, [2]))
         == (App(a.channels[i := c.(state := Opened, buffer := Buffer(1, map[]))], a.notices + [ChannelOpened(c.name)]), oa)
  {
    hide OpenPayload, SentOut, Emit;
    var c := a.channels[i];
    OpenRoundTrip(c.name);
    FindOpeningFirst(a.channels, c.streamId);
    FindOpeningFound(a.channels, i);
    SentOne(o, tag, ControlChunk(o.s.current, c.streamId, [DCEP_ACK]));
  }

  // The open message of RFC 8832, section 5.1: message type, channel type, priority and reliability, the
  // lengths of label and protocol, label, protocol.
  function OpenMessage(kind: uint8, middle: bytes, name: bytes, protocol: bytes): bytes
    requires |name| < 0x1_0000 && |protocol| < 0x1_0000
  {
    [3, kind] + middle + WriteU16(|name|) + WriteU16(|protocol|) + name + protocol
  }

  // Any such message is read: the top bit of the channel type says that order does not matter.
  lemma OpenMessageRead(kind: uint8, middle: bytes, name: bytes, protocol: bytes)
    requires |middle| == 6 && |name| < 0x1_0000 && |protocol| < 0x1_0000
    ensures ParseControl(OpenMessage(kind, middle, name, protocol)) == Opens(name, kind >= 128)
  {
    var p := OpenMessage(kind, middle, name, protocol);
    assert p[8..] == WriteU16(|name|) + (WriteU16(|protocol|) + name + protocol);
    ReadWriteU16(|name|, WriteU16(|protocol|) + name + protocol);
    assert p[12..] == name + protocol && p[12..12 + |name|] == name;
  }

  // The channel a peer opens has the order it asked for, and the peer is answered.
  lemma PeerOpens(a: App, o: Output, tag: uint32, d: Data, kind: uint8, middle: bytes, name: bytes, protocol: bytes)
    requires |middle| == 6 && |name| < 0x1_0000 && |protocol| < 0x1_0000
    requires d.ppid == 50 && d.payload == OpenMessage(kind, middle, name, protocol)
    ensures
      var (a', o') := AfterNewData(a, o, tag, d);
      && a'.notices == a.notices + [ChannelOpened(name)] && |a'.channels| == |a.channels| + 1
      && a.channels <= a'.channels
      && var c := a'.channels[|a.channels|];
         && c.name == name && c.streamId == d.streamId && c.state == Opened && c.unordered == (kind >= 128)
         && c.buffer == Buffer(if d.ssn == 0 then 1 else 0, map[])
         && SentOut(o, o', tag, [Data(o.s.current, 3, d.streamId, 0, 50, [2])])
  {
    hide OpenMessage, SentOut, Emit, ParseControl;
    OpenMessageRead(kind, middle, name, protocol);
    SentOne(o, tag, ControlChunk(o.s.current, d.streamId, [DCEP_ACK]));
  }

  lemma {:induction false} FindOpeningFound(cs: seq<Channel>, i: nat)
    requires i < |cs| && cs[i].state == Opening
    requires forall k :: 0 <= k < i ==> cs[k].streamId != cs[i].streamId || cs[k].state != Opening
    ensures FindOpening(cs, cs[i].streamId) == i
    decreases i
  {
    if i > 0 {
      FindOpeningFound(cs[1..], i - 1);
    }
  }
}
