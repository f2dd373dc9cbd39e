// The association: handshake, sending, acknowledging, receiving (src/sctp/sctp_session.cpp).
module SctpSession {
  import opened Wire
  import opened SctpSerial
  import opened SctpAcks
  import opened SctpSender
  import opened SctpNetwork
  import opened SctpReassembly
  import opened SctpChannels
  import SctpPacket

  const MAX_INIT_RETRANSMITS := 8

  // ----- Handshake -----

  datatype State = New | CookieWait | CookieEchoed | Established

  // The delay before retransmission `iteration` of an INIT or COOKIE ECHO, in milliseconds.
  function Delay(iteration: nat): (ms: nat)
    ensures 250 <= ms <= 60000
  {
    if iteration == 0 then 250
    else if Delay(iteration - 1) * 3 / 2 >= 60000 then 60000
    else Delay(iteration - 1) * 3 / 2
  }

  // A quarter of a second at first, half as long again each time, a minute at most.
  lemma {:induction false} DelayGrows(n: nat)
    ensures Delay(0) == 250 && Delay(n) <= Delay(n + 1) <= 60000 && Delay(n + 1) <= Delay(n) * 3 / 2
    ensures Delay(n + 1) == Delay(n) * 3 / 2 || Delay(n + 1) == 60000
  {
  }

  method RetransmitDelay(iteration: nat) returns (delay: nat)
    ensures delay == Delay(iteration)
  {
    delay := 250;
    for i := 0 to iteration
      invariant delay == Delay(i) && delay < 60000
    {
      delay := delay * 3 / 2;
      if delay >= 60000 {
        DelayCapped(i + 1, iteration);
        return 60000;
      }
    }
  }

  lemma {:induction false} DelayCapped(i: nat, n: nat)
    requires i <= n && Delay(i) == 60000
    ensures Delay(n) == 60000
  {
    if i < n {
      DelayCapped(i, n - 1);
    }
  }

  lemma DuplicateUntaken(r: Receiver, tsn: uint32)
    requires Duplicate(r, tsn)
    ensures Take(r, tsn) == r
  {
  }

  lemma AdvanceOne(r: Receiver)
    ensures Next(r.cum) in r.early ==> Advance(r) == Advance(Receiver(Next(r.cum), r.early - {Next(r.cum)}))
    ensures Next(r.cum) !in r.early ==> Advance(r) == r
  {
  }

  lemma SortedNone(cum: uint32)
    ensures Sorted({}, cum) == []
  {
  }

  // std::sort by distance from the cumulative number.
  method SortByDistance(s: set<uint32>, cum: uint32) returns (r: seq<uint32>)
    ensures r == Sorted(s, cum)
  {
    hide Distance;
    var left := s;
    r := [];
    while left != {}
      invariant Sorted(s, cum) == r + Sorted(left, cum)
      decreases left
    {
      NearestExists(left, cum);
      assert exists x :: x in left && forall y :: y in left ==> Distance(x, cum) <= Distance(y, cum) by {
        var x :| IsNearest(x, left, cum);
        assert x in left;
      }
      var x :| x in left && forall y :: y in left ==> Distance(x, cum) <= Distance(y, cum);
      NearestUnique(left, cum, x, Nearest(left, cum));
      r := r + [x];
      left := left - {x};
    }
  }

  method MakeBlocks(tsns: seq<uint32>, cum: uint32) returns (gapBlocks: seq<Gap>)
    ensures gapBlocks == Blocks(Offsets(tsns, cum))
  {
    gapBlocks := [];
    var blockStart: uint16, blockEnd: uint16, inBlock := 0, 0, false;
    for k := 0 to |tsns|
      invariant inBlock == (k > 0)
      invariant gapBlocks + (if inBlock then [Gap(blockStart, blockEnd)] else []) == Blocks(Offsets(tsns[..k], cum))
    {
      var offset: uint16 := (tsns[k] - cum) % 0x1_0000;
      BlocksNext(tsns, cum, k);
      ghost var now := gapBlocks + if inBlock then [Gap(blockStart, blockEnd)] else [];
      if !inBlock {
        blockStart, blockEnd := offset, offset;
        inBlock := true;
      } else if offset == (blockEnd + 1) % 0x1_0000 {
        assert now[..|now| - 1] == gapBlocks;
        blockEnd := offset;
      } else {
        gapBlocks := gapBlocks + [Gap(blockStart, blockEnd)];
        blockStart, blockEnd := offset, offset;
      }
    }
    assert tsns[..|tsns|] == tsns;
    if inBlock {
      gapBlocks := gapBlocks + [Gap(blockStart, blockEnd)];
    }
  }

  lemma BlocksNext(tsns: seq<uint32>, cum: uint32, k: nat)
    requires k < |tsns|
    ensures Blocks(Offsets(tsns[..k + 1], cum)) == Grow(Blocks(Offsets(tsns[..k], cum)), (tsns[k] - cum) % 0x1_0000)
  {
    hide Grow;
    var offs, o := Offsets(tsns[..k], cum), Offset(tsns[k], cum);
    assert tsns[..k + 1][..k] == tsns[..k];
    assert Offsets(tsns[..k + 1], cum) == offs + [o];
    assert (offs + [o])[..|offs|] == offs;
  }

  lemma CumTsnBefore(initial: uint32)
    ensures CumTsn(initial, 0) == (initial - 1) % 0x1_0000_0000
  {
  }

  predicate IsOpen(d: Data, c: Channel) {
    d.flags == 3 && d.streamId == c.streamId && d.ssn == 0 && d.ppid == 50 && d.payload == OpenPayload(c.name)
  }

  lemma OpensNone(o: Output, tag: uint32, cs: seq<Channel>)
    ensures EmitOpens(o, tag, cs, 0) == o
  {
  }

  lemma OpensNext(o: Output, tag: uint32, cs: seq<Channel>, k: nat)
    requires k < |cs|
    ensures
      var before := EmitOpens(o, tag, cs, k);
      EmitOpens(o, tag, cs, k + 1) == Emit(before, tag, ControlChunk(before.s.current, cs[k].streamId, OpenPayload(cs[k].name)))
  {
  }

  // The first `n` channels wait for their acknowledgement; nothing else about them has changed.
  ghost predicate AllOpening(before: seq<Channel>, after: seq<Channel>, n: nat) {
    && |after| == |before| && n <= |before|
    && forall k :: 0 <= k < |before| ==> after[k] == if k < n then before[k].(state := Opening) else before[k]
  }

  class SctpSession {
    const initiateTag: uint32
    const initialTsn: uint32
    const maxMessageSize: uint32
    var state: State
    var peerTag: uint32
    var peerRwnd: uint32
    var currentTsn: uint32
    var sentChunks: seq<Data>
    var flightSize: uint32
    var pendingSend: seq<Outgoing>
    var peerCumulativeTsn: uint32
    var peerOutOfOrderTsns: set<uint32>
    var dataChannels: seq<Channel>
    var cookieEchoPacket: Option<Packet>
    // Timers: the iteration the task will run with, or whether it is pending.
    var taskT1Init: Option<nat>
    var taskT1Cookie: Option<nat>
    var taskT3Rtx: bool
    // What the listener has been given.
    var packets: seq<Packet>
    var notices: seq<Notice>
    // Everything ever sent, the indices still in sentChunks, and whether 2^32 bytes were ever in flight.
    ghost var log: seq<Data>
    ghost var kept: set<nat>
    ghost var overflowed: bool

    function ToSender(): Sender reads this { Sender(currentTsn, sentChunks, flightSize, taskT3Rtx) }

    function ToReceiver(): Receiver reads this { Receiver(peerCumulativeTsn, peerOutOfOrderTsns) }

    function ToOutput(): Output reads this { Output(ToSender(), packets) }

    function ToQueue(): Queue reads this { Queue(ToOutput(), dataChannels, pendingSend) }

    // The list and the flight size agree, whatever the timer does.
    ghost predicate Consistent() reads this {
      && ListOk(currentTsn, sentChunks, initialTsn, log, kept)
      && (!overflowed ==> flightSize == Sum(sentChunks))
    }

    // The T1 timers never outlive the state they belong to; T3 runs exactly while a chunk is in flight.
    ghost predicate Valid() reads this {
      && Consistent()
      && (taskT3Rtx <==> sentChunks != [])
      && (taskT1Init.Some? ==> state == CookieWait)
      && (taskT1Cookie.Some? ==> state == CookieEchoed && cookieEchoPacket.Some?)
    }

    constructor (tag: uint32, tsn: uint32, limit: uint32, channels: seq<Channel>)
      ensures Valid() && state == New && ToOutput() == Output(Sender(tsn, [], 0, false), [])
      ensures dataChannels == channels && pendingSend == [] && ToReceiver() == Receiver(0, {})
    {
      initiateTag, initialTsn, maxMessageSize := tag, tsn, limit;
      state, peerTag, peerRwnd, currentTsn := New, 0, 0, tsn;
      sentChunks, flightSize, pendingSend := [], 0, [];
      peerCumulativeTsn, peerOutOfOrderTsns := 0, {};
      dataChannels, cookieEchoPacket := channels, None;
      taskT1Init, taskT1Cookie, taskT3Rtx := None, None, false;
      packets, notices := [], [];
      log, kept, overflowed := [], {}, false;
    }

    method SendFragment(d: Data)
      requires Consistent() && d.tsn == currentTsn
      modifies this`currentTsn, this`sentChunks, this`flightSize, this`packets, this`log, this`kept, this`overflowed
      ensures Consistent() && (overflowed ==> old(overflowed) || Sum(old(sentChunks)) + |d.payload| >= WORD)
      ensures Emit(old(ToOutput()), peerTag, d) == WithTimer(ToOutput(), taskT3Rtx || old(sentChunks) == [])
      ensures sentChunks != [] && Sum(sentChunks) == Sum(old(sentChunks)) + |d.payload|
      ensures packets == old(packets) + [DataPacket(peerTag, d)] && sentChunks == old(sentChunks) + [d]
    {
      hide ListOk, Sum;
      ListSend(currentTsn, sentChunks, initialTsn, log, kept, d);
      SumSnoc(sentChunks, d);
      overflowed := overflowed || Sum(sentChunks) + |d.payload| >= WORD;
      log, kept := log + [d], kept + {|log|};
      currentTsn := (currentTsn + 1) % 0x1_0000_0000;
      packets := packets + [DataPacket(peerTag, d)];
      sentChunks := sentChunks + [d];
      flightSize := (flightSize + |d.payload|) % 0x1_0000_0000;
    }

    method SendMessageNow(index: nat, message: Outgoing)
      requires Valid() && index < |dataChannels|
      modifies this`currentTsn, this`sentChunks, this`flightSize, this`packets, this`log, this`kept, this`overflowed,
               this`taskT3Rtx, this`dataChannels
      ensures Valid() && (overflowed ==> old(overflowed) || Sum(old(sentChunks)) + |message.data| >= WORD)
      ensures ToOutput() == EmitMessage(old(ToOutput()), peerTag, old(dataChannels[index]), message)
      ensures exists ds :: SentOut(old(ToOutput()), ToOutput(), peerTag, ds) && CarriesMessage(ds, old(dataChannels[index]), message)
      ensures dataChannels == BumpSsn(old(dataChannels), index)
    {
      hide ListOk, Sum, FragmentCount, EmitFragments, SentOut, CarriesMessage;
      ghost var ds := MessageSent(ToOutput(), peerTag, dataChannels[index], message);
      var channel := dataChannels[index];
      dataChannels := dataChannels[index := channel.(sendSsn := (channel.sendSsn + 1) % 0x1_0000)];
      var wasEmpty := sentChunks == [];
      SendFragments(channel, message);
      if wasEmpty {
        taskT3Rtx := true;
      }
    }
  
    method SendFragments(channel: Channel, message: Outgoing)
      requires Consistent() && (taskT3Rtx <==> sentChunks != [])
      modifies this`currentTsn, this`sentChunks, this`flightSize, this`packets, this`log, this`kept, this`overflowed
      ensures Consistent() && (overflowed ==> old(overflowed) || Sum(old(sentChunks)) + |message.data| >= WORD)
      ensures sentChunks != []
      ensures EmitMessage(old(ToOutput()), peerTag, channel, message) == WithTimer(ToOutput(), true)
    {
      hide ListOk, FragmentAt, FragmentCount, FlagsAt, Cut, Sum, Emit, EmitFragments;
      ghost var m, o := Message(PpidFor(message), message.data), ToOutput();
      ghost var count := FragmentCount(|message.data|);
      var ppid, ssn, streamId := PpidFor(message), channel.sendSsn, channel.streamId;
      var unorderedFlag: uint8 := if channel.unordered then FLAG_UNORDERED else 0;
      var payloadSize := |message.data|;
      if payloadSize <= MAX_FRAGMENT {
        EmitSingle(o, peerTag, channel, message);
        SendFragment(Data(currentTsn, FLAG_COMPLETE + unorderedFlag, streamId, ssn, ppid, message.data));
      } else {
        var offset, isFirst := 0, true;
        ghost var j := 0;
        CutEnds(payloadSize);
        EmitNone(o, peerTag, channel, message);
        while offset < payloadSize
          invariant Consistent() && 0 <= j <= count && offset == Cut(payloadSize, j) && isFirst == (j == 0)
          invariant overflowed ==> old(overflowed) || Sum(old(sentChunks)) + offset >= WORD
          invariant Sum(sentChunks) == Sum(old(sentChunks)) + offset
          invariant j > 0 ==> sentChunks != []
          invariant j == 0 ==> ToOutput() == o
          invariant EmitFragments(o, peerTag, channel, message, j) == WithTimer(ToOutput(), taskT3Rtx || j > 0)
          decreases payloadSize - offset
        {
          var fragSize := if payloadSize - offset < MAX_FRAGMENT then payloadSize - offset else MAX_FRAGMENT;
          var isLast := offset + fragSize >= payloadSize;
          var flags: uint8 := unorderedFlag + (if isFirst then FLAG_B else 0) + (if isLast then FLAG_E else 0);
          FragmentIs(m, ssn, channel.unordered, j, offset, fragSize);
          var d := Data(currentTsn, flags, streamId, ssn, ppid, message.data[offset..offset + fragSize]);
          EmitNext(o, peerTag, channel, message, j, ToOutput(), taskT3Rtx || j > 0, d);
          SendFragment(d);
          offset := offset + fragSize;
          isFirst := false;
          j := j + 1;
        }
        CutAll(payloadSize, j);
      }
    }
  
    method Send(message: Outgoing)
      requires Valid()
      modifies this
      ensures Valid() && state == old(state) && (old(state) == Established && !old(overflowed) ==> !overflowed)
      ensures
        var allowed := old(state) == Established && CanSend(old(dataChannels), message.name)
                       && (maxMessageSize == 0 || |message.data| <= maxMessageSize);
        ToQueue() ==
          if !allowed then old(ToQueue())
          else if Blocked(old(ToSender()), message, peerRwnd) then old(ToQueue().(pending := pendingSend + [message]))
          else TransmitOne(old(ToQueue().(pending := [message])), peerTag).(pending := old(pendingSend))
      ensures
        old(state) == Established && CanSend(old(dataChannels), message.name)
        && (maxMessageSize == 0 || |message.data| <= maxMessageSize)
        && (message.data == [] || old(flightSize) + |message.data| <= peerRwnd) ==>
          exists ds :: SentOut(old(ToOutput()), ToOutput(), peerTag, ds)
                       && CarriesMessage(ds, old(dataChannels[FindLabel(dataChannels, message.name)]), message)
      ensures ToReceiver() == old(ToReceiver()) && peerRwnd == old(peerRwnd) && peerTag == old(peerTag)
    {
      hide EmitMessage, FindLabel, ListOk, Sum, SentOut, CarriesMessage;
      if state != Established {
        return;
      }
      var index := FindLabel(dataChannels, message.name);
      if index == |dataChannels| || dataChannels[index].state != Opened {
        return;
      }
      var payloadSize := |message.data|;
      if maxMessageSize > 0 && payloadSize > maxMessageSize {
        return;
      }
      if payloadSize > 0 && flightSize + payloadSize > peerRwnd {
        pendingSend := pendingSend + [message];
        return;
      }
      SendMessageNow(index, message);
    }

    method TransmitPending()
      requires Valid()
      modifies this`currentTsn, this`sentChunks, this`flightSize, this`packets, this`log, this`kept, this`overflowed,
               this`taskT3Rtx, this`dataChannels, this`pendingSend
      ensures Valid() && (!old(overflowed) ==> !overflowed)
      ensures ToQueue() == Transmit(old(ToQueue()), peerTag, peerRwnd)
      ensures exists n, ds :: 0 <= n <= |old(pendingSend)| && pendingSend == old(pendingSend)[n..]
                              && SentOut(old(ToOutput()), ToOutput(), peerTag, ds)
                              && SentInOrder(old(dataChannels), old(pendingSend)[..n], ds, dataChannels)
    {
      hide EmitMessage, FindLabel, ListOk, Sum, Transmit, SentOut, SentInOrder, CarriesMessage;
      ghost var q := ToQueue();
      ghost var n, ds := TransmitSends(q, peerTag, peerRwnd);
      while pendingSend != []
        invariant Valid() && (!old(overflowed) ==> !overflowed)
        invariant Transmit(ToQueue(), peerTag, peerRwnd) == Transmit(q, peerTag, peerRwnd)
        decreases |pendingSend|
      {
        TransmitStep(ToQueue(), peerTag, peerRwnd);
        var msg := pendingSend[0];
        var index := FindLabel(dataChannels, msg.name);
        if index == |dataChannels| || dataChannels[index].state != Opened {
          pendingSend := pendingSend[1..];
        } else {
          var payloadSize := |msg.data|;
          if payloadSize > 0 && flightSize + payloadSize > peerRwnd {
            break;
          }
          SendMessageNow(index, msg);
          pendingSend := pendingSend[1..];
        }
      }
      TransmitDone(ToQueue(), peerTag, peerRwnd);
    }
  
    // One walk over the list of sent chunks; true when it erased any.
    method EraseAcked(t: Test) returns (any: bool)
      modifies this`sentChunks, this`flightSize
      ensures Window(sentChunks, flightSize) == AfterPass(old(Window(sentChunks, flightSize)), t)
      ensures |sentChunks| <= |old(sentChunks)| && (any <==> |sentChunks| < |old(sentChunks)|)
    {
      hide Pass, PassFlight, Hits;
      ghost var all, flight, j := sentChunks, flightSize, 0;
      var it := 0;
      any := false;
      PassNone(flight, t);
      while it != |sentChunks|
        invariant 0 <= j <= |all| && it <= |sentChunks| && it <= j && any == (it < j)
        invariant sentChunks[..it] == Pass(all[..j], t) && sentChunks[it..] == all[j..]
        invariant flightSize == PassFlight(flight, all[..j], t)
        decreases |all| - j
      {
        var chunk := sentChunks[it];
        WalkNext(sentChunks, it, all, j);
        PassLast(all[..j], chunk, t, flight);
        if Covered(t, chunk) {
          flightSize := if flightSize >= |chunk.payload| then flightSize - |chunk.payload| else 0;
          EraseAt(it, sentChunks);
          sentChunks := sentChunks[..it] + sentChunks[it + 1..];
          any := true;
        } else {
          it := it + 1;
        }
        j := j + 1;
      }
      assert all[..j] == all && sentChunks[..it] == sentChunks;
    }

    method EraseAllAcked(sack: Sack) returns (any: bool)
      modifies this`sentChunks, this`flightSize
      ensures Window(sentChunks, flightSize) == AfterPasses(old(Window(sentChunks, flightSize)), sack, |sack.gaps|)
      ensures |sentChunks| <= |old(sentChunks)| && (any <==> |sentChunks| < |old(sentChunks)|)
    {
      hide AfterPasses, AfterPass;
      ghost var w := Window(sentChunks, flightSize);
      any := EraseAcked(UpTo(sack.cum));
      PassesStart(w, sack);
      for i := 0 to |sack.gaps|
        invariant Window(sentChunks, flightSize) == AfterPasses(w, sack, i)
        invariant |sentChunks| <= |w.sent| && any == (|sentChunks| < |w.sent|)
      {
        PassesNext(w, sack, i);
        var erased := EraseAcked(Between(sack.cum, sack.gaps[i]));
        any := any || erased;
      }
    }

    method Acknowledge(sack: Sack) returns (any: bool)
      requires Valid()
      modifies this`sentChunks, this`flightSize, this`taskT3Rtx, this`kept
      ensures Valid() && ToSender() == AfterSack(old(ToSender()), sack) && any == (sentChunks != old(sentChunks))
    {
      hide AfterPasses, AfterPass, Unacked, Left, ListOk, Sum;
      ghost var s, w := ToSender(), Window(sentChunks, flightSize);
      any := EraseAllAcked(sack);
      if sentChunks == [] {
        taskT3Rtx := false;
      } else if any {
        taskT3Rtx := true;
      }
      SackKeepsUnacked(s, sack);
      UnackedShorter(w.sent, sack);
      ListSack(currentTsn, w.sent, initialTsn, log, kept, sack);
      kept := Left(log, kept, sack);
      if !overflowed {
        PassesSum(w, sack, |sack.gaps|);
      }
    }

    method OnReceiveSack(sack: Sack, aRwnd: uint32)
      requires Valid()
      modifies this
      ensures Valid() && (!old(overflowed) ==> !overflowed)
      ensures
        var q := old(ToQueue()).(o := old(ToOutput()).(s := AfterSack(old(ToSender()), sack)));
        ToQueue() == if q.o.s.sent != old(sentChunks) then Transmit(q, peerTag, aRwnd) else q
      ensures peerRwnd == aRwnd && ToReceiver() == old(ToReceiver()) && state == old(state) && peerTag == old(peerTag)
    {
      hide AfterSack, Transmit, ListOk, Sum;
      peerRwnd := aRwnd;
      var anyNewlyAcked := Acknowledge(sack);
      if anyNewlyAcked {
        TransmitPending();
      }
    }

    // The T3 task: it runs only while it is pending, and is pending no more once it runs.
    method RetransmitOldest()
      requires Valid() && taskT3Rtx
      modifies this`taskT3Rtx, this`packets
      ensures Valid() && ToSender() == old(ToSender())
      ensures sentChunks != [] && packets == old(packets) + [DataPacket(peerTag, sentChunks[0])]
      ensures exists i: nat :: i in kept && i < |log| && sentChunks[0] == log[i] && forall j :: j in kept ==> i <= j
    {
      hide Pick, Sum, Logged, Tsn;
      OldestFirst(log, kept, |log|);
      taskT3Rtx := false;
      if sentChunks == [] {
        return;
      }
      packets := packets + [DataPacket(peerTag, sentChunks[0])];
      taskT3Rtx := true;
    }

    method SendSack()
      modifies this`packets
      ensures packets == old(packets) + [SackPacket(peerTag, SackOf(ToReceiver()))]
    {
      hide Sorted, Distance;
      var gapBlocks: seq<Gap> := [];
      if peerOutOfOrderTsns != {} {
        var tsns := SortByDistance(peerOutOfOrderTsns, peerCumulativeTsn);
        gapBlocks := MakeBlocks(tsns, peerCumulativeTsn);
      } else {
        SortedNone(peerCumulativeTsn);
      }
      packets := packets + [SackPacket(peerTag, Sack(peerCumulativeTsn, gapBlocks))];
    }

    method SendControl(streamId: uint16, payload: bytes)
      requires Valid()
      modifies this`currentTsn, this`sentChunks, this`flightSize, this`packets, this`log, this`kept, this`overflowed,
               this`taskT3Rtx
      ensures Valid() && (overflowed ==> old(overflowed) || Sum(old(sentChunks)) + |payload| >= WORD)
      ensures ToOutput() == Emit(old(ToOutput()), peerTag, ControlChunk(old(currentTsn), streamId, payload))
      ensures SentOut(old(ToOutput()), ToOutput(), peerTag, [Data(old(currentTsn), 3, streamId, 0, 50, payload)])
    {
      hide ListOk, Sum;
      SentOne(ToOutput(), peerTag, ControlChunk(currentTsn, streamId, payload));
      var wasEmpty := sentChunks == [];
      SendFragment(ControlChunk(currentTsn, streamId, payload));
      if wasEmpty {
        taskT3Rtx := true;
      }
    }

    method TakeTsn(tsn: uint32)
      requires !Duplicate(ToReceiver(), tsn)
      modifies this`peerCumulativeTsn, this`peerOutOfOrderTsns
      ensures ToReceiver() == Take(old(ToReceiver()), tsn)
    {
      hide Advance, Least;
      if tsn == (peerCumulativeTsn + 1) % 0x1_0000_0000 {
        ghost var r := Receiver(tsn, peerOutOfOrderTsns);
        peerCumulativeTsn := tsn;
        while true
          invariant Advance(ToReceiver()) == Advance(r)
          decreases |peerOutOfOrderTsns|
        {
          AdvanceOne(ToReceiver());
          var next: uint32 := (peerCumulativeTsn + 1) % 0x1_0000_0000;
          if next !in peerOutOfOrderTsns {
            break;
          }
          peerCumulativeTsn := next;
          peerOutOfOrderTsns := peerOutOfOrderTsns - {next};
        }
        AdvanceOne(ToReceiver());
      } else {
        peerOutOfOrderTsns := peerOutOfOrderTsns + {tsn};
        if |peerOutOfOrderTsns| > 1024 {
          peerOutOfOrderTsns := peerOutOfOrderTsns - {Least(peerOutOfOrderTsns)};
        }
      }
    }

    function ToApp(): App reads this { App(dataChannels, notices) }

    method OnReceiveDataChunk(d: Data)
      requires Valid()
      modifies this
      ensures Valid() && state == old(state) && peerTag == old(peerTag) && pendingSend == old(pendingSend)
      ensures ToReceiver() == Take(old(ToReceiver()), d.tsn)
      ensures
        var o := old(ToOutput()).(packets := old(packets) + [SackPacket(peerTag, SackOf(ToReceiver()))]);
        (ToApp(), ToOutput()) ==
          if Duplicate(old(ToReceiver()), d.tsn) then (old(ToApp()), o) else AfterNewData(old(ToApp()), o, peerTag, d)
    {
      hide ListOk, Sum, SackOf, Take, Routed, Controlled, AfterSend;
      if AtOrBefore(d.tsn, peerCumulativeTsn) || d.tsn in peerOutOfOrderTsns {
        DuplicateUntaken(ToReceiver(), d.tsn);
        SendSack();
        return;
      }
      TakeTsn(d.tsn);
      SendSack();
      if IsUserData(d.ppid) {
        Route(d);
        return;
      }
      if d.ppid != PPID_DCEP {
        return;
      }
      ReceiveControl(d);
      if ParseControl(d.payload).Opens? {
        SendControl(d.streamId, [DCEP_ACK]);
      }
    }

    // A DATA chunk as it comes; one too short for its header is ignored.
    method OnReceiveData(flags: uint8, body: bytes)
      requires Valid()
      modifies this
      ensures Valid() && state == old(state) && peerTag == old(peerTag) && pendingSend == old(pendingSend)
      ensures
        match SctpPacket.ParseData(flags, body)
        case None => ToReceiver() == old(ToReceiver()) && ToApp() == old(ToApp()) && ToOutput() == old(ToOutput())
        case Some(d) =>
          var o := old(ToOutput()).(packets := old(packets) + [SackPacket(peerTag, SackOf(ToReceiver()))]);
          && ToReceiver() == Take(old(ToReceiver()), d.tsn)
          && (ToApp(), ToOutput()) ==
             if Duplicate(old(ToReceiver()), d.tsn) then (old(ToApp()), o) else AfterNewData(old(ToApp()), o, peerTag, d)
    {
      hide ListOk, Sum, SackOf, Take, AfterNewData, Duplicate, ReadU16, ReadU32;
      if |body| < 12 {
        return;
      }
      OnReceiveDataChunk(Data(ReadU32(body), flags, ReadU16(body[4..]), ReadU16(body[6..]), ReadU32(body[8..]), body[12..]));
    }

    method Route(d: Data)
      modifies this`dataChannels, this`notices
      ensures ToApp() == Routed(old(ToApp()), d)
    {
      hide Accept;
      var i := FindStream(dataChannels, d.streamId);
      if i == |dataChannels| {
        return;
      }
      var channel := dataChannels[i];
      var (buffer, messages) := Accept(channel.buffer, Fragment(d.ssn, d.flags, d.ppid, d.payload), channel.unordered);
      dataChannels := dataChannels[i := channel.(buffer := buffer)];
      Notify(channel.name, messages);
    }

    method Notify(name: bytes, messages: seq<Message>)
      modifies this`notices
      ensures notices == old(notices) + NoticesFor(name, messages)
    {
      ghost var before := notices;
      assert notices + [] == notices;
      for k := 0 to |messages|
        invariant notices == before + NoticesFor(name, messages[..k])
      {
        var msg := messages[k];
        NoticesNext(before, name, messages, k);
        if msg.ppid == PPID_STRING || msg.ppid == PPID_STRING_EMPTY {
          notices := notices + [TextReceived(name, msg.data)];
        } else {
          notices := notices + [BinaryReceived(name, msg.data)];
        }
      }
      assert messages[..|messages|] == messages;
    }

    method ReceiveControl(d: Data)
      modifies this`dataChannels, this`notices
      ensures ToApp() == Controlled(old(ToApp()), d)
    {
      match ParseControl(d.payload)
      case Ignored =>
      case Acknowledges =>
        var i := FindOpening(dataChannels, d.streamId);
        if i < |dataChannels| {
          var channel := dataChannels[i];
          dataChannels := dataChannels[i := channel.(state := Opened, buffer := Consume(channel.buffer, d.ssn))];
          notices := notices + [ChannelOpened(channel.name)];
        }
      case Opens(name, unordered) =>
        dataChannels := dataChannels + [Channel(name, d.streamId, unordered, Opened, Consume(Buffer(0, map[]), d.ssn), 0)];
        notices := notices + [ChannelOpened(name)];
    }

    // ----- Handshake -----

    method SendInit(iteration: nat)
      requires Valid() && (state == New || state == CookieWait) && taskT1Cookie.None? && taskT1Init.None?
      modifies this`packets, this`state, this`taskT1Init
      ensures Valid() && ToSender() == old(ToSender())
      ensures
        if iteration > MAX_INIT_RETRANSMITS then state == old(state) && packets == old(packets) && taskT1Init.None?
        else state == CookieWait && packets == old(packets) + [InitPacket(initiateTag, initialTsn)]
             && taskT1Init == Some(iteration + 1)
    {
      if iteration > MAX_INIT_RETRANSMITS {
        return;
      }
      packets := packets + [InitPacket(initiateTag, initialTsn)];
      state := CookieWait;
      taskT1Init := Some(iteration + 1);
    }

    method Start()
      requires Valid() && state == New
      modifies this`packets, this`state, this`taskT1Init
      ensures Valid() && state == CookieWait
      ensures packets == old(packets) + [InitPacket(initiateTag, initialTsn)] && taskT1Init == Some(1)
    {
      SendInit(0);
    }

    // The T1 task for INIT. It can only be pending before the state cookie has come.
    method T1InitFires()
      requires Valid() && taskT1Init.Some?
      modifies this`packets, this`state, this`taskT1Init
      ensures Valid() && state == old(state) == CookieWait
      ensures
        var n := old(taskT1Init.value);
        if n > MAX_INIT_RETRANSMITS then packets == old(packets) && taskT1Init.None?
        else packets == old(packets) + [InitPacket(initiateTag, initialTsn)] && taskT1Init == Some(n + 1)
    {
      var iteration := taskT1Init.value;
      taskT1Init := None;
      SendInit(iteration);
    }

    method SendCookieEcho(iteration: nat)
      requires Valid() && state == CookieEchoed && cookieEchoPacket.Some?
      modifies this`packets, this`taskT1Cookie
      ensures Valid()
      ensures
        if iteration > MAX_INIT_RETRANSMITS then packets == old(packets) && taskT1Cookie == old(taskT1Cookie)
        else packets == old(packets) + [cookieEchoPacket.value] && taskT1Cookie == Some(iteration + 1)
    {
      if iteration > MAX_INIT_RETRANSMITS {
        return;
      }
      packets := packets + [cookieEchoPacket.value];
      taskT1Cookie := Some(iteration + 1);
    }

    method T1CookieFires()
      requires Valid() && taskT1Cookie.Some?
      modifies this`packets, this`taskT1Cookie
      ensures Valid() && state == old(state) == CookieEchoed
      ensures
        var n := old(taskT1Cookie.value);
        if n > MAX_INIT_RETRANSMITS then packets == old(packets) && taskT1Cookie.None?
        else packets == old(packets) + [cookieEchoPacket.value] && taskT1Cookie == Some(n + 1)
    {
      var iteration := taskT1Cookie.value;
      taskT1Cookie := None;
      SendCookieEcho(iteration);
    }

    method OnReceiveInitAck(tag: uint32, rwnd: uint32, peerInitialTsn: uint32, cookie: Option<bytes>)
      requires Valid()
      modifies this`state, this`peerTag, this`peerRwnd, this`peerCumulativeTsn, this`taskT1Init, this`taskT1Cookie,
               this`cookieEchoPacket, this`packets
      ensures Valid() && ToSender() == old(ToSender())
      ensures state == if old(state) == CookieWait && cookie.Some? then CookieEchoed else old(state)
      ensures old(state) != CookieWait ==> unchanged(this)
      ensures old(state) == CookieWait ==>
                && ToReceiver() == Receiver(CumTsn(peerInitialTsn, 0), old(peerOutOfOrderTsns))
                && peerTag == tag && peerRwnd == rwnd
                && (cookie.None? ==> packets == old(packets) && taskT1Init == old(taskT1Init))
                && (cookie.Some? ==>
                      && packets == old(packets) + [CookieEchoPacket(tag, cookie.value)]
                      && cookieEchoPacket == Some(CookieEchoPacket(tag, cookie.value))
                      && taskT1Init.None? && taskT1Cookie == Some(1))
    {
      hide ListOk, Sum, CumTsn;
      CumTsnBefore(peerInitialTsn);
      if state != CookieWait {
        return;
      }
      peerTag := tag;
      peerRwnd := rwnd;
      peerCumulativeTsn := (peerInitialTsn - 1) % 0x1_0000_0000;
      if cookie.Some? {
        taskT1Init := None;
        cookieEchoPacket := Some(CookieEchoPacket(peerTag, cookie.value));
        state := CookieEchoed;
        SendCookieEcho(0);
      }
    }

    // The only way into Established.
    method OnReceiveCookieAck()
      requires Valid()
      modifies this
      ensures Valid() && state == if old(state) == CookieEchoed then Established else old(state)
      ensures old(state) != CookieEchoed ==> unchanged(this)
      ensures old(state) == CookieEchoed ==>
                && taskT1Init.None? && taskT1Cookie.None?
                && ToOutput() == EmitOpens(old(ToOutput()), peerTag, old(dataChannels), |old(dataChannels)|)
                && AllOpening(old(dataChannels), dataChannels, |dataChannels|)
    {
      hide ListOk, Sum, EmitOpens, AllOpening, SentOut, IsOpen;
      if state != CookieEchoed {
        return;
      }
      taskT1Cookie := None;
      state := Established;
      OnAssociationEstablished();
    }

    method OnAssociationEstablished()
      requires Valid()
      modifies this`currentTsn, this`sentChunks, this`flightSize, this`packets, this`log, this`kept, this`overflowed,
               this`taskT3Rtx, this`dataChannels
      ensures Valid()
      ensures ToOutput() == EmitOpens(old(ToOutput()), peerTag, old(dataChannels), |old(dataChannels)|)
      ensures exists ds: seq<Data> ::
                && SentOut(old(ToOutput()), ToOutput(), peerTag, ds) && |ds| == |old(dataChannels)|
                && forall k :: 0 <= k < |ds| ==>
                     IsOpen(ds[k], old(dataChannels)[k])
      ensures AllOpening(old(dataChannels), dataChannels, |dataChannels|)
    {
      hide ListOk, Sum, AfterSend, SentOut, OpenPayload, EmitOpens, Emit;
      ghost var o, channels := ToOutput(), dataChannels;
      ghost var ds := OpensSent(o, peerTag, channels, |channels|);
      OpensNone(o, peerTag, channels);
      for k := 0 to |dataChannels|
        invariant Valid() && AllOpening(channels, dataChannels, k)
        invariant ToOutput() == EmitOpens(o, peerTag, channels, k)
      {
        var channel := dataChannels[k];
        OpensNext(o, peerTag, channels, k);
        SendControl(channel.streamId, OpenPayload(channel.name));
        dataChannels := dataChannels[k := channel.(state := Opening)];
      }
    }

    // An INIT resets the cumulative number in every state; the numbers received early stay.
    method OnReceiveInit(peerInitiateTag: uint32, rwnd: uint32, peerInitialTsn: uint32, cookie: bytes)
      requires Valid()
      modifies this`peerRwnd, this`peerCumulativeTsn, this`packets
      ensures Valid() && ToSender() == old(ToSender()) && state == old(state)
      ensures
        if peerInitiateTag == initiateTag then unchanged(this)
        else ToReceiver() == Receiver(CumTsn(peerInitialTsn, 0), old(peerOutOfOrderTsns)) && peerRwnd == rwnd
             && packets == old(packets) + [InitAckPacket(peerInitiateTag, initiateTag, initialTsn, cookie)]
    {
      if peerInitiateTag == initiateTag {
        return;
      }
      peerRwnd := rwnd;
      peerCumulativeTsn := (peerInitialTsn - 1) % 0x1_0000_0000;
      packets := packets + [InitAckPacket(peerInitiateTag, initiateTag, initialTsn, cookie)];
    }

    // A valid cookie is acknowledged, and nothing else: the state does not change.
    method OnReceiveCookieEcho(peerInitiateTag: uint32, authentic: bool, createdAt: uint32, lifetime: uint32, now: uint32)
      requires Valid()
      modifies this`packets
      ensures Valid() && state == old(state)
      ensures packets == old(packets)
              + if authentic && now <= (createdAt + lifetime) % 0x1_0000_0000 then [CookieAckPacket(peerInitiateTag)] else []
    {
      if !authentic || now as int > (createdAt as int + lifetime as int) % 0x1_0000_0000 {
        return;
      }
      packets := packets + [CookieAckPacket(peerInitiateTag)];
    }
  }

  // The test a walk applies to a chunk.
  predicate Covered(t: Test, d: Data)
    ensures Covered(t, d) == Hits(t, d)
  {
    match t
    case UpTo(cum) => var distance := (d.tsn - cum) % 0x1_0000_0000; distance == 0 || distance >= 0x8000_0000
    case Between(cum, gap) => var offset := (d.tsn - cum) % 0x1_0000; offset >= gap.start && offset <= gap.end
  }

  lemma WalkNext(s: seq<Data>, it: nat, all: seq<Data>, j: nat)
    requires it < |s| && j <= |all| && s[it..] == all[j..]
    ensures j < |all| && s[it] == all[j] && all[..j] + [all[j]] == all[..j + 1]
    ensures s[it + 1..] == all[j + 1..] && s[..it + 1] == s[..it] + [s[it]]
  {
    assert s[it..][0] == s[it] && s[it..][1..] == s[it + 1..] && all[j..][1..] == all[j + 1..];
  }

  lemma EraseAt(it: nat, sent: seq<Data>)
    requires it < |sent|
    ensures (sent[..it] + sent[it + 1..])[..it] == sent[..it]
    ensures (sent[..it] + sent[it + 1..])[it..] == sent[it..][1..]
  {
  }

  lemma PassNone(flight: uint32, t: Test)
    ensures Pass([], t) == [] && PassFlight(flight, [], t) == flight
  {
  }

  lemma PassesStart(w: Window, sack: Sack)
    ensures AfterPasses(w, sack, 0) == AfterPass(w, UpTo(sack.cum))
  {
  }

  lemma PassesNext(w: Window, sack: Sack, i: nat)
    requires i < |sack.gaps|
    ensures AfterPasses(w, sack, i + 1) == AfterPass(AfterPasses(w, sack, i), Between(sack.cum, sack.gaps[i]))
  {
  }
}
