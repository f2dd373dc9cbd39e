// Messages handed to channels, as the chunks that carry them over the association
// (src/sctp/sctp_session.cpp).
module SctpSending {
  import opened Wire
  import opened SctpSender
  import opened SctpReassembly
  import opened SctpDelivery
  import opened SctpChannels
  import opened SctpExchange

  // A message for channel i.
  datatype Handed = Handed(i: nat, m: Outgoing)

  ghost predicate HandedOk(cs: seq<Channel>, sends: seq<Handed>) { forall k :: 0 <= k < |sends| ==> sends[k].i < |cs| }

  // The messages sent one after the other.
  ghost function HandOver(o: Output, tag: uint32, cs: seq<Channel>, sends: seq<Handed>): (Output, seq<Channel>)
    requires HandedOk(cs, sends)
    decreases |sends|
  {
    if sends == [] then (o, cs)
    else
      var s := sends[0];
      assert s.i < |cs|;
      HandOver(EmitMessage(o, tag, cs[s.i], s.m), tag, BumpSsn(cs, s.i), sends[1..])
  }

  // What each channel has been given.
  ghost function GivenTo(hist: seq<seq<Message>>, sends: seq<Handed>): (r: seq<seq<Message>>)
    requires forall k :: 0 <= k < |sends| ==> sends[k].i < |hist|
    ensures |r| == |hist|
    decreases |sends|
  {
    if sends == [] then hist
    else
      var s := sends[0];
      GivenTo(hist[s.i := hist[s.i] + [OnTheWire(s.m)]], sends[1..])
  }

  function OnTheWire(m: Outgoing): Message { Message(PpidOf(m.text, m.data == []), m.data) }

  // One ordered channel: its messages are whole on the association, and its next number is the next one.
  ghost predicate StreamSent(log: seq<Data>, labels: Labels, c: Channel, start: uint16, msgs: seq<Message>) {
    && Sent(log, labels, c.streamId, start, msgs) && NamesStream(log, labels, c.streamId)
    && CursorAt(labels, c.streamId, msgs, |log|) == Cursor(|msgs|, 0)
    && c.sendSsn == SsnAt(start, |msgs|)
  }

  ghost predicate AllSent(log: seq<Data>, labels: Labels, cs: seq<Channel>, starts: seq<uint16>, hist: seq<seq<Message>>) {
    && |starts| == |hist| == |cs|
    && (forall i, k :: 0 <= i < k < |cs| ==> cs[i].streamId != cs[k].streamId)
    && forall i :: 0 <= i < |cs| && !cs[i].unordered ==> StreamSent(log, labels, cs[i], starts[i], hist[i])
  }

  // ----- One message -----

  function Relabelled(labels: Labels, from: nat, sid: uint16, k: nat): Labels {
    (n: nat) => if n < from then labels(n) else Label(sid, k, n - from)
  }

  lemma {:induction false} CursorSame(labels: Labels, labels': Labels, sid: uint16, msgs: seq<Message>, n: nat)
    requires forall m: nat :: m < n ==> labels(m) == labels'(m)
    ensures CursorAt(labels', sid, msgs, n) == CursorAt(labels, sid, msgs, n)
  {
    hide FragmentCount;
    if n > 0 {
      CursorSame(labels, labels', sid, msgs, n - 1);
    }
  }

  // One more message does not change where the stream was.
  lemma {:induction false} CursorLonger(log: seq<Data>, labels: Labels, sid: uint16, start: uint16, msgs: seq<Message>,
                                        m: Message, n: nat)
    requires Sent(log, labels, sid, start, msgs) && n <= |log|
    ensures CursorAt(labels, sid, msgs + [m], n) == CursorAt(labels, sid, msgs, n)
  {
    hide FragmentCount, FragmentAt;
    if n > 0 {
      CursorLonger(log, labels, sid, start, msgs, m, n - 1);
    }
  }

  // The fragments of the new message, one by one.
  lemma {:induction false} CursorFollows(labels: Labels, sid: uint16, msgs: seq<Message>, from: nat, j: nat)
    requires msgs != [] && CursorAt(labels, sid, msgs, from) == Cursor(|msgs| - 1, 0)
    requires forall n: nat :: from <= n < from + j ==> labels(n).sid == sid
    requires j <= FragmentCount(|msgs[|msgs| - 1].data|)
    ensures CursorAt(labels, sid, msgs, from + j)
            == if j < FragmentCount(|msgs[|msgs| - 1].data|) then Cursor(|msgs| - 1, j) else Cursor(|msgs|, 0)
  {
    hide FragmentCount;
    CountPositive(|msgs[|msgs| - 1].data|);
    if j > 0 {
      CursorFollows(labels, sid, msgs, from, j - 1);
    }
  }

  lemma {:induction false} CursorWaits(labels: Labels, sid: uint16, msgs: seq<Message>, from: nat, j: nat)
    requires forall n: nat :: from <= n < from + j ==> labels(n).sid != sid
    ensures CursorAt(labels, sid, msgs, from + j) == CursorAt(labels, sid, msgs, from)
  {
    hide FragmentCount;
    if j > 0 {
      CursorWaits(labels, sid, msgs, from, j - 1);
    }
  }

  // The chunks of a message, as the session cuts it.
  ghost predicate AreChunks(ds: seq<Data>, current: uint32, c: Channel, m: Outgoing) {
    |ds| == FragmentCount(|m.data|) && forall j :: 0 <= j < |ds| ==> ds[j] == ChunkAt(current, c, m, j)
  }

  lemma ChunkCarries(current: uint32, c: Channel, m: Outgoing, j: nat, start: uint16, msgs: seq<Message>)
    requires j < FragmentCount(|m.data|) && !c.unordered && c.sendSsn == SsnAt(start, |msgs|)
    ensures Carries(ChunkAt(current, c, m, j), Label(c.streamId, |msgs|, j), start, msgs + [OnTheWire(m)])
    ensures ForStream(ChunkAt(current, c, m, j), c.streamId) && ChunkAt(current, c, m, j).streamId == c.streamId
  {
    hide FlagsAt, Cut, FragmentCount;
    assert Message(PpidFor(m), m.data) == OnTheWire(m);
  }

  // The channel that sends.
  lemma SenderSends(log: seq<Data>, labels: Labels, c: Channel, start: uint16, msgs: seq<Message>, current: uint32,
                    m: Outgoing, ds: seq<Data>)
    requires StreamSent(log, labels, c, start, msgs) && !c.unordered && AreChunks(ds, current, c, m)
    ensures StreamSent(log + ds, Relabelled(labels, |log|, c.streamId, |msgs|), c.(sendSsn := (c.sendSsn + 1) % 0x1_0000), start,
                       msgs + [OnTheWire(m)])
  {
    hide FragmentCount, ChunkAt, Carries, ForStream, SsnAt, CursorAt;
    var sid, from, labels', msgs' := c.streamId, |log|, Relabelled(labels, |log|, c.streamId, |msgs|), msgs + [OnTheWire(m)];
    var log' := log + ds;
    forall i | 0 <= i < |log'|
      ensures labels'(i).sid == sid ==>
                Carries(log'[i], labels'(i), start, msgs') && CursorAt(labels', sid, msgs', i) == Cursor(labels'(i).k, labels'(i).j)
      ensures labels'(i).sid == sid <==> ForStream(log'[i], sid)
    {
      SenderSendsAt(log, labels, c, start, msgs, current, m, ds, i);
    }
    CursorThere(log, labels, c, start, msgs, m, |ds|);
    NextSsn(start, |msgs|);
  }

  // Where the stream is after j fragments of the new message.
  lemma CursorThere(log: seq<Data>, labels: Labels, c: Channel, start: uint16, msgs: seq<Message>, m: Outgoing, j: nat)
    requires StreamSent(log, labels, c, start, msgs) && j <= FragmentCount(|m.data|)
    ensures CursorAt(Relabelled(labels, |log|, c.streamId, |msgs|), c.streamId, msgs + [OnTheWire(m)], |log| + j)
            == if j < FragmentCount(|m.data|) then Cursor(|msgs|, j) else Cursor(|msgs| + 1, 0)
  {
    hide FragmentCount, CursorAt, Carries, ForStream, SsnAt;
    var sid, labels', msgs' := c.streamId, Relabelled(labels, |log|, c.streamId, |msgs|), msgs + [OnTheWire(m)];
    assert msgs'[|msgs'| - 1].data == m.data;
    CursorSame(labels, labels', sid, msgs', |log|);
    CursorLonger(log, labels, sid, start, msgs, OnTheWire(m), |log|);
    CursorFollows(labels', sid, msgs', |log|, j);
  }

  lemma SenderSendsAt(log: seq<Data>, labels: Labels, c: Channel, start: uint16, msgs: seq<Message>, current: uint32,
                      m: Outgoing, ds: seq<Data>, i: nat)
    requires StreamSent(log, labels, c, start, msgs) && !c.unordered && AreChunks(ds, current, c, m) && i < |log + ds|
    ensures
      var sid, labels', msgs' := c.streamId, Relabelled(labels, |log|, c.streamId, |msgs|), msgs + [OnTheWire(m)];
      && (labels'(i).sid == sid <==> ForStream((log + ds)[i], sid))
      && (labels'(i).sid == sid ==>
            Carries((log + ds)[i], labels'(i), start, msgs') && CursorAt(labels', sid, msgs', i) == Cursor(labels'(i).k, labels'(i).j))
  {
    hide FragmentCount, ChunkAt, Carries, ForStream, SsnAt, CursorAt;
    var sid, from, labels', msgs' := c.streamId, |log|, Relabelled(labels, |log|, c.streamId, |msgs|), msgs + [OnTheWire(m)];
    if i >= from {
      CursorThere(log, labels, c, start, msgs, m, i - from);
      ChunkCarries(current, c, m, i - from, start, msgs);
    } else if labels(i).sid == sid {
      CursorSame(labels, labels', sid, msgs', i);
      CursorLonger(log, labels, sid, start, msgs, OnTheWire(m), i);
      CarriesLonger(log[i], labels(i), start, msgs, OnTheWire(m));
    }
  }

  lemma NextSsn(start: uint16, k: nat)
    ensures (SsnAt(start, k) + 1) % 0x1_0000 == SsnAt(start, k + 1)
  {
  }

  lemma CarriesLonger(d: Data, l: Label, start: uint16, msgs: seq<Message>, m: Message)
    requires Carries(d, l, start, msgs)
    ensures Carries(d, l, start, msgs + [m])
  {
    hide FragmentAt, FragmentCount;
  }

  // Every other channel.
  lemma OthersWait(log: seq<Data>, labels: Labels, c: Channel, start: uint16, msgs: seq<Message>, sender: Channel, k: nat,
                   current: uint32, m: Outgoing, ds: seq<Data>)
    requires StreamSent(log, labels, c, start, msgs) && AreChunks(ds, current, sender, m) && sender.streamId != c.streamId
    ensures StreamSent(log + ds, Relabelled(labels, |log|, sender.streamId, k), c, start, msgs)
  {
    hide FragmentCount, FragmentAt, Carries, SsnAt;
    var sid, from, labels' := c.streamId, |log|, Relabelled(labels, |log|, sender.streamId, k);
    var log' := log + ds;
    forall i | 0 <= i < |log'| && labels'(i).sid == sid
      ensures Carries(log'[i], labels'(i), start, msgs) && CursorAt(labels', sid, msgs, i) == Cursor(labels'(i).k, labels'(i).j)
    {
      assert i < from;
      CursorSame(labels, labels', sid, msgs, i);
    }
    CursorSame(labels, labels', sid, msgs, from);
    CursorWaits(labels', sid, msgs, from, |ds|);
    forall i | 0 <= i < |log'| ensures labels'(i).sid == sid <==> ForStream(log'[i], sid) {
      if i >= from {
        ChunkStream(current, sender, m, i - from);
      }
    }
  }

  lemma ChunkStream(current: uint32, c: Channel, m: Outgoing, j: nat)
    requires j < FragmentCount(|m.data|)
    ensures ChunkAt(current, c, m, j).streamId == c.streamId
  {
  }

  // ----- All messages -----

  lemma OneHanded(log: seq<Data>, labels: Labels, cs: seq<Channel>, starts: seq<uint16>, hist: seq<seq<Message>>,
                  current: uint32, s: Handed, ds: seq<Data>)
    requires AllSent(log, labels, cs, starts, hist) && s.i < |cs| && AreChunks(ds, current, cs[s.i], s.m)
    ensures AllSent(log + ds, Relabelled(labels, |log|, cs[s.i].streamId, |hist[s.i]|), BumpSsn(cs, s.i), starts,
                    hist[s.i := hist[s.i] + [OnTheWire(s.m)]])
  {
    hide StreamSent, AreChunks, Relabelled;
    var cs', labels' := BumpSsn(cs, s.i), Relabelled(labels, |log|, cs[s.i].streamId, |hist[s.i]|);
    var hist' := hist[s.i := hist[s.i] + [OnTheWire(s.m)]];
    forall i | 0 <= i < |cs'| && !cs'[i].unordered ensures StreamSent(log + ds, labels', cs'[i], starts[i], hist'[i]) {
      if i == s.i {
        SenderSends(log, labels, cs[i], starts[i], hist[i], current, s.m, ds);
      } else {
        assert cs[i].streamId != cs[s.i].streamId;
        OthersWait(log, labels, cs[i], starts[i], hist[i], cs[s.i], |hist[s.i]|, current, s.m, ds);
      }
    }
  }

  // Whatever messages are handed to whatever channels, in any order, the association carries, for every
  // ordered channel, exactly the messages it was given: one after the other, fragment by fragment, under
  // consecutive stream sequence numbers, with the chunks of other channels in between. And these chunks,
  // and nothing else, went on the wire.
  lemma {:induction false} HandedIsSent(o: Output, tag: uint32, cs: seq<Channel>, sends: seq<Handed>, log: seq<Data>,
                                        labels: Labels, starts: seq<uint16>, hist: seq<seq<Message>>)
    returns (ds: seq<Data>, labels': Labels)
    requires HandedOk(cs, sends) && AllSent(log, labels, cs, starts, hist)
    ensures SentOut(o, HandOver(o, tag, cs, sends).0, tag, ds)
    ensures AllSent(log + ds, labels', HandOver(o, tag, cs, sends).1, starts, GivenTo(hist, sends))
    decreases |sends|
  {
    hide SentOut, EmitMessage, CarriesMessage, BumpSsn, ChunkAt, FragmentCount, StreamSent, Relabelled;
    if sends == [] {
      ds, labels' := [], labels;
      SentNothing(o, tag);
      assert log + [] == log;
    } else {
      var s := sends[0];
      var part := MessageSent(o, tag, cs[s.i], s.m);
      OneHanded(log, labels, cs, starts, hist, o.s.current, s, part);
      BumpLength(cs, s.i);
      var o1, cs1 := EmitMessage(o, tag, cs[s.i], s.m), BumpSsn(cs, s.i);
      ds, labels' := HandedIsSent(o1, tag, cs1, sends[1..], log + part,
                                  Relabelled(labels, |log|, cs[s.i].streamId, |hist[s.i]|), starts,
                                  hist[s.i := hist[s.i] + [OnTheWire(s.m)]]);
      SentThen(o, o1, HandOver(o, tag, cs, sends).0, tag, part, ds);
      assert log + part + ds == log + (part + ds);
      ds := part + ds;
    }
  }

  lemma BumpLength(cs: seq<Channel>, i: nat)
    requires i < |cs|
    ensures |BumpSsn(cs, i)| == |cs|
  {
  }
}
