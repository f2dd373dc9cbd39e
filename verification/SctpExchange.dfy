// From messages sent on channels to what the application at the other end is told
// (src/sctp/sctp_session.cpp).
module SctpExchange {
  import opened Wire
  import opened SctpSerial
  import opened SctpAcks
  import opened SctpSender
  import opened SctpNetwork
  import opened SctpReassembly
  import opened SctpDelivery
  import opened SctpChannels

  // ----- What one chunk tells -----

  // The application side after a chunk that is new; it does not depend on what is sent meanwhile.
  function Hears(a: App, d: Data): App { AfterNewData(a, Output(Sender(0, [], 0, false), []), 0, d).0 }

  lemma HearsIs(a: App, o: Output, tag: uint32, d: Data)
    ensures AfterNewData(a, o, tag, d).0 == Hears(a, d)
  {
    hide Routed, Controlled, Emit;
  }

  // One notice for each message: text for the identifiers 51 and 56, binary for the others.
  ghost predicate Told(ns: seq<Notice>, name: bytes, msgs: seq<Message>) {
    && |ns| == |msgs|
    && forall k :: 0 <= k < |ns| ==>
         ns[k] == if msgs[k].ppid == 51 || msgs[k].ppid == 56 then TextReceived(name, msgs[k].data)
                  else BinaryReceived(name, msgs[k].data)
  }

  lemma {:induction false} NoticesTold(name: bytes, msgs: seq<Message>)
    ensures Told(NoticesFor(name, msgs), name, msgs)
    decreases |msgs|
  {
    if msgs != [] {
      NoticesTold(name, msgs[..|msgs| - 1]);
    }
  }

  // The messages heard on channels of this name.
  predicate IsFor(n: Notice, name: bytes) { !n.ChannelOpened? && n.name == name }

  function Of(ns: seq<Notice>, name: bytes): seq<Notice> {
    if ns == [] then [] else Of(ns[..|ns| - 1], name) + if IsFor(ns[|ns| - 1], name) then [ns[|ns| - 1]] else []
  }

  lemma {:induction false} OfAppend(a: seq<Notice>, b: seq<Notice>, name: bytes)
    ensures Of(a + b, name) == Of(a, name) + Of(b, name)
    decreases |b|
  {
    hide IsFor;
    if b == [] {
      assert a + b == a && Of(a, name) + [] == Of(a, name);
    } else {
      OfAppend(a, b[..|b| - 1], name);
      assert (a + b)[..|a + b| - 1] == a + b[..|b| - 1];
    }
  }

  lemma {:induction false} OfTold(ns: seq<Notice>, name: bytes, msgs: seq<Message>, other: bytes)
    requires Told(ns, name, msgs)
    ensures Of(ns, name) == ns && (other != name ==> Of(ns, other) == [])
    decreases |ns|
  {
    if ns != [] {
      OfTold(ns[..|ns| - 1], name, msgs[..|msgs| - 1], other);
    }
  }

  predicate ForStream(d: Data, sid: uint16) { d.streamId == sid && IsUserData(d.ppid) }

  lemma UserData(d: Data)
    ensures IsUserData(d.ppid) <==> d.ppid == 51 || d.ppid == 53 || d.ppid == 56 || d.ppid == 57
  {
  }

  // Channel i is open, the first of its stream, and alone in its name.
  ghost predicate Listens(a: App, i: nat) {
    && i < |a.channels| && a.channels[i].state == Opened
    && (forall k :: 0 <= k < i ==> a.channels[k].streamId != a.channels[i].streamId)
    && (forall k :: 0 <= k < |a.channels| && k != i ==> a.channels[k].name != a.channels[i].name)
  }

  // No channel of this name is opened by the peer.
  predicate OpensNone(d: Data, name: bytes) {
    d.ppid == PPID_DCEP && ParseControl(d.payload).Opens? ==> ParseControl(d.payload).name != name
  }

  lemma {:induction false} FindStreamIs(cs: seq<Channel>, sid: uint16, i: nat)
    requires i <= |cs| && (i < |cs| ==> cs[i].streamId == sid) && forall k :: 0 <= k < i ==> cs[k].streamId != sid
    ensures FindStream(cs, sid) == i
    decreases i
  {
    if i > 0 {
      FindStreamIs(cs[1..], sid, i - 1);
    }
  }

  lemma {:induction false} FindStreamFirst(cs: seq<Channel>, sid: uint16)
    ensures forall k :: 0 <= k < FindStream(cs, sid) ==> cs[k].streamId != sid
  {
    if cs != [] && cs[0].streamId != sid {
      FindStreamFirst(cs[1..], sid);
      forall k | 0 <= k < FindStream(cs, sid) ensures cs[k].streamId != sid {
        assert k > 0 ==> cs[k] == cs[1..][k - 1];
      }
    }
  }

  // A chunk of user data goes through the receive buffer of the first channel of its stream, and what the
  // buffer gives out is told under that channel's name. Every other channel is left alone.
  lemma RoutedStep(a: App, d: Data, i: nat)
    requires Listens(a, i) && IsUserData(d.ppid)
    ensures
      var c, a' := a.channels[i], Routed(a, d);
      var step := Accept(c.buffer, FragmentOf(d), c.unordered);
      && Listens(a', i) && |a'.channels| == |a.channels|
      && a'.channels[i] == (if d.streamId == c.streamId then c.(buffer := step.0) else c)
      && Of(a'.notices, c.name) == Of(a.notices, c.name) + if d.streamId == c.streamId then NoticesFor(c.name, step.1) else []
  {
    hide Accept, Of, NoticesFor;
    var c, k := a.channels[i], FindStream(a.channels, d.streamId);
    FindStreamFirst(a.channels, d.streamId);
    assert Of(a.notices, c.name) + [] == Of(a.notices, c.name);
    if d.streamId == c.streamId {
      FindStreamIs(a.channels, d.streamId, i);
    }
    if k < |a.channels| {
      var ck := a.channels[k];
      AddedFor(a.notices, ck.name, Accept(ck.buffer, FragmentOf(d), ck.unordered).1, c.name);
    }
  }

  lemma AddedFor(ns: seq<Notice>, name: bytes, msgs: seq<Message>, other: bytes)
    ensures Of(ns + NoticesFor(name, msgs), other) == Of(ns, other) + if other == name then NoticesFor(name, msgs) else []
  {
    hide Of, Told, NoticesFor;
    NoticesTold(name, msgs);
    OfTold(NoticesFor(name, msgs), name, msgs, other);
    OfAppend(ns, NoticesFor(name, msgs), other);
  }

  lemma ControlledStep(a: App, d: Data, i: nat)
    requires Listens(a, i) && d.ppid == PPID_DCEP && OpensNone(d, a.channels[i].name)
    ensures
      var a' := Controlled(a, d);
      && i < |a'.channels| && Listens(a', i) && a'.channels[i] == a.channels[i]
      && Of(a'.notices, a.channels[i].name) == Of(a.notices, a.channels[i].name)
  {
    hide ParseControl, Consume;
    var c := a.channels[i];
    match ParseControl(d.payload)
    case Ignored =>
    case Acknowledges =>
      var k := FindOpening(a.channels, d.streamId);
      if k < |a.channels| {
        OpenedIsNoMessage(a.notices, a.channels[k].name, c.name);
      }
    case Opens(name, _) => OpenedIsNoMessage(a.notices, name, c.name);
  }

  lemma OpenedIsNoMessage(ns: seq<Notice>, other: bytes, name: bytes)
    ensures Of(ns + [ChannelOpened(other)], name) == Of(ns, name)
  {
    assert (ns + [ChannelOpened(other)])[..|ns|] == ns;
  }

  lemma HearsStep(a: App, d: Data, i: nat)
    requires i < |a.channels| && Listens(a, i) && OpensNone(d, a.channels[i].name)
    ensures
      var c, a' := a.channels[i], Hears(a, d);
      var step := Accept(c.buffer, FragmentOf(d), c.unordered);
      && i < |a'.channels| && Listens(a', i)
      && a'.channels[i] == (if ForStream(d, c.streamId) then c.(buffer := step.0) else c)
      && Of(a'.notices, c.name) == Of(a.notices, c.name) + if ForStream(d, c.streamId) then NoticesFor(c.name, step.1) else []
  {
    hide Routed, Controlled, Listens, Accept, Of, ParseControl, Emit;
    var name := a.channels[i].name;
    assert Of(a.notices, name) + [] == Of(a.notices, name);
    if IsUserData(d.ppid) {
      RoutedStep(a, d, i);
    } else if d.ppid == PPID_DCEP {
      ControlledStep(a, d, i);
    }
  }

  // ----- Any sequence of chunks -----

  ghost function HearsAll(a: App, ds: seq<Data>): App
    decreases |ds|
  {
    if ds == [] then a else HearsAll(Hears(a, ds[0]), ds[1..])
  }

  // The receive buffer of a stream on its own: what it gives out for the chunks of its stream.
  ghost function GivenOut(b: Buffer, ds: seq<Data>, sid: uint16, unordered: bool): (Buffer, seq<Message>)
    decreases |ds|
  {
    if ds == [] then (b, [])
    else if !ForStream(ds[0], sid) then GivenOut(b, ds[1..], sid, unordered)
    else
      var step := Accept(b, FragmentOf(ds[0]), unordered);
      var rest := GivenOut(step.0, ds[1..], sid, unordered);
      (rest.0, step.1 + rest.1)
  }

  lemma {:induction false} NoticesAppend(name: bytes, a: seq<Message>, b: seq<Message>)
    ensures NoticesFor(name, a + b) == NoticesFor(name, a) + NoticesFor(name, b)
    decreases |b|
  {
    if b == [] {
      assert a + b == a;
    } else {
      NoticesAppend(name, a, b[..|b| - 1]);
      assert (a + b)[..|a + b| - 1] == a + b[..|b| - 1];
    }
  }

  // Over any sequence of new chunks, data and control for whatever channels, what is told under a
  // channel's name is what its own receive buffer gives out.
  lemma {:induction false} ChannelHears(a: App, ds: seq<Data>, i: nat)
    requires i < |a.channels| && Listens(a, i) && forall k :: 0 <= k < |ds| ==> OpensNone(ds[k], a.channels[i].name)
    ensures
      var c, a' := a.channels[i], HearsAll(a, ds);
      var out := GivenOut(c.buffer, ds, c.streamId, c.unordered);
      && i < |a'.channels| && Listens(a', i) && a'.channels[i] == c.(buffer := out.0)
      && Of(a'.notices, c.name) == Of(a.notices, c.name) + NoticesFor(c.name, out.1)
    decreases |ds|
  {
    hide Listens, Hears, Accept, Of, NoticesFor, OpensNone, ForStream;
    var c := a.channels[i];
    NoticesNone(c.name);
    if ds == [] {
      assert Of(a.notices, c.name) + [] == Of(a.notices, c.name);
    } else {
      HearsStep(a, ds[0], i);
      ChannelHears(Hears(a, ds[0]), ds[1..], i);
      if ForStream(ds[0], c.streamId) {
        var step := Accept(c.buffer, FragmentOf(ds[0]), c.unordered);
        var rest := GivenOut(step.0, ds[1..], c.streamId, c.unordered);
        NoticesAppend(c.name, step.1, rest.1);
        assert Of(a.notices, c.name) + NoticesFor(c.name, step.1) + NoticesFor(c.name, rest.1)
            == Of(a.notices, c.name) + (NoticesFor(c.name, step.1) + NoticesFor(c.name, rest.1));
      } else {
        assert Of(a.notices, c.name) + [] == Of(a.notices, c.name);
      }
    }
  }

  lemma NoticesNone(name: bytes)
    ensures NoticesFor(name, []) == []
  {
  }

  // ----- Over the network -----

  // The chunks taken from number n on.
  ghost function ChunksFrom(log: seq<Data>, taken: seq<nat>, n: nat): seq<Data>
    requires n <= |taken| && forall i :: i in taken ==> i < |log|
    decreases |taken| - n
  {
    if n == |taken| then []
    else
      assert taken[n] in taken;
      [log[taken[n]]] + ChunksFrom(log, taken, n + 1)
  }

  // The receiving application over a run: the session passes on exactly the chunks that are new.
  ghost function AppAfter(w: World, initial: uint32, steps: seq<Step>, a: App): App
    requires RunOf(w, initial, steps)
    decreases |steps|
  {
    if steps == [] then a
    else
      var a' := if steps[0].DataArrives? && !Duplicate(w.r, w.log[steps[0].i].tsn) then Hears(a, w.log[steps[0].i]) else a;
      AppAfter(Perform(w, initial, steps[0]), initial, steps[1..], a')
  }

  lemma StepGrows(w: World, initial: uint32, step: Step)
    requires Enabled(w, step)
    ensures
      var w' := Perform(w, initial, step);
      && w.log <= w'.log
      && w'.taken == w.taken + if step.DataArrives? && !Duplicate(w.r, w.log[step.i].tsn) then [step.i] else []
  {
    hide AfterSack, AfterSend, Take, TakenCount, MoreAfter, SackOf, Duplicate;
    assert w.taken + [] == w.taken;
  }

  lemma {:induction false} RunGrows(w: World, initial: uint32, steps: seq<Step>)
    requires RunOf(w, initial, steps)
    ensures w.log <= After(w, initial, steps).log && w.taken <= After(w, initial, steps).taken
    decreases |steps|
  {
    hide Perform, Enabled;
    if steps != [] {
      StepGrows(w, initial, steps[0]);
      RunGrows(Perform(w, initial, steps[0]), initial, steps[1..]);
    }
  }

  lemma {:induction false} AppHearsTaken(w: World, initial: uint32, steps: seq<Step>, a: App)
    requires RunOf(w, initial, steps) && forall i :: i in After(w, initial, steps).taken ==> i < |After(w, initial, steps).log|
    ensures |w.taken| <= |After(w, initial, steps).taken|
    ensures AppAfter(w, initial, steps, a)
            == HearsAll(a, ChunksFrom(After(w, initial, steps).log, After(w, initial, steps).taken, |w.taken|))
    decreases |steps|
  {
    hide Perform, Hears, Duplicate;
    RunGrows(w, initial, steps);
    if steps != [] {
      StepGrows(w, initial, steps[0]);
      var w' := Perform(w, initial, steps[0]);
      RunGrows(w', initial, steps[1..]);
      var end, n := After(w', initial, steps[1..]), |w.taken|;
      if steps[0].DataArrives? && !Duplicate(w.r, w.log[steps[0].i].tsn) {
        var d := w.log[steps[0].i];
        AppHearsTaken(w', initial, steps[1..], Hears(a, d));
        assert end.taken[n] == steps[0].i && end.log[steps[0].i] == d;
        var rest := ChunksFrom(end.log, end.taken, n + 1);
        assert ([d] + rest)[1..] == rest;
      } else {
        AppHearsTaken(w', initial, steps[1..], a);
      }
    }
  }

  // The labels name the stream of the chunks that carry user data on it.
  ghost predicate NamesStream(log: seq<Data>, labels: Labels, sid: uint16) {
    forall n :: 0 <= n < |log| ==> (labels(n).sid == sid <==> ForStream(log[n], sid))
  }

  lemma {:induction false} DeliveredIsGivenOut(b: Buffer, log: seq<Data>, labels: Labels, sid: uint16, taken: seq<nat>, n: nat)
    requires n <= |taken| && (forall i :: i in taken ==> i < |log|) && NamesStream(log, labels, sid)
    ensures GivenOut(b, ChunksFrom(log, taken, n), sid, false).1 == Delivered(b, log, labels, sid, taken, n)
    decreases |taken| - n
  {
    hide Accept, ForStream;
    if n < |taken| {
      assert taken[n] in taken;
      var d, rest := log[taken[n]], ChunksFrom(log, taken, n + 1);
      assert ([d] + rest)[1..] == rest;
      if ForStream(d, sid) {
        DeliveredIsGivenOut(Accept(b, FragmentOf(d), false).0, log, labels, sid, taken, n + 1);
      } else {
        DeliveredIsGivenOut(b, log, labels, sid, taken, n + 1);
      }
    }
  }

  // End to end: over every run from the handshake on, the application is told, under the name of an ordered
  // channel, exactly the messages of its stream that have come whole with all the ones before them, each
  // once and in order, as text or binary, whatever the chunks of other channels and control messages do.
  lemma EveryRunTells(w: World, initial: uint32, steps: seq<Step>, labels: Labels, sid: uint16, start: uint16,
                      msgs: seq<Message>, a: App, i: nat)
    requires InitialWorld(w, initial) && RunOf(w, initial, steps) && RemembersAll(w, initial, steps)
    requires RunOrderly(w, initial, labels, steps) && Sent(After(w, initial, steps).log, labels, sid, start, msgs)
    requires NamesStream(After(w, initial, steps).log, labels, sid)
    requires i < |a.channels| && Listens(a, i)
    requires !a.channels[i].unordered && a.channels[i].streamId == sid && a.channels[i].buffer == Buffer(start, map[])
    requires forall n :: 0 <= n < |After(w, initial, steps).log| ==> OpensNone(After(w, initial, steps).log[n], a.channels[i].name)
    ensures
      var end, name := After(w, initial, steps), a.channels[i].name;
      var r := Ready(msgs, Got(labels, sid, |msgs|, end.taken, |end.taken|), 0);
      exists ns :: Of(AppAfter(w, initial, steps, a).notices, name) == Of(a.notices, name) + ns && Told(ns, name, msgs[..r])
  {
    hide RunOf, After, RemembersAll, RunOrderly, Sent, Delivered, Got, Ready, AppAfter, HearsAll, Of, Told, NamesStream, GivenOut, Listens, OpensNone;
    var end, name := After(w, initial, steps), a.channels[i].name;
    EveryRunDelivers(w, initial, steps, labels, sid, start, msgs);
    AppHearsTaken(w, initial, steps, a);
    var ds := ChunksFrom(end.log, end.taken, 0);
    ChunksLogged(end.log, end.taken, 0, name);
    ChannelHears(a, ds, i);
    DeliveredIsGivenOut(Buffer(start, map[]), end.log, labels, sid, end.taken, 0);
    NoticesTold(name, GivenOut(Buffer(start, map[]), ds, sid, false).1);
  }

  lemma {:induction false} ChunksLogged(log: seq<Data>, taken: seq<nat>, n: nat, name: bytes)
    requires n <= |taken| && forall i :: i in taken ==> i < |log|
    requires forall k :: 0 <= k < |log| ==> OpensNone(log[k], name)
    ensures forall k :: 0 <= k < |ChunksFrom(log, taken, n)| ==> OpensNone(ChunksFrom(log, taken, n)[k], name)
    decreases |taken| - n
  {
    hide OpensNone;
    if n < |taken| {
      assert taken[n] in taken;
      ChunksLogged(log, taken, n + 1, name);
    }
  }
}
