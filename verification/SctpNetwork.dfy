// A sender and a receiver on a network that loses, duplicates and reorders (src/sctp/sctp_session.cpp).
module SctpNetwork {
  import opened Wire
  import opened SctpSerial
  import opened SctpAcks
  import opened SctpSender

  // ----- The sender's list, seen against everything it ever sent -----

  // The chunks of `log` whose index is in `kept`, oldest first.
  ghost function Pick(log: seq<Data>, kept: set<nat>, n: nat): seq<Data>
    requires n <= |log|
  {
    if n == 0 then [] else Pick(log, kept, n - 1) + if n - 1 in kept then [log[n - 1]] else []
  }

  ghost predicate Logged(log: seq<Data>, initial: uint32) {
    forall i :: 0 <= i < |log| ==> log[i].tsn == Tsn(initial, i)
  }

  // The list: strictly increasing sequence numbers, all below the next one.
  ghost predicate ListOk(current: uint32, sent: seq<Data>, initial: uint32, log: seq<Data>, kept: set<nat>) {
    && Logged(log, initial)
    && sent == Pick(log, kept, |log|)
    && (forall i :: i in kept ==> i < |log|)
    && current == Tsn(initial, |log|)
  }

  ghost predicate SenderOk(s: Sender, initial: uint32, log: seq<Data>, kept: set<nat>) {
    && ListOk(s.current, s.sent, initial, log, kept)
    && s.flight == Sum(s.sent)
    && (s.armed <==> s.sent != [])
  }

  lemma {:induction false} PickPrefix(log: seq<Data>, more: seq<Data>, kept: set<nat>, kept': set<nat>, n: nat)
    requires n <= |log| && forall i :: 0 <= i < n ==> (i in kept <==> i in kept')
    ensures Pick(log + more, kept', n) == Pick(log, kept, n)
  {
    if n > 0 {
      PickPrefix(log, more, kept, kept', n - 1);
    }
  }

  lemma ListSend(current: uint32, sent: seq<Data>, initial: uint32, log: seq<Data>, kept: set<nat>, d: Data)
    requires ListOk(current, sent, initial, log, kept) && d.tsn == current
    ensures ListOk((current + 1) % WORD, sent + [d], initial, log + [d], kept + {|log|})
  {
    hide Tsn, Pick, Logged;
    NextTsn(initial, |log|);
    PickSnoc(log, kept, d);
    LoggedSnoc(log, initial, d);
  }

  // Sending keeps the list in order, the size exact and the timer running.
  lemma SendKeeps(s: Sender, initial: uint32, log: seq<Data>, kept: set<nat>, d: Data)
    requires SenderOk(s, initial, log, kept) && d.tsn == s.current && Sum(s.sent) + |d.payload| < WORD
    ensures SenderOk(AfterSend(s, d), initial, log + [d], kept + {|log|})
  {
    hide ListOk, Sum;
    ListSend(s.current, s.sent, initial, log, kept, d);
    SumSnoc(s.sent, d);
  }

  lemma PickSnoc(log: seq<Data>, kept: set<nat>, d: Data)
    requires forall i :: i in kept ==> i < |log|
    ensures Pick(log + [d], kept + {|log|}, |log| + 1) == Pick(log, kept, |log|) + [d]
  {
    PickPrefix(log, [d], kept, kept + {|log|}, |log|);
  }

  lemma LoggedSnoc(log: seq<Data>, initial: uint32, d: Data)
    requires Logged(log, initial) && d.tsn == Tsn(initial, |log|)
    ensures Logged(log + [d], initial)
  {
    hide Tsn;
  }

  // What the acknowledgement leaves.
  ghost function Left(log: seq<Data>, kept: set<nat>, sack: Sack): set<nat> {
    set i | i in kept && !(i < |log| && Acked(log[i], sack))
  }

  lemma {:induction false} PickUnacked(log: seq<Data>, kept: set<nat>, sack: Sack, n: nat)
    requires n <= |log|
    ensures Unacked(Pick(log, kept, n), sack) == Pick(log, Left(log, kept, sack), n)
  {
    hide Acked;
    if n > 0 {
      PickUnacked(log, kept, sack, n - 1);
      var p := Pick(log, kept, n - 1);
      assert (p + [log[n - 1]])[..|p|] == p && p + [] == p;
    }
  }

  lemma UnackedSnoc(init: seq<Data>, d: Data, sack: Sack)
    ensures Unacked(init + [d], sack) == if Acked(d, sack) then Unacked(init, sack) else Unacked(init, sack) + [d]
  {
    assert (init + [d])[..|init|] == init && Unacked(init, sack) + [] == Unacked(init, sack);
  }

  lemma {:induction false} UnackedShorter(sent: seq<Data>, sack: Sack)
    ensures |Unacked(sent, sack)| <= |sent|
    ensures |Unacked(sent, sack)| == |sent| ==> Unacked(sent, sack) == sent
  {
    hide Acked, Unacked;
    if sent != [] {
      var init, d := sent[..|sent| - 1], sent[|sent| - 1];
      UnackedShorter(init, sack);
      UnackedSnoc(init, d, sack);
      assert init + [d] == sent;
    } else {
      UnackedNone(sack);
    }
  }

  lemma UnackedNone(sack: Sack)
    ensures Unacked([], sack) == []
  {
  }

  lemma ListSack(current: uint32, sent: seq<Data>, initial: uint32, log: seq<Data>, kept: set<nat>, sack: Sack)
    requires ListOk(current, sent, initial, log, kept)
    ensures ListOk(current, Unacked(sent, sack), initial, log, Left(log, kept, sack))
  {
    hide Tsn, Pick, Unacked, Acked, Logged;
    PickUnacked(log, kept, sack, |log|);
  }

  // Whatever the acknowledgement says, the list loses only what it covers, the size stays exact, and
  // the timer runs exactly while something is in flight.
  lemma SackKeeps(s: Sender, initial: uint32, log: seq<Data>, kept: set<nat>, sack: Sack)
    requires SenderOk(s, initial, log, kept)
    ensures SenderOk(AfterSack(s, sack), initial, log, Left(log, kept, sack))
  {
    hide ListOk, Unacked, Left, Sum, AfterPasses;
    ListSack(s.current, s.sent, initial, log, kept, sack);
    SackKeepsUnacked(s, sack);
    PassesSum(Window(s.sent, s.flight), sack, |sack.gaps|);
    UnackedShorter(s.sent, sack);
  }

  lemma {:induction false} OldestFirst(log: seq<Data>, kept: set<nat>, n: nat)
    requires n <= |log|
    ensures Pick(log, kept, n) != [] ==>
              exists i: nat :: i < n && i in kept && Pick(log, kept, n)[0] == log[i] && forall j :: j in kept ==> i <= j
    ensures Pick(log, kept, n) == [] ==> forall j :: j in kept ==> j >= n
  {
    if n > 0 {
      OldestFirst(log, kept, n - 1);
      if Pick(log, kept, n - 1) == [] && n - 1 in kept {
        assert Pick(log, kept, n)[0] == log[n - 1];
      }
    }
  }

  // A retransmission is the oldest chunk not yet acknowledged.
  lemma RetransmitsOldest(s: Sender, initial: uint32, log: seq<Data>, kept: set<nat>)
    requires SenderOk(s, initial, log, kept) && s.armed
    ensures s.sent != [] && exists i: nat :: i in kept && i < |log| && s.sent[0] == log[i] && forall j :: j in kept ==> i <= j
  {
    hide Pick, Sum, Tsn, Logged;
    OldestFirst(log, kept, |log|);
  }

  // ----- Both ends and the network -----

  // An acknowledgement on the network, with what the receiver knew when it sent it.
  datatype Report = Report(count: nat, more: set<nat>, sack: Sack)

  // The sender's state with everything it sent and the indices it still holds; the receiver's state
  // with the chunks it stands for and the indices it took, in order; every acknowledgement ever sent.
  datatype World = World(
    s: Sender, log: seq<Data>, kept: set<nat>,
    r: Receiver, count: nat, more: set<nat>, taken: seq<nat>,
    reports: set<Report>)

  datatype Step =
    | Sends(d: Data)
    | DataArrives(i: nat)      // any chunk ever sent: first copies, copies, retransmissions
    | SackArrives(p: Report)   // any acknowledgement ever sent
    | TimerFires
    | InitArrives              // the peer's INIT once more: it resets the cumulative number

  // Late by less than 2^31 chunks, and early by less than 2^16.
  predicate Timely(i: nat, count: nat) { count - 0x8000_0000 <= i < count + 0xFFFF }

  ghost predicate Enabled(w: World, step: Step) {
    match step
    case Sends(d) => d.tsn == w.s.current && Sum(w.s.sent) + |d.payload| < WORD
    case DataArrives(i) => i < |w.log| && Timely(i, w.count)
    case SackArrives(p) => p in w.reports && forall i :: i in w.kept ==> Timely(i, p.count)
    case TimerFires => w.s.armed
    case InitArrives => forall i :: i in w.more ==> i < 0xFFFF
  }

  // Every chunk that arrives is answered with an acknowledgement, duplicates too.
  ghost function AfterData(w: World, initial: uint32, i: nat): World
    requires i < |w.log|
  {
    var t := w.log[i].tsn;
    var r, count, more := Take(w.r, t), TakenCount(w.count, w.more, i), MoreAfter(w.r, initial, w.count, w.more, i);
    w.(r := r, count := count, more := more,
       taken := if Duplicate(w.r, t) then w.taken else w.taken + [i],
       reports := w.reports + {Report(count, more, SackOf(r))})
  }

  ghost function Perform(w: World, initial: uint32, step: Step): World
    requires Enabled(w, step)
  {
    match step
    case Sends(d) => w.(s := AfterSend(w.s, d), log := w.log + [d], kept := w.kept + {|w.log|})
    case DataArrives(i) => AfterData(w, initial, i)
    case SackArrives(p) => w.(s := AfterSack(w.s, p.sack), kept := Left(w.log, w.kept, p.sack))
    case TimerFires => w
    case InitArrives => w.(r := w.r.(cum := CumTsn(initial, 0)), count := 0)
  }

  ghost predicate ReportOk(p: Report, initial: uint32, taken: seq<nat>) {
    && p.sack.cum == CumTsn(initial, p.count)
    && (forall i: nat :: i >= p.count ==> (Covers(p.sack.gaps, i - p.count + 1) <==> i in p.more))
    && (forall i: nat :: Arrived(p.count, p.more, i) ==> i in taken)
  }

  ghost predicate Safe(w: World, initial: uint32) {
    && SenderOk(w.s, initial, w.log, w.kept)
    && Stands(w.r, initial, w.count, w.more)
    && (forall i: nat :: Arrived(w.count, w.more, i) ==> i in w.taken)
    && (forall i :: i in w.taken ==> i < |w.log|)
    && (forall p :: p in w.reports ==> ReportOk(p, initial, w.taken))
    && (forall i: nat :: i < |w.log| ==> i in w.kept || i in w.taken)
  }

  // A chunk counts as acknowledged exactly when the receiver had taken it.
  lemma AckedMeans(d: Data, initial: uint32, i: nat, p: Report, taken: seq<nat>)
    requires ReportOk(p, initial, taken) && d.tsn == Tsn(initial, i) && Timely(i, p.count)
    ensures Acked(d, p.sack) <==> Arrived(p.count, p.more, i)
  {
    hide Tsn, CumTsn, AtOrBefore, Offset, Covers;
    SerialOrder(initial, i, p.count);
    if i >= p.count {
      SerialOffset(initial, i, p.count);
    }
  }

  ghost predicate InitialWorld(w: World, initial: uint32) {
    && w.s == Sender(initial, [], 0, false) && w.log == [] && w.kept == {} && w.taken == [] && w.reports == {}
    && w.r == Receiver(CumTsn(initial, 0), {}) && w.count == 0 && w.more == {}
  }

  lemma SendsSafe(w: World, initial: uint32, d: Data)
    requires Safe(w, initial) && Enabled(w, Sends(d))
    ensures Safe(Perform(w, initial, Sends(d)), initial)
  {
    hide SenderOk, Stands, ReportOk, AfterSend, Arrived;
    SendKeeps(w.s, initial, w.log, w.kept, d);
  }

  lemma LogTsn(w: World, initial: uint32, i: nat)
    requires SenderOk(w.s, initial, w.log, w.kept) && i < |w.log|
    ensures w.log[i].tsn == Tsn(initial, i)
  {
  }

  lemma StandsBeyond(r: Receiver, initial: uint32, count: nat, more: set<nat>)
    requires Stands(r, initial, count, more)
    ensures count !in more && forall j :: j in more ==> j > count
  {
  }

  lemma LaterOk(p: Report, initial: uint32, taken: seq<nat>, taken': seq<nat>)
    requires ReportOk(p, initial, taken) && forall i :: i in taken ==> i in taken'
    ensures ReportOk(p, initial, taken')
  {
    hide Covers, CumTsn;
  }

  lemma NewReport(r: Receiver, initial: uint32, count: nat, more: set<nat>, taken: seq<nat>)
    requires Stands(r, initial, count, more) && forall i: nat :: Arrived(count, more, i) ==> i in taken
    ensures ReportOk(Report(count, more, SackOf(r)), initial, taken)
  {
    hide Stands, Covers, CumTsn, Arrived, SackOf;
    SackExact(r, initial, count, more, 0);
    forall i: nat | i >= count ensures Covers(SackOf(r).gaps, i - count + 1) <==> i in more {
      SackExact(r, initial, count, more, i);
    }
  }

  // What the receiver remembers after a chunk: what it remembered, and the chunk.
  lemma TakenArrived(r: Receiver, initial: uint32, count: nat, more: set<nat>, i: nat, k: nat)
    requires count !in more && forall j :: j in more ==> j > count
    requires Evicts(r, Tsn(initial, i)) ==> i > count
    ensures Arrived(TakenCount(count, more, i), MoreAfter(r, initial, count, more, i), k)
            ==> Arrived(count, more, k) || k == i
    ensures !Evicts(r, Tsn(initial, i)) ==>
              (Arrived(TakenCount(count, more, i), MoreAfter(r, initial, count, more, i), k)
               <==> Arrived(count, more, k) || k == i)
  {
    hide Tsn, Evicts, LostIndex;
    TakenExactly(count, more, i, k);
  }

  lemma DataSafe(w: World, initial: uint32, i: nat)
    requires Safe(w, initial) && Enabled(w, DataArrives(i))
    ensures Safe(Perform(w, initial, DataArrives(i)), initial)
  {
    hide SenderOk, Stands, ReportOk, Arrived, Take, TakenCount, MoreAfter, Tsn, SackOf, Duplicate;
    LogTsn(w, initial, i);
    TakeStands(w.r, initial, w.count, w.more, i);
    StandsBeyond(w.r, initial, w.count, w.more);
    var w' := Perform(w, initial, DataArrives(i));
    forall k: nat | Arrived(w'.count, w'.more, k) ensures k in w'.taken {
      TakenArrived(w.r, initial, w.count, w.more, i, k);
    }
    NewReport(w'.r, initial, w'.count, w'.more, w'.taken);
    forall p | p in w'.reports ensures ReportOk(p, initial, w'.taken) {
      if p in w.reports {
        LaterOk(p, initial, w.taken, w'.taken);
      }
    }
  }

  lemma SackSafe(w: World, initial: uint32, p: Report)
    requires Safe(w, initial) && Enabled(w, SackArrives(p))
    ensures Safe(Perform(w, initial, SackArrives(p)), initial)
  {
    hide SenderOk, Stands, Acked, AfterSack, Tsn;
    SackKeeps(w.s, initial, w.log, w.kept, p.sack);
    forall i: nat | i < |w.log| ensures i in Left(w.log, w.kept, p.sack) || i in w.taken {
      if i in w.kept && Acked(w.log[i], p.sack) {
        LogTsn(w, initial, i);
        AckedMeans(w.log[i], initial, i, p, w.taken);
      }
    }
  }

  lemma InitSafe(w: World, initial: uint32)
    requires Safe(w, initial) && Enabled(w, InitArrives)
    ensures Safe(Perform(w, initial, InitArrives), initial)
  {
    hide SenderOk, ReportOk, Tsn, CumTsn, Distance, Listed;
    var r := w.r.(cum := CumTsn(initial, 0));
    forall t | t in r.early ensures Placed(t, r.cum, 0, w.more) {
      PlacedIn(t, w.r.cum, w.count, w.more);
      PlacedFromZero(t, initial, w.count, w.more);
    }
  }

  lemma PlacedFromZero(t: uint32, initial: uint32, count: nat, more: set<nat>)
    requires Placed(t, CumTsn(initial, count), count, more)
    requires forall i :: i in more ==> count < i < 0xFFFF
    ensures Placed(t, CumTsn(initial, 0), 0, more)
  {
  }

  // Safety: over every run, each sequence number allocated so far is still held by the sender or
  // was taken by the receiver.
  lemma StepSafe(w: World, initial: uint32, step: Step)
    requires Safe(w, initial) && Enabled(w, step)
    ensures Safe(Perform(w, initial, step), initial)
  {
    hide Safe, AfterData, AfterSend, AfterSack;
    match step
    case Sends(d) => SendsSafe(w, initial, d);
    case DataArrives(i) => DataSafe(w, initial, i);
    case SackArrives(p) => SackSafe(w, initial, p);
    case TimerFires =>
    case InitArrives => InitSafe(w, initial);
  }

  ghost predicate RunOf(w: World, initial: uint32, steps: seq<Step>)
    decreases |steps|
  {
    steps == [] || (Enabled(w, steps[0]) && RunOf(Perform(w, initial, steps[0]), initial, steps[1..]))
  }

  ghost function After(w: World, initial: uint32, steps: seq<Step>): World
    requires RunOf(w, initial, steps)
    decreases |steps|
  {
    if steps == [] then w else After(Perform(w, initial, steps[0]), initial, steps[1..])
  }

  lemma {:induction false} RunSafe(w: World, initial: uint32, steps: seq<Step>)
    requires Safe(w, initial) && RunOf(w, initial, steps)
    ensures Safe(After(w, initial, steps), initial)
    decreases |steps|
  {
    hide Safe, Perform, Enabled;
    if steps != [] {
      StepSafe(w, initial, steps[0]);
      RunSafe(Perform(w, initial, steps[0]), initial, steps[1..]);
    }
  }

  // In particular over every run from the handshake on.
  lemma EveryRunSafe(w: World, initial: uint32, steps: seq<Step>)
    requires InitialWorld(w, initial) && RunOf(w, initial, steps)
    ensures Safe(After(w, initial, steps), initial)
  {
    hide RunOf, After;
    RunSafe(w, initial, steps);
  }

  // ----- Exactly once -----

  ghost predicate Distinct(taken: seq<nat>) { forall j, k :: 0 <= j < k < |taken| ==> taken[j] != taken[k] }

  // The receiver remembers all it took, and took nothing twice.
  ghost predicate Once(w: World, initial: uint32) {
    && Safe(w, initial) && Distinct(w.taken)
    && forall i: nat :: i in w.taken ==> Arrived(w.count, w.more, i)
  }

  // Neither a full set of early numbers nor a repeated INIT makes the receiver forget.
  ghost predicate Remembers(w: World, step: Step) {
    match step
    case DataArrives(i) => i < |w.log| && !Evicts(w.r, w.log[i].tsn)
    case InitArrives => false
    case _ => true
  }

  lemma StepOnce(w: World, initial: uint32, step: Step)
    requires Once(w, initial) && Enabled(w, step) && Remembers(w, step)
    ensures Once(Perform(w, initial, step), initial)
  {
    hide SenderOk, Stands, ReportOk, Arrived, Take, TakenCount, MoreAfter, Tsn, SackOf, Duplicate, AfterSack, AfterSend, Evicts;
    StepSafe(w, initial, step);
    if step.DataArrives? {
      var i, w' := step.i, Perform(w, initial, step);
      LogTsn(w, initial, i);
      TakeStands(w.r, initial, w.count, w.more, i);
      StandsBeyond(w.r, initial, w.count, w.more);
      forall k: nat | k in w'.taken ensures Arrived(w'.count, w'.more, k) {
        TakenArrived(w.r, initial, w.count, w.more, i, k);
      }
    }
  }

  ghost predicate RemembersAll(w: World, initial: uint32, steps: seq<Step>)
    requires RunOf(w, initial, steps)
    decreases |steps|
  {
    steps == [] || (Remembers(w, steps[0]) && RemembersAll(Perform(w, initial, steps[0]), initial, steps[1..]))
  }

  lemma {:induction false} RunOnce(w: World, initial: uint32, steps: seq<Step>)
    requires Once(w, initial) && RunOf(w, initial, steps) && RemembersAll(w, initial, steps)
    ensures Once(After(w, initial, steps), initial)
    decreases |steps|
  {
    hide Once, Perform, Enabled, Remembers;
    if steps != [] {
      StepOnce(w, initial, steps[0]);
      RunOnce(Perform(w, initial, steps[0]), initial, steps[1..]);
    }
  }

  // The two ways to forget do make a chunk pass for new again: the one evicted, and after a repeated
  // INIT every one but those received early.
  lemma EvictedIsTakenAgain(w: World, initial: uint32, i: nat)
    requires Safe(w, initial) && Enabled(w, DataArrives(i)) && Evicts(w.r, w.log[i].tsn)
    ensures
      var lost, w' := LostIndex(w.r, w.count, w.log[i].tsn), Perform(w, initial, DataArrives(i));
      && lost >= 0 && (lost in w.more || lost == i)
      && !Duplicate(w'.r, Tsn(initial, lost))
  {
    hide SenderOk, Stands, ReportOk, Take, TakenCount, Tsn, SackOf, Duplicate, LostIndex;
    LogTsn(w, initial, i);
    TakeStands(w.r, initial, w.count, w.more, i);
    StandsBeyond(w.r, initial, w.count, w.more);
    var lost, w' := LostIndex(w.r, w.count, w.log[i].tsn), Perform(w, initial, DataArrives(i));
    EvictionKeepsCount(w.r, initial, w.count, w.more, i);
    InReachOf(w.r, initial, w.count, w.more, lost, i);
    DuplicateMeans(w'.r, initial, w'.count, w'.more, lost);
  }

  lemma EvictionKeepsCount(r: Receiver, initial: uint32, count: nat, more: set<nat>, i: nat)
    requires i > count && Evicts(r, Tsn(initial, i))
    ensures TakenCount(count, more, i) == count
    ensures LostIndex(r, count, Tsn(initial, i)) !in MoreAfter(r, initial, count, more, i)
  {
  }

  lemma InReachOf(r: Receiver, initial: uint32, count: nat, more: set<nat>, k: int, i: nat)
    requires Stands(r, initial, count, more) && InReach(count, i) && k in more + {i}
    ensures 0 <= k && InReach(count, k)
  {
  }

  lemma RepeatedInitForgets(w: World, initial: uint32, i: nat)
    requires Safe(w, initial) && Enabled(w, InitArrives) && i < w.count && i < 0xFFFF
    ensures !Duplicate(Perform(w, initial, InitArrives).r, Tsn(initial, i))
  {
    hide Duplicate, Tsn, CumTsn, Stands;
    InitSafe(w, initial);
    StandsBeyond(w.r, initial, w.count, w.more);
    DuplicateMeans(Perform(w, initial, InitArrives).r, initial, 0, w.more, i);
  }

  // ----- Everything acknowledged -----

  // Once every chunk has arrived and is remembered, the receiver's acknowledgement empties the list
  // and stops the timer.
  lemma CompleteReportEmpties(w: World, initial: uint32, p: Report)
    requires Safe(w, initial) && Enabled(w, SackArrives(p))
    requires forall i: nat :: i < |w.log| ==> Arrived(p.count, p.more, i)
    ensures Perform(w, initial, SackArrives(p)).kept == {}
    ensures Perform(w, initial, SackArrives(p)).s.sent == [] && !Perform(w, initial, SackArrives(p)).s.armed
  {
    hide Acked, AfterSack, Tsn, Stands, ReportOk, Sum;
    SackKeeps(w.s, initial, w.log, w.kept, p.sack);
    forall i | i in w.kept ensures i !in Left(w.log, w.kept, p.sack) {
      LogTsn(w, initial, i);
      AckedMeans(w.log[i], initial, i, p, w.taken);
    }
    PickNone(w.log, |w.log|);
  }

  lemma {:induction false} PickNone(log: seq<Data>, n: nat)
    requires n <= |log|
    ensures Pick(log, {}, n) == []
  {
    if n > 0 {
      PickNone(log, n - 1);
    }
  }
}
