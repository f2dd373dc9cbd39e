// The chunks a session has sent and not seen acknowledged (src/sctp/sctp_session.cpp).
module SctpSender {
  import opened Wire
  import opened SctpSerial
  import opened SctpAcks

  datatype Data = Data(tsn: uint32, flags: uint8, streamId: uint16, ssn: uint16, ppid: uint32, payload: bytes)

  // mCurrentTsn, mSentChunks, mFlightSize, and whether mTaskT3Rtx is pending
  datatype Sender = Sender(current: uint32, sent: seq<Data>, flight: uint32, armed: bool)

  const WORD := 0x1_0000_0000

  function Sum(sent: seq<Data>): nat {
    if sent == [] then 0 else Sum(sent[..|sent| - 1]) + |sent[|sent| - 1].payload|
  }

  // A chunk is sent and remembered; the first one in flight starts the timer.
  function AfterSend(s: Sender, d: Data): Sender {
    Sender((s.current + 1) % WORD, s.sent + [d], (s.flight + |d.payload|) % WORD, s.armed || s.sent == [])
  }

  // ----- Acknowledgements -----

  predicate Acked(d: Data, sack: Sack) {
    AtOrBefore(d.tsn, sack.cum) || Covers(sack.gaps, Offset(d.tsn, sack.cum))
  }

  // One walk over the list: against the cumulative number, or against one gap block.
  datatype Test = UpTo(cum: uint32) | Between(cum: uint32, gap: Gap)

  predicate Hits(t: Test, d: Data) {
    match t
    case UpTo(cum) => AtOrBefore(d.tsn, cum)
    case Between(cum, gap) => Within(gap, Offset(d.tsn, cum))
  }

  function Pass(sent: seq<Data>, t: Test): (r: seq<Data>)
    ensures |r| <= |sent|
  {
    if sent == [] then []
    else
      var d := sent[|sent| - 1];
      Pass(sent[..|sent| - 1], t) + if Hits(t, d) then [] else [d]
  }

  function Clamped(flight: uint32, size: nat): uint32 { if flight >= size then flight - size else 0 }

  function PassFlight(flight: uint32, sent: seq<Data>, t: Test): uint32 {
    if sent == [] then flight
    else
      var d, f := sent[|sent| - 1], PassFlight(flight, sent[..|sent| - 1], t);
      if Hits(t, d) then Clamped(f, |d.payload|) else f
  }

  datatype Window = Window(sent: seq<Data>, flight: uint32)

  function AfterPass(w: Window, t: Test): Window { Window(Pass(w.sent, t), PassFlight(w.flight, w.sent, t)) }

  // The walks for the cumulative number and the first `n` gap blocks.
  function AfterPasses(w: Window, sack: Sack, n: nat): Window
    requires n <= |sack.gaps|
  {
    if n == 0 then AfterPass(w, UpTo(sack.cum))
    else AfterPass(AfterPasses(w, sack, n - 1), Between(sack.cum, sack.gaps[n - 1]))
  }

  // Losing a chunk from the list restarts the timer, an empty list stops it.
  function AfterSack(s: Sender, sack: Sack): Sender {
    var w := AfterPasses(Window(s.sent, s.flight), sack, |sack.gaps|);
    Sender(s.current, w.sent, w.flight, w.sent != [] && (s.armed || |w.sent| < |s.sent|))
  }

  // The chunks an acknowledgement does not cover.
  function Unacked(sent: seq<Data>, sack: Sack): seq<Data> {
    if sent == [] then []
    else
      var d := sent[|sent| - 1];
      Unacked(sent[..|sent| - 1], sack) + if Acked(d, sack) then [] else [d]
  }

  // ----- Acknowledged chunks, and only they, leave the list -----

  lemma {:induction false} PassCum(sent: seq<Data>, cum: uint32)
    ensures Pass(sent, UpTo(cum)) == Unacked(sent, Sack(cum, []))
  {
    if sent != [] {
      PassCum(sent[..|sent| - 1], cum);
    }
  }

  lemma {:induction false} PassGap(sent: seq<Data>, cum: uint32, gaps: seq<Gap>, g: Gap)
    ensures Pass(Unacked(sent, Sack(cum, gaps)), Between(cum, g)) == Unacked(sent, Sack(cum, gaps + [g]))
  {
    if sent != [] {
      hide AtOrBefore, Offset, Within, Covers;
      var init, d := sent[..|sent| - 1], sent[|sent| - 1];
      PassGap(init, cum, gaps, g);
      CoversOneMore(gaps, g, Offset(d.tsn, cum));
      var u := Unacked(init, Sack(cum, gaps));
      assert u + [] == u && (u + [d])[..|u|] == u;
    }
  }

  lemma CoversOneMore(gaps: seq<Gap>, g: Gap, o: int)
    ensures Covers(gaps + [g], o) <==> Covers(gaps, o) || Within(g, o)
  {
    assert (gaps + [g])[..|gaps|] == gaps;
  }

  lemma {:induction false} PassesKeepUnacked(w: Window, sack: Sack, n: nat)
    requires n <= |sack.gaps|
    ensures AfterPasses(w, sack, n).sent == Unacked(w.sent, Sack(sack.cum, sack.gaps[..n]))
  {
    hide Pass, Unacked;
    if n == 0 {
      PassCum(w.sent, sack.cum);
    } else {
      PassesKeepUnacked(w, sack, n - 1);
      PassGap(w.sent, sack.cum, sack.gaps[..n - 1], sack.gaps[n - 1]);
      assert sack.gaps[..n - 1] + [sack.gaps[n - 1]] == sack.gaps[..n];
    }
  }

  // However many gap blocks there are, what stays is what the acknowledgement does not cover.
  lemma SackKeepsUnacked(s: Sender, sack: Sack)
    ensures AfterSack(s, sack).sent == Unacked(s.sent, sack)
  {
    PassesKeepUnacked(Window(s.sent, s.flight), sack, |sack.gaps|);
    assert sack.gaps[..|sack.gaps|] == sack.gaps;
  }

  // ----- The flight size -----

  lemma SumSnoc(sent: seq<Data>, d: Data)
    ensures Sum(sent + [d]) == Sum(sent) + |d.payload|
  {
    assert (sent + [d])[..|sent|] == sent;
  }

  lemma PassLast(init: seq<Data>, d: Data, t: Test, flight: uint32)
    ensures Pass(init + [d], t) == if Hits(t, d) then Pass(init, t) else Pass(init, t) + [d]
    ensures PassFlight(flight, init + [d], t)
            == if Hits(t, d) then Clamped(PassFlight(flight, init, t), |d.payload|) else PassFlight(flight, init, t)
  {
    assert (init + [d])[..|init|] == init;
    assert Pass(init, t) + [] == Pass(init, t);
  }

  lemma {:induction false} PassSum(sent: seq<Data>, t: Test, more: nat)
    requires Sum(sent) + more < WORD
    ensures PassFlight(Sum(sent) + more, sent, t) == Sum(Pass(sent, t)) + more
    ensures Sum(Pass(sent, t)) <= Sum(sent)
    decreases |sent|, 1
  {
    if sent != [] {
      var init, d := sent[..|sent| - 1], sent[|sent| - 1];
      assert sent == init + [d];
      PassSumLast(init, d, t, more);
    }
  }

  lemma {:induction false} PassSumLast(init: seq<Data>, d: Data, t: Test, more: nat)
    requires Sum(init + [d]) + more < WORD
    ensures PassFlight(Sum(init + [d]) + more, init + [d], t) == Sum(Pass(init + [d], t)) + more
    ensures Sum(Pass(init + [d], t)) <= Sum(init + [d])
    decreases |init| + 1, 0
  {
    hide Sum, Pass, PassFlight, Hits;
    SumSnoc(init, d);
    PassSum(init, t, more + |d.payload|);
    PassLast(init, d, t, Sum(init + [d]) + more);
    SumSnoc(Pass(init, t), d);
  }

  // The size in flight stays the sum of the sizes in the list; the clamp to 0 never matters.
  lemma {:induction false} PassesSum(w: Window, sack: Sack, n: nat)
    requires n <= |sack.gaps| && w.flight == Sum(w.sent)
    ensures AfterPasses(w, sack, n).flight == Sum(AfterPasses(w, sack, n).sent)
  {
    hide Pass, PassFlight, Sum;
    if n == 0 {
      PassSum(w.sent, UpTo(sack.cum), 0);
    } else {
      PassesSum(w, sack, n - 1);
      PassSum(AfterPasses(w, sack, n - 1).sent, Between(sack.cum, sack.gaps[n - 1]), 0);
    }
  }
}
