// Which chunks have arrived, and the acknowledgement that says so (src/sctp/sctp_session.cpp).
module SctpAcks {
  import opened Wire
  import opened SctpSerial

  const MAX_EARLY := 1024

  // mPeerCumulativeTsn and mPeerOutOfOrderTsns
  datatype Receiver = Receiver(cum: uint32, early: set<uint32>)

  function Next(cum: uint32): uint32 { (cum + 1) % TSN_RANGE }

  predicate Duplicate(r: Receiver, tsn: uint32) { AtOrBefore(tsn, r.cum) || tsn in r.early }

  // The numbers that have become consecutive move from the set to the cumulative number.
  function Advance(r: Receiver): Receiver
    decreases |r.early|
  {
    if Next(r.cum) in r.early then Advance(Receiver(Next(r.cum), r.early - {Next(r.cum)})) else r
  }

  ghost predicate IsLeast(x: uint32, s: set<uint32>) { x in s && forall y :: y in s ==> x <= y }

  lemma LeastExists(s: set<uint32>)
    requires s != {}
    ensures exists x :: IsLeast(x, s)
    decreases |s|
  {
    var x :| x in s;
    var rest := s - {x};
    assert forall y :: y in s ==> y == x || y in rest;
    if rest == {} {
      assert IsLeast(x, s);
    } else {
      LeastExists(rest);
      var m :| IsLeast(m, rest);
      assert IsLeast(if m < x then m else x, s);
    }
  }

  // std::set orders by raw value: begin() is the least.
  function Least(s: set<uint32>): (x: uint32)
    requires s != {}
    ensures IsLeast(x, s)
  {
    LeastExists(s);
    assert exists x :: x in s && forall y :: y in s ==> x <= y by {
      var x :| IsLeast(x, s);
      assert x in s;
    }
    var x :| x in s && forall y :: y in s ==> x <= y;
    x
  }

  function Take(r: Receiver, tsn: uint32): Receiver {
    if Duplicate(r, tsn) then r
    else if tsn == Next(r.cum) then Advance(Receiver(tsn, r.early))
    else
      var more := r.early + {tsn};
      Receiver(r.cum, if |more| > MAX_EARLY then more - {Least(more)} else more)
  }

  predicate Evicts(r: Receiver, tsn: uint32) {
    !Duplicate(r, tsn) && tsn != Next(r.cum) && |r.early + {tsn}| > MAX_EARLY
  }

  // ----- What a receiver stands for -----

  // `r` stands for the first `c` chunks and the chunks of `more`, all within 65535 of the cumulative number.
  ghost predicate Stands(r: Receiver, initial: uint32, c: nat, more: set<nat>) {
    && r.cum == CumTsn(initial, c)
    && (forall i :: i in more ==> InReach(c, i) && Listed(r.early, initial, i))
    && (forall t :: t in r.early ==> Placed(t, r.cum, c, more))
  }

  predicate Listed(early: set<uint32>, initial: uint32, i: nat) { Tsn(initial, i) in early }

  predicate Placed(t: uint32, cum: uint32, c: nat, more: set<nat>) {
    Distance(t, cum) > 0 && c + Distance(t, cum) - 1 in more
  }

  // Beyond the next chunk, and with an offset that 16 bits can hold.
  predicate InReach(c: nat, i: nat) { c < i < c + 0xFFFF }

  lemma StandsIn(r: Receiver, initial: uint32, c: nat, more: set<nat>, i: nat)
    requires Stands(r, initial, c, more) && c <= i < c + 0xFFFF
    ensures Tsn(initial, i) in r.early <==> i in more
  {
    hide Tsn, CumTsn, Distance;
    SerialOrder(initial, i, c);
    if i in more {
      assert Listed(r.early, initial, i);
    }
    if Tsn(initial, i) in r.early {
      assert Placed(Tsn(initial, i), r.cum, c, more);
    }
  }

  lemma DuplicateMeans(r: Receiver, initial: uint32, c: nat, more: set<nat>, i: nat)
    requires Stands(r, initial, c, more) && c - 0x8000_0000 <= i < c + 0xFFFF
    ensures Duplicate(r, Tsn(initial, i)) <==> i < c || i in more
  {
    hide Tsn, CumTsn, Distance, AtOrBefore, Placed, Listed;
    SerialOrder(initial, i, c);
    if i >= c {
      StandsIn(r, initial, c, more, i);
    }
  }

  // How far the cumulative number moves once chunk c has arrived.
  function Reached(c: nat, more: set<nat>): (r: nat)
    ensures r >= c
    decreases |more|
  {
    if c in more then Reached(c + 1, more - {c}) else c
  }

  lemma {:induction false} ReachedAll(c: nat, more: set<nat>)
    requires forall i :: i in more ==> i >= c
    ensures
      var d := Reached(c, more);
      && d !in more && forall i :: c <= i < d ==> i in more
    decreases |more|
  {
    if c in more {
      ReachedAll(c + 1, more - {c});
      forall i | c <= i < Reached(c, more) ensures i in more {
        assert i == c || i in more - {c};
      }
    }
  }

  function Beyond(more: set<nat>, c: nat): set<nat> { set i | i in more && i >= c }

  // After chunk c - 1: `c` has been counted but not yet drained.
  ghost predicate Loose(r: Receiver, initial: uint32, c: nat, more: set<nat>) {
    && r.cum == CumTsn(initial, c)
    && (forall i :: i in more ==> c <= i < c + 0xFFFF && Listed(r.early, initial, i))
    && (forall t :: t in r.early ==> Placed(t, r.cum, c, more))
  }

  lemma LooseNext(r: Receiver, initial: uint32, c: nat, more: set<nat>)
    requires Loose(r, initial, c, more)
    ensures Next(r.cum) in r.early <==> c in more
  {
    hide Tsn, CumTsn, Distance, Next;
    NextIs(r, initial, c);
    SerialOrder(initial, c, c);
    if c in more {
      assert Listed(r.early, initial, c);
    }
    if Next(r.cum) in r.early {
      assert Placed(Next(r.cum), r.cum, c, more);
    }
  }

  lemma LooseStep(r: Receiver, initial: uint32, c: nat, more: set<nat>)
    requires Loose(r, initial, c, more) && c in more
    ensures Loose(Receiver(Next(r.cum), r.early - {Next(r.cum)}), initial, c + 1, more - {c})
  {
    hide Tsn, CumTsn, Distance, Next, Placed, Listed;
    var r' := Receiver(Next(r.cum), r.early - {Next(r.cum)});
    NextIs(r, initial, c);
    forall i | i in more - {c} ensures Listed(r'.early, initial, i) {
      StillListed(r.early, initial, c, i);
    }
    forall t | t in r'.early ensures Placed(t, r'.cum, c + 1, more - {c}) {
      StillPlaced(t, r.cum, c, more);
    }
  }

  lemma StillListed(early: set<uint32>, initial: uint32, c: nat, i: nat)
    requires c < i < c + TSN_RANGE && Listed(early, initial, i)
    ensures Listed(early - {Tsn(initial, c)}, initial, i)
  {
    hide Tsn;
    TsnApart(initial, c, i);
  }

  lemma StillPlaced(t: uint32, cum: uint32, c: nat, more: set<nat>)
    requires t != Next(cum) && Placed(t, cum, c, more)
    ensures Placed(t, Next(cum), c + 1, more - {c})
  {
    hide Distance, Next;
    DistanceNext(t, cum);
  }

  lemma NextIs(r: Receiver, initial: uint32, c: nat)
    requires r.cum == CumTsn(initial, c)
    ensures Next(r.cum) == Tsn(initial, c) == CumTsn(initial, c + 1)
  {
    NextTsn(initial, c);
    NextCumTsn(initial, c);
  }

  lemma DistanceNext(t: uint32, cum: uint32)
    requires t != Next(cum)
    ensures t != cum ==> Distance(t, Next(cum)) == Distance(t, cum) - 1
    ensures Distance(t, cum) != 1
    ensures t == cum ==> Distance(t, cum) == 0
  {
  }

  lemma {:induction false} AdvanceStands(r: Receiver, initial: uint32, c: nat, more: set<nat>)
    requires Loose(r, initial, c, more)
    ensures Stands(Advance(r), initial, Reached(c, more), Beyond(more, Reached(c, more)))
    decreases |more|
  {
    hide Loose, Distance, Tsn, CumTsn, Next, Placed, Listed;
    LooseNext(r, initial, c, more);
    if c in more {
      LooseStep(r, initial, c, more);
      AdvanceStands(Receiver(Next(r.cum), r.early - {Next(r.cum)}), initial, c + 1, more - {c});
      assert Beyond(more, Reached(c, more)) == Beyond(more - {c}, Reached(c, more));
    } else {
      LooseDone(r, initial, c, more);
    }
  }

  lemma LooseDone(r: Receiver, initial: uint32, c: nat, more: set<nat>)
    requires Loose(r, initial, c, more) && c !in more
    ensures Stands(r, initial, c, Beyond(more, c))
  {
    hide Placed, Listed;
    assert Beyond(more, c) == more;
  }

  // ----- What one chunk does -----

  // The unwrapped state after chunk i, when nothing is evicted.
  function TakenCount(c: nat, more: set<nat>, i: nat): nat { if i == c then Reached(c + 1, more) else c }

  function TakenMore(c: nat, more: set<nat>, i: nat): set<nat> {
    if i < c then more else if i == c then Beyond(more, Reached(c + 1, more)) else more + {i}
  }

  // Which chunks have arrived, as far as the receiver remembers.
  predicate Arrived(c: nat, more: set<nat>, i: nat) { i < c || i in more }

  lemma CountOne(r: Receiver, initial: uint32, c: nat, more: set<nat>)
    requires Stands(r, initial, c, more)
    ensures Loose(Receiver(Next(r.cum), r.early), initial, c + 1, more)
  {
    hide Tsn, CumTsn, Distance, Next, Listed;
    NextIs(r, initial, c);
    forall t | t in r.early ensures Placed(t, Next(r.cum), c + 1, more) {
      NotNext(t, r.cum, c, more);
    }
  }

  lemma NotNext(t: uint32, cum: uint32, c: nat, more: set<nat>)
    requires Placed(t, cum, c, more) && c !in more
    ensures Placed(t, Next(cum), c + 1, more)
  {
    hide Distance, Next;
    if t == Next(cum) {
      DistanceOfNext(cum);
    }
    DistanceNext(t, cum);
  }

  lemma DistanceOfNext(cum: uint32)
    ensures Distance(Next(cum), cum) == 1
  {
  }

  lemma AddEarly(r: Receiver, initial: uint32, c: nat, more: set<nat>, i: nat)
    requires Stands(r, initial, c, more) && InReach(c, i)
    ensures Stands(Receiver(r.cum, r.early + {Tsn(initial, i)}), initial, c, more + {i})
  {
    hide Tsn, CumTsn, Distance;
    SerialOrder(initial, i, c);
    var early, more' := r.early + {Tsn(initial, i)}, more + {i};
    forall j | j in more' ensures InReach(c, j) && Listed(early, initial, j) {
      assert j == i || Listed(r.early, initial, j);
    }
    forall t | t in early ensures Placed(t, r.cum, c, more') {
      assert t == Tsn(initial, i) || Placed(t, r.cum, c, more);
    }
  }

  // Forgetting one number.
  lemma DropEarly(r: Receiver, initial: uint32, c: nat, more: set<nat>, t: uint32)
    requires Stands(r, initial, c, more) && t in r.early
    ensures
      var i := c + Distance(t, r.cum) - 1;
      i in more && Stands(Receiver(r.cum, r.early - {t}), initial, c, more - {i})
  {
    hide Tsn, CumTsn, Distance, Listed, Placed, InReach;
    PlacedIn(t, r.cum, c, more);
    var i, early := c + Distance(t, r.cum) - 1, r.early - {t};
    forall j | j in more - {i} ensures Listed(early, initial, j) {
      ListedOther(r.early, initial, c, r.cum, t, j);
    }
    forall u | u in early ensures Placed(u, r.cum, c, more - {i}) {
      PlacedOther(t, u, r.cum, c, more);
    }
  }

  lemma PlacedIn(t: uint32, cum: uint32, c: nat, more: set<nat>)
    requires Placed(t, cum, c, more)
    ensures Distance(t, cum) > 0 && c + Distance(t, cum) - 1 in more
  {
  }

  lemma ListedOther(early: set<uint32>, initial: uint32, c: nat, cum: uint32, t: uint32, j: nat)
    requires cum == CumTsn(initial, c) && InReach(c, j) && Listed(early, initial, j) && j != c + Distance(t, cum) - 1
    ensures Listed(early - {t}, initial, j)
  {
    hide Tsn, CumTsn, Distance;
    SerialOrder(initial, j, c);
  }

  lemma PlacedOther(t: uint32, u: uint32, cum: uint32, c: nat, more: set<nat>)
    requires Placed(t, cum, c, more) && Placed(u, cum, c, more) && t != u
    ensures Placed(u, cum, c, more - {c + Distance(t, cum) - 1})
  {
    hide Distance;
    if Distance(t, cum) == Distance(u, cum) {
      SameDistance(t, u, cum);
    }
  }

  lemma SameDistance(t: uint32, u: uint32, cum: uint32)
    requires Distance(t, cum) == Distance(u, cum)
    ensures t == u
  {
  }

  // The chunk whose number is evicted.
  function LostIndex(r: Receiver, c: nat, tsn: uint32): int { c + Distance(Least(r.early + {tsn}), r.cum) - 1 }

  function MoreAfter(r: Receiver, initial: uint32, c: nat, more: set<nat>, i: nat): set<nat> {
    if Evicts(r, Tsn(initial, i)) then set j | j in more + {i} && j != LostIndex(r, c, Tsn(initial, i))
    else TakenMore(c, more, i)
  }

  // A chunk within reach: a duplicate changes nothing; anything else is added, and only then may
  // something be evicted.
  lemma TakeStands(r: Receiver, initial: uint32, c: nat, more: set<nat>, i: nat)
    requires Stands(r, initial, c, more) && c - 0x8000_0000 <= i < c + 0xFFFF
    ensures Duplicate(r, Tsn(initial, i)) <==> Arrived(c, more, i)
    ensures Stands(Take(r, Tsn(initial, i)), initial, TakenCount(c, more, i), MoreAfter(r, initial, c, more, i))
    ensures Evicts(r, Tsn(initial, i)) ==> i > c && LostIndex(r, c, Tsn(initial, i)) in more + {i}
  {
    hide Tsn, CumTsn, Distance, Stands, Loose, Duplicate, Next, Least, Advance, Reached;
    var t := Tsn(initial, i);
    DuplicateMeans(r, initial, c, more, i);
    StandsNext(r, initial, c, more, i);
    if !Duplicate(r, t) {
      if i == c {
        CountOne(r, initial, c, more);
        AdvanceStands(Receiver(t, r.early), initial, c + 1, more);
      } else {
        AddEarly(r, initial, c, more, i);
        var added := Receiver(r.cum, r.early + {t});
        if Evicts(r, t) {
          LeastIn(added.early);
          DropEarly(added, initial, c, more + {i}, Least(added.early));
          assert MoreAfter(r, initial, c, more, i) == more + {i} - {LostIndex(r, c, t)};
        }
      }
    } else if i >= c {
      assert more + {i} == more;
    }
  }

  lemma LeastIn(s: set<uint32>)
    requires s != {}
    ensures Least(s) in s
  {
  }

  lemma StandsNext(r: Receiver, initial: uint32, c: nat, more: set<nat>, i: nat)
    requires Stands(r, initial, c, more) && i < c + 0xFFFF
    ensures c !in more
    ensures i >= c ==> (Tsn(initial, i) == Next(r.cum) <==> i == c)
  {
    hide Tsn, CumTsn, Next;
    NextIs(r, initial, c);
    if i > c {
      TsnApart(initial, c, i);
    }
  }

  // No chunk is forgotten or invented.
  lemma TakenExactly(c: nat, more: set<nat>, i: nat, k: nat)
    requires c !in more && (forall j :: j in more ==> j > c)
    ensures Arrived(TakenCount(c, more, i), TakenMore(c, more, i), k) <==> Arrived(c, more, k) || k == i
  {
    hide Reached;
    ReachedAll(c + 1, more);
  }

  // ----- Gap blocks -----

  datatype Gap = Gap(start: uint16, end: uint16)

  datatype Sack = Sack(cum: uint32, gaps: seq<Gap>)

  ghost predicate IsNearest(x: uint32, s: set<uint32>, cum: uint32) {
    x in s && forall y :: y in s ==> Distance(x, cum) <= Distance(y, cum)
  }

  lemma NearestExists(s: set<uint32>, cum: uint32)
    requires s != {}
    ensures exists x :: IsNearest(x, s, cum)
    decreases |s|
  {
    hide Distance;
    var x :| x in s;
    var rest := s - {x};
    assert forall y :: y in s ==> y == x || y in rest;
    if rest == {} {
      assert IsNearest(x, s, cum);
    } else {
      NearestExists(rest, cum);
      var m :| IsNearest(m, rest, cum);
      assert IsNearest(if Distance(m, cum) < Distance(x, cum) then m else x, s, cum);
    }
  }

  lemma NearestUnique(s: set<uint32>, cum: uint32, x: uint32, y: uint32)
    requires IsNearest(x, s, cum) && IsNearest(y, s, cum)
    ensures x == y
  {
    SameDistance(x, y, cum);
  }

  ghost function Nearest(s: set<uint32>, cum: uint32): (x: uint32)
    requires s != {}
    ensures IsNearest(x, s, cum)
  {
    NearestExists(s, cum);
    var x :| IsNearest(x, s, cum);
    x
  }

  // Sorted by distance from the cumulative number.
  ghost function Sorted(s: set<uint32>, cum: uint32): (r: seq<uint32>)
    ensures |r| == |s|
    decreases |s|
  {
    if s == {} then [] else [Nearest(s, cum)] + Sorted(s - {Nearest(s, cum)}, cum)
  }

  function Offsets(tsns: seq<uint32>, cum: uint32): (r: seq<uint16>)
    ensures |r| == |tsns|
  {
    if tsns == [] then []
    else Offsets(tsns[..|tsns| - 1], cum) + [Offset(tsns[|tsns| - 1], cum)]
  }

  // Consecutive offsets share a block; the last block is the one still growing.
  function Blocks(offs: seq<uint16>): seq<Gap> {
    if offs == [] then [] else Grow(Blocks(offs[..|offs| - 1]), offs[|offs| - 1])
  }

  function Grow(b: seq<Gap>, o: uint16): (r: seq<Gap>)
    ensures r != [] && r[|r| - 1].end == o
  {
    if b != [] && o == (b[|b| - 1].end + 1) % 0x1_0000 then b[..|b| - 1] + [Gap(b[|b| - 1].start, o)]
    else b + [Gap(o, o)]
  }

  ghost function SackOf(r: Receiver): Sack { Sack(r.cum, Blocks(Offsets(Sorted(r.early, r.cum), r.cum))) }

  predicate Within(g: Gap, o: int) { g.start <= o <= g.end }

  predicate Covers(gaps: seq<Gap>, o: int) {
    gaps != [] && (Within(gaps[|gaps| - 1], o) || Covers(gaps[..|gaps| - 1], o))
  }

  // Ascending, with at least one offset missing between neighbours.
  ghost predicate Separated(gaps: seq<Gap>) {
    && (forall k :: 0 <= k < |gaps| ==> gaps[k].start <= gaps[k].end)
    && (forall j, k :: 0 <= j < k < |gaps| ==> gaps[j].end + 1 < gaps[k].start)
  }

  ghost predicate Ascending(offs: seq<uint16>) { forall j, k :: 0 <= j < k < |offs| ==> offs[j] < offs[k] }

  // The last block ends below `o`.
  predicate Below(b: seq<Gap>, o: uint16) { b != [] ==> b[|b| - 1].end < o }

  lemma GrowSeparated(b: seq<Gap>, o: uint16)
    requires Separated(b) && Below(b, o)
    ensures Separated(Grow(b, o))
  {
  }

  lemma GrowCovers(b: seq<Gap>, o: uint16, x: int)
    requires Below(b, o) && Separated(b)
    ensures Covers(Grow(b, o), x) <==> Covers(b, x) || x == o
  {
    assert (b + [Gap(o, o)])[..|b|] == b;
    if b != [] {
      var n := |b| - 1;
      assert (b[..n] + [Gap(b[n].start, o)])[..n] == b[..n];
    }
  }

  lemma AscendingInit(offs: seq<uint16>)
    requires offs != [] && Ascending(offs)
    ensures Ascending(offs[..|offs| - 1])
    ensures |offs| > 1 ==> offs[|offs| - 2] < offs[|offs| - 1]
  {
  }

  lemma {:induction false} BlocksSeparated(offs: seq<uint16>)
    requires Ascending(offs)
    ensures Separated(Blocks(offs))
    ensures offs != [] ==> Blocks(offs) != [] && Blocks(offs)[|Blocks(offs)| - 1].end == offs[|offs| - 1]
  {
    hide Separated, Grow, Ascending;
    if offs != [] {
      AscendingInit(offs);
      BlocksSeparated(offs[..|offs| - 1]);
      GrowSeparated(Blocks(offs[..|offs| - 1]), offs[|offs| - 1]);
    } else {
      SeparatedNone();
    }
  }

  // The blocks are separated and hold exactly the offsets they were made from.
  lemma {:induction false} BlocksExact(offs: seq<uint16>, x: int)
    requires Ascending(offs)
    ensures Separated(Blocks(offs))
    ensures Covers(Blocks(offs), x) <==> exists k :: 0 <= k < |offs| && offs[k] == x
  {
    hide Separated, Grow, Ascending, Covers;
    BlocksSeparated(offs);
    if offs != [] {
      var init, o := offs[..|offs| - 1], offs[|offs| - 1];
      AscendingInit(offs);
      BlocksSeparated(init);
      BlocksExact(init, x);
      GrowCovers(Blocks(init), o, x);
      if k :| 0 <= k < |init| && init[k] == x {
        assert offs[k] == x;
      }
      if k :| 0 <= k < |offs| && offs[k] == x && x != o {
        assert init[k] == x;
      }
    } else {
      CoversNone(x);
    }
  }

  lemma CoversNone(x: int)
    ensures !Covers([], x)
  {
  }

  lemma SeparatedNone()
    ensures Separated([])
  {
  }

  ghost predicate AscendingFrom(tsns: seq<uint32>, cum: uint32) {
    forall j, k :: 0 <= j < k < |tsns| ==> Distance(tsns[j], cum) < Distance(tsns[k], cum)
  }

  lemma {:induction false} SortedHolds(s: set<uint32>, cum: uint32, t: uint32)
    ensures t in Sorted(s, cum) <==> t in s
    decreases |s|
  {
    if s != {} {
      SortedHolds(s - {Nearest(s, cum)}, cum, t);
    }
  }

  lemma {:induction false} SortedAscends(s: set<uint32>, cum: uint32)
    ensures AscendingFrom(Sorted(s, cum), cum)
    decreases |s|
  {
    hide Distance, Nearest;
    if s != {} {
      var x := Nearest(s, cum);
      var rest := Sorted(s - {x}, cum);
      SortedAscends(s - {x}, cum);
      forall k | 0 <= k < |rest| ensures Distance(x, cum) < Distance(rest[k], cum) {
        SortedHolds(s - {x}, cum, rest[k]);
        NearestFirst(s, cum, rest[k]);
      }
    }
  }

  lemma NearestFirst(s: set<uint32>, cum: uint32, t: uint32)
    requires t in s && t != Nearest(s, cum)
    ensures Distance(Nearest(s, cum), cum) < Distance(t, cum)
  {
    if Distance(Nearest(s, cum), cum) == Distance(t, cum) {
      SameDistance(Nearest(s, cum), t, cum);
    }
  }

  lemma {:induction false} OffsetsAt(tsns: seq<uint32>, cum: uint32, k: nat)
    requires k < |tsns|
    ensures Offsets(tsns, cum)[k] == Offset(tsns[k], cum)
  {
    if k < |tsns| - 1 {
      OffsetsAt(tsns[..|tsns| - 1], cum, k);
    }
  }

  lemma NearOffset(t: uint32, cum: uint32)
    requires Distance(t, cum) < 0x1_0000
    ensures Offset(t, cum) == Distance(t, cum)
  {
  }

  lemma OffsetsAscend(tsns: seq<uint32>, cum: uint32)
    requires AscendingFrom(tsns, cum) && forall k :: 0 <= k < |tsns| ==> Distance(tsns[k], cum) < 0x1_0000
    ensures Ascending(Offsets(tsns, cum))
    ensures forall k :: 0 <= k < |tsns| ==> Offsets(tsns, cum)[k] == Distance(tsns[k], cum)
  {
    hide Distance, Offset, Offsets;
    forall k | 0 <= k < |tsns| ensures Offsets(tsns, cum)[k] == Distance(tsns[k], cum) {
      OffsetsAt(tsns, cum, k);
      NearOffset(tsns[k], cum);
    }
  }

  ghost predicate Early(r: Receiver, d: int) { exists t :: t in r.early && Distance(t, r.cum) == d }

  ghost predicate AllNear(r: Receiver) { forall t :: t in r.early ==> Distance(t, r.cum) < 0x1_0000 }

  lemma NearExact(r: Receiver, d: int)
    requires AllNear(r)
    ensures Separated(SackOf(r).gaps)
    ensures Covers(SackOf(r).gaps, d) <==> Early(r, d)
  {
    hide Distance, Offsets, Blocks, Separated, Covers, Sorted, Ascending, AscendingFrom;
    var tsns := Sorted(r.early, r.cum);
    forall k | 0 <= k < |tsns| ensures Distance(tsns[k], r.cum) < 0x1_0000 {
      SortedHolds(r.early, r.cum, tsns[k]);
    }
    SortedAscends(r.early, r.cum);
    OffsetsAscend(tsns, r.cum);
    BlocksExact(Offsets(tsns, r.cum), d);
    if Early(r, d) {
      var t :| t in r.early && Distance(t, r.cum) == d;
      SortedHolds(r.early, r.cum, t);
      var k :| 0 <= k < |tsns| && tsns[k] == t;
      assert Offsets(tsns, r.cum)[k] == d;
    }
    if k :| 0 <= k < |tsns| && Offsets(tsns, r.cum)[k] == d {
      SortedHolds(r.early, r.cum, tsns[k]);
    }
  }

  lemma {:induction false} CoversSmall(gaps: seq<Gap>, d: int)
    requires Covers(gaps, d)
    ensures d < 0x1_0000
  {
    if !Within(gaps[|gaps| - 1], d) {
      CoversSmall(gaps[..|gaps| - 1], d);
    }
  }

  // The gap blocks report exactly the numbers received early if and only if all of them are within
  // 65535 of the cumulative number: offsets are cut to 16 bits.
  lemma GapBlocksExactly(r: Receiver)
    ensures (forall d: int :: Covers(SackOf(r).gaps, d) <==> Early(r, d)) <==> AllNear(r)
  {
    hide Distance, SackOf, Covers;
    if AllNear(r) {
      forall d: int ensures Covers(SackOf(r).gaps, d) <==> Early(r, d) {
        NearExact(r, d);
      }
    }
    if forall d: int :: Covers(SackOf(r).gaps, d) <==> Early(r, d) {
      forall t | t in r.early ensures Distance(t, r.cum) < 0x1_0000 {
        assert Early(r, Distance(t, r.cum));
        CoversSmall(SackOf(r).gaps, Distance(t, r.cum));
      }
    }
  }

  // The acknowledgement says exactly what has arrived: the first c chunks and, by offset, the chunks
  // of `more`.
  lemma SackExact(r: Receiver, initial: uint32, c: nat, more: set<nat>, i: nat)
    requires Stands(r, initial, c, more)
    ensures SackOf(r).cum == CumTsn(initial, c) && Separated(SackOf(r).gaps)
    ensures i >= c ==> (Covers(SackOf(r).gaps, i - c + 1) <==> i in more)
  {
    hide Distance, Blocks, Separated, Covers, Sorted, Tsn, CumTsn, Placed, Listed;
    forall t | t in r.early ensures Distance(t, r.cum) < 0x1_0000 {
      PlacedIn(t, r.cum, c, more);
    }
    NearExact(r, i - c + 1);
    if i in more {
      ListedIn(r.early, initial, c, i);
    }
    if i >= c && Early(r, i - c + 1) {
      var t :| t in r.early && Distance(t, r.cum) == i - c + 1;
      PlacedIn(t, r.cum, c, more);
    }
  }

  lemma ListedIn(early: set<uint32>, initial: uint32, c: nat, i: nat)
    requires InReach(c, i) && Listed(early, initial, i)
    ensures Tsn(initial, i) in early && Distance(Tsn(initial, i), CumTsn(initial, c)) == i - c + 1
  {
    hide Tsn, CumTsn, Distance;
    SerialOrder(initial, i, c);
  }

  // Beyond 16 bits an offset lies: a receiver that holds nothing but the chunk 65538 places after the
  // cumulative number reports the one 2 places after it.
  lemma LongOffsetLies(cum: uint32)
    ensures Covers(SackOf(Receiver(cum, {(cum + 0x1_0002) % TSN_RANGE})).gaps, 2)
  {
    var t: uint32 := (cum + 0x1_0002) % TSN_RANGE;
    LongOffset(cum);
    assert {t} - {t} == {};
    assert Sorted({t}, cum) == [t];
    assert Offsets([t], cum) == [Offset(t, cum)];
    assert Blocks([2]) == [Gap(2, 2)];
  }

  lemma LongOffset(cum: uint32)
    ensures Offset((cum + 0x1_0002) % TSN_RANGE, cum) == 2
  {
  }
}
