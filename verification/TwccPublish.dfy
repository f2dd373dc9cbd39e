// The publisher's history of sent packets (src/twcc_publish.cpp).
module TwccPublish {
  import opened Wire

  const MAX_PACKET_COUNT := 2048

  datatype Sizes = Sizes(padding: uint16, payload: uint16, generated: uint16, encrypted: uint16)

  datatype PublishPacket = PublishPacket(
    seqNo: uint16, sizes: Sizes, sentTime: int,
    receivedTime: int, receivedTimePresent: bool, reportedStatus: nat)

  // A record after memset.
  const BLANK := PublishPacket(0, Sizes(0, 0, 0, 0), 0, 0, false, 0)

  // The records of consecutive sequence numbers, modulo 2^16, from `min` on.
  datatype History = History(min: uint16, recs: seq<PublishPacket>) {
    function Offset(s: uint16): nat { (s - min) % 0x1_0000 }

    predicate Knows(s: uint16) { Offset(s) < |recs| }

    function Find(s: uint16): PublishPacket
      requires Knows(s)
    {
      recs[Offset(s)]
    }
  }

  function Newest(h: History): (r: History)
    ensures |r.recs| == if |h.recs| <= MAX_PACKET_COUNT then |h.recs| else MAX_PACKET_COUNT
  {
    if |h.recs| <= MAX_PACKET_COUNT then h
    else
      var n := |h.recs| - MAX_PACKET_COUNT;
      History((h.min + n) % 0x1_0000, h.recs[n..])
  }

  function Append(h: History, rs: seq<PublishPacket>): History { h.(recs := h.recs + rs) }

  // How many sequence numbers lie between the last record and `s`.
  function Skipped(h: History, s: uint16): nat { (s - h.min - |h.recs|) % 0x1_0000 }

  // Skipped sequence numbers get blank records; the newest 2048 are kept.
  function Remember(h: History, r: PublishPacket): History {
    Newest(Append(h, Repeat(BLANK, Skipped(h, r.seqNo)) + [r]))
  }

  // Records sent with consecutive sequence numbers.
  ghost predicate Consecutive(rs: seq<PublishPacket>) {
    forall i, j :: 0 <= i < j < |rs| && j == i + 1 ==> rs[j].seqNo == (rs[i].seqNo + 1) % 0x1_0000
  }

  function RememberAll(h: History, rs: seq<PublishPacket>): History
    decreases |rs|
  {
    if rs == [] then h else RememberAll(Remember(h, rs[0]), rs[1..])
  }

  lemma NewestNewest(h: History, rs: seq<PublishPacket>)
    ensures Newest(Append(Newest(h), rs)) == Newest(Append(h, rs))
  {
    var n, m := |h.recs| - MAX_PACKET_COUNT, |rs|;
    if n > 0 {
      var all := h.recs + rs;
      assert h.recs[n..] + rs == all[n..];
      assert all[n..][m..] == all[n + m..];
      assert ((h.min + n) % 0x1_0000 + m) % 0x1_0000 == (h.min + (n + m)) % 0x1_0000;
    }
  }

  lemma NewestSelf(h: History)
    requires |h.recs| <= MAX_PACKET_COUNT
    ensures Newest(Append(h, Repeat(BLANK, 0))) == h
  {
    assert h.recs + [] == h.recs;
  }

  lemma SkipOne(h: History, k: nat)
    ensures Newest(Append(Newest(Append(h, Repeat(BLANK, k))), [BLANK])) == Newest(Append(h, Repeat(BLANK, k + 1)))
  {
    NewestNewest(Append(h, Repeat(BLANK, k)), [BLANK]);
    RepeatSnoc(BLANK, k);
    assert h.recs + Repeat(BLANK, k) + [BLANK] == h.recs + Repeat(BLANK, k + 1);
  }

  lemma Reaches(h: History, s: uint16, k: nat)
    requires k <= Skipped(h, s)
    ensures (h.min + |h.recs| + k) % 0x1_0000 == s <==> k == Skipped(h, s)
    ensures ((h.min + |h.recs| + k - 1) % 0x1_0000 + 1) % 0x1_0000 == (h.min + |h.recs| + k) % 0x1_0000
  {
  }

  lemma NewestEnd(h: History, s: uint16)
    requires h.recs != [] && s == (h.min + |h.recs| - 1) % 0x1_0000
    ensures Newest(h).Offset(s) == |Newest(h).recs| - 1
    ensures (s + 1) % 0x1_0000 == (Newest(h).min + |Newest(h).recs|) % 0x1_0000
  {
    var m := Newest(h).min + |Newest(h).recs| - 1;
    assert m % 0x1_0000 == s;
    assert (m - Newest(h).min) % 0x1_0000 == |Newest(h).recs| - 1;
  }

  lemma NewestLast(h: History, all: seq<PublishPacket>, x: PublishPacket, r: PublishPacket)
    ensures
      var b := Newest(h.(recs := all + [x]));
      b.recs != [] && b.(recs := b.recs[|b.recs| - 1 := r]) == Newest(h.(recs := all + [r]))
  {
  }

  // The last of the skipped and blanked records is the one for the packet itself.
  lemma FillLast(h: History, r: PublishPacket)
    ensures
      var b := Newest(Append(h, Repeat(BLANK, Skipped(h, r.seqNo) + 1)));
      && b.Offset(r.seqNo) == |b.recs| - 1
      && b.(recs := b.recs[|b.recs| - 1 := r]) == Remember(h, r)
  {
    hide Newest, Repeat, History.Offset;
    var n := Skipped(h, r.seqNo);
    RepeatSnoc(BLANK, n);
    var all := h.recs + Repeat(BLANK, n);
    assert h.recs + Repeat(BLANK, n + 1) == all + [BLANK];
    assert h.recs + (Repeat(BLANK, n) + [r]) == all + [r];
    NewestLast(h, all, BLANK, r);
    NewestEnd(h.(recs := all + [BLANK]), r.seqNo);
  }

  lemma NextInOrder(h: History, r: PublishPacket)
    requires r.seqNo == (h.min + |h.recs|) % 0x1_0000
    ensures Remember(h, r) == Newest(Append(h, [r]))
  {
    assert Repeat(BLANK, 0) + [r] == [r];
    assert Skipped(h, r.seqNo) == 0;
  }

  // For consecutive packets the history is exactly the last 2048 records, in order.
  lemma {:induction false} ConsecutiveRun(h: History, rs: seq<PublishPacket>)
    requires h.recs != [] && Consecutive(rs)
    requires rs != [] ==> rs[0].seqNo == (h.min + |h.recs|) % 0x1_0000
    requires |h.recs| <= MAX_PACKET_COUNT
    ensures RememberAll(h, rs) == Newest(Append(h, rs))
    decreases |rs|
  {
    hide Consecutive, History.Offset, Newest, Skipped, Repeat, Remember;
    if rs == [] {
      NewestSelf(h);
      assert h.recs + [] == h.recs + Repeat(BLANK, 0);
    } else {
      var r, rest := rs[0], rs[1..];
      var h' := Append(h, [r]);
      NextInOrder(h, r);
      NewestEnd(h', r.seqNo);
      ConsecutiveRest(rs);
      ConsecutiveRun(Newest(h'), rest);
      NewestNewest(h', rest);
      assert h.recs + [r] + rest == h.recs + rs;
    }
  }

  // One packet, exactly: it is the last on record; between it and the last one before it there are blank
  // records; the oldest go when there are more than 2048; every other record is what it was.
  lemma RememberExactly(h: History, r: PublishPacket)
    requires 0 < |h.recs| <= 2048
    ensures
      var h', gap := Remember(h, r), (r.seqNo - (h.min + |h.recs|)) % 0x1_0000;
      var all := |h.recs| + gap + 1;
      var gone := if all > 2048 then all - 2048 else 0;
      && |h'.recs| == all - gone && h'.min == (h.min + gone) % 0x1_0000
      && h'.Knows(r.seqNo) && h'.Find(r.seqNo) == r
      && forall k :: 0 <= k < |h'.recs| ==>
           h'.recs[k] == if gone + k < |h.recs| then h.recs[gone + k] else if gone + k < all - 1 then BLANK else r
  {
    hide History.Offset;
    var n := Skipped(h, r.seqNo);
    RepeatAt(BLANK, n);
    var added := Append(h, Repeat(BLANK, n) + [r]);
    Reaches(h, r.seqNo, n);
    NewestEnd(added, r.seqNo);
  }

  lemma ConsecutiveRest(rs: seq<PublishPacket>)
    requires Consecutive(rs) && rs != []
    ensures Consecutive(rs[1..])
    ensures |rs| > 1 ==> rs[1].seqNo == (rs[0].seqNo + 1) % 0x1_0000
  {
  }

  // ----- The ring -----

  function Cell(x: nat): (c: nat)
    ensures c < MAX_PACKET_COUNT
  {
    x % MAX_PACKET_COUNT
  }

  lemma CellsApart(x: nat, y: nat)
    requires x < y < x + MAX_PACKET_COUNT
    ensures Cell(x) != Cell(y)
  {
  }

  // 2048 divides 2^16.
  lemma CellWraps(x: nat, k: nat)
    requires x <= 0x2_0000
    ensures Cell(x % 0x1_0000 + k) == Cell(x + k)
  {
    var q := x / 0x1_0000;
    assert x == 0x1_0000 * q + x % 0x1_0000;
    assert 0 <= q <= 2;
  }

  ghost predicate RingShows(slots: seq<PublishPacket>, h: History) {
    && |slots| == MAX_PACKET_COUNT
    && forall k :: 0 <= k < |h.recs| ==> slots[Cell(h.min + k)] == h.recs[k]
  }

  // Rewriting one record, or adding one while there is room.
  lemma RingUpdate(slots: seq<PublishPacket>, h: History, o: nat, r: PublishPacket)
    requires RingShows(slots, h) && o <= |h.recs| <= MAX_PACKET_COUNT && o < MAX_PACKET_COUNT
    ensures RingShows(slots[Cell(h.min + o) := r], h.(recs := Written(h.recs, o, r)))
  {
    hide Cell;
    var recs, slots' := Written(h.recs, o, r), slots[Cell(h.min + o) := r];
    forall k | 0 <= k < |recs| ensures slots'[Cell(h.min + k)] == recs[k] {
      if k < o {
        CellsApart(h.min + k, h.min + o);
      } else if o < k {
        CellsApart(h.min + o, h.min + k);
      }
    }
  }

  function Written(recs: seq<PublishPacket>, o: nat, r: PublishPacket): seq<PublishPacket>
    requires o <= |recs|
  {
    if o < |recs| then recs[o := r] else recs + [r]
  }

  // Letting go of the oldest record.
  lemma RingDropFirst(slots: seq<PublishPacket>, h: History)
    requires RingShows(slots, h) && h.recs != []
    ensures RingShows(slots, History((h.min + 1) % 0x1_0000, h.recs[1..]))
  {
    hide Cell;
    var h' := History((h.min + 1) % 0x1_0000, h.recs[1..]);
    forall k | 0 <= k < |h'.recs| ensures slots[Cell(h'.min + k)] == h'.recs[k] {
      CellWraps(h.min + 1, k);
    }
  }

  lemma WindowLength(min: uint16, max: uint16, n: nat)
    requires 1 <= n <= MAX_PACKET_COUNT && max == (min + n - 1) % 0x1_0000
    ensures (max + 0x1_0000 - min) % 0x1_0000 + 1 == n
    ensures (max + 1) % 0x1_0000 == (min + n) % 0x1_0000
    ensures n == MAX_PACKET_COUNT ==> (max + 1) % 0x1_0000 == ((min + 1) % 0x1_0000 + n - 1) % 0x1_0000
  {
  }

  lemma NewestOneMore(h: History, x: PublishPacket)
    requires |h.recs| <= MAX_PACKET_COUNT
    ensures Newest(Append(h, [x])) ==
      if |h.recs| < MAX_PACKET_COUNT then Append(h, [x])
      else History((h.min + 1) % 0x1_0000, h.recs[1..] + [x])
  {
  }

  class PublishPacketHistory {
    var minSeq: uint16
    var maxSeq: uint16
    var packetList: array?<PublishPacket>
    ghost var recs: seq<PublishPacket>

    ghost function Abs(): History reads this { History(minSeq, recs) }

    ghost predicate Valid()
      reads this, packetList
    {
      && (packetList == null ==> recs == [])
      && (packetList != null ==>
            && packetList.Length == MAX_PACKET_COUNT
            && RingShows(packetList[..], Abs())
            && 1 <= |recs| <= MAX_PACKET_COUNT
            && maxSeq == (minSeq + |recs| - 1) % 0x1_0000)
    }

    constructor ()
      ensures Valid() && packetList == null
    {
      minSeq, maxSeq, packetList := 0, 0, null;
      recs := [];
    }

    // Moves the window one sequence number ahead, with a blank record.
    method AddBlank()
      requires Valid() && packetList != null
      modifies this`minSeq, this`maxSeq, this`recs, packetList
      ensures Valid() && Abs() == Newest(Append(old(Abs()), [BLANK])) && maxSeq == (old(maxSeq) + 1) % 0x1_0000
    {
      hide Cell, RingShows, Newest;
      WindowLength(minSeq, maxSeq, |recs|);
      NewestOneMore(Abs(), BLANK);
      if (maxSeq + 0x1_0000 - minSeq) % 0x1_0000 + 1 == MAX_PACKET_COUNT {
        RingDropFirst(packetList[..], Abs());
        minSeq := (minSeq + 1) % 0x1_0000;
        recs := recs[1..];
      }
      ghost var n := |recs|;
      RingUpdate(packetList[..], Abs(), n, BLANK);
      maxSeq := (maxSeq + 1) % 0x1_0000;
      CellWraps(minSeq + n, 0);
      packetList[Cell(maxSeq)] := BLANK;
      recs := recs + [BLANK];
    }

    // The pointer to the record of `s`, as an index, or None for null.
    function Get(s: uint16): (r: Option<nat>)
      requires Valid()
      reads this, packetList
      ensures r.Some? <==> Abs().Knows(s)
      ensures r.Some? ==> packetList != null && r.value < packetList.Length && packetList[r.value] == Abs().Find(s)
      ensures r.Some? ==> r.value == Cell(minSeq + Abs().Offset(s))
    {
      if packetList == null then None
      else if minSeq <= maxSeq then
        if minSeq <= s && s <= maxSeq then Some(Cell(s)) else None
      else
        if s >= minSeq || s <= maxSeq then Some(Cell(s)) else None
    }

    function GetPacketCount(): (n: nat)
      requires Valid()
      reads this, packetList
      ensures n == |recs|
    {
      if packetList == null then 0 else (maxSeq - minSeq + 1 + 0x1_0000) % 0x1_0000
    }

    // Writes through the pointer to the record of `s`.
    method Put(s: uint16, r: PublishPacket)
      requires Valid() && Abs().Knows(s)
      modifies this`recs, packetList
      ensures Valid() && Abs() == old(Abs()).(recs := old(recs)[old(Abs()).Offset(s) := r])
      ensures Get(s) == old(Get(s)) && packetList[Get(s).value] == r
    {
      var index := Get(s);
      RingUpdate(packetList[..], Abs(), Abs().Offset(s), r);
      packetList[index.value] := r;
      recs := recs[Abs().Offset(s) := r];
    }

    // A window of one blank record.
    method Open(s: uint16)
      modifies this
      ensures Valid() && packetList != null && fresh(packetList) && Abs() == History(s, [BLANK])
    {
      minSeq := s;
      maxSeq := s;
      packetList := new PublishPacket[MAX_PACKET_COUNT](_ => BLANK);
      recs := [BLANK];
      assert RingShows(packetList[..], Abs());
    }

    method AdvanceTo(s: uint16)
      requires Valid() && packetList != null
      modifies this`minSeq, this`maxSeq, this`recs, packetList
      ensures Valid() && Abs() == Newest(Append(old(Abs()), Repeat(BLANK, Skipped(old(Abs()), s) + 1)))
    {
      hide RingShows, Newest, Repeat, Append, Cell, Skipped;
      ghost var h, k := Abs(), 0;
      NewestSelf(h);
      while true
        invariant Valid() && packetList == old(packetList) && 0 <= k <= Skipped(h, s)
        invariant Abs() == Newest(Append(h, Repeat(BLANK, k)))
        invariant maxSeq == (h.min + |h.recs| + k - 1) % 0x1_0000
        decreases Skipped(h, s) - k
      {
        SkipOne(h, k);
        AddBlank();
        Reaches(h, s, k);
        if maxSeq == s {
          break;
        }
        k := k + 1;
      }
    }

    method SaveOutgoingPacket(s: uint16, sizes: Sizes, now: int)
      requires Valid()
      modifies this, packetList
      ensures Valid() && packetList != null
      ensures packetList == old(packetList) || fresh(packetList)
      ensures
        var r := PublishPacket(s, sizes, now, 0, false, 0);
        Abs() == if old(packetList) == null then History(s, [r]) else Remember(old(Abs()), r)
    {
      hide RingShows, Newest, Repeat, Append, Cell, Skipped;
      var record := PublishPacket(s, sizes, now, 0, false, 0);
      ghost var h := Abs();
      if packetList == null {
        Open(s);
      } else {
        AdvanceTo(s);
        FillLast(h, record);
      }
      Put(s, record);
    }
  }
}
