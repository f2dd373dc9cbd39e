// Lists of lost packets as (PID, BLP) pairs, and back (src/util.cpp, src/peer_candidate.cpp);
// RFC 4585 section 6.2.1.
module NackList {
  import opened Wire

  // A packet and a bit mask of the 16 packets after it.
  datatype Pair = Pair(pid: uint16, blp: bv16)

  function Short(s: nat): uint16 { s % 0x1_0000 }

  function Shorts(xs: seq<nat>): (r: seq<uint16>)
    ensures |r| == |xs|
    ensures forall i :: 0 <= i < |xs| ==> r[i] == Short(xs[i])
  {
    if xs == [] then [] else Shorts(xs[..|xs| - 1]) + [Short(xs[|xs| - 1])]
  }

  // 1 << k
  function Mask(k: nat): bv16
    requires k < 16
  {
    if k < 8 then
      if k < 4 then (if k < 2 then (if k == 0 then 0x1 else 0x2) else if k == 2 then 0x4 else 0x8)
      else if k < 6 then (if k == 4 then 0x10 else 0x20) else if k == 6 then 0x40 else 0x80
    else
      if k < 12 then (if k < 10 then (if k == 8 then 0x100 else 0x200) else if k == 10 then 0x400 else 0x800)
      else if k < 14 then (if k == 12 then 0x1000 else 0x2000) else if k == 14 then 0x4000 else 0x8000
  }

  predicate Meets(b: bv16, m: bv16) { b & m != 0 }

  function Union(b: bv16, m: bv16): bv16 { b | m }

  predicate Bit(b: bv16, k: nat)
    requires k < 16
  {
    Meets(b, Mask(k))
  }

  function Or(b: bv16, k: nat): bv16
    requires k < 16
  {
    Union(b, Mask(k))
  }

  lemma OrBit(b: bv16, k: nat, j: nat)
    requires k < 16 && j < 16
    ensures Bit(Or(b, k), j) <==> j == k || Bit(b, j)
    ensures !Bit(0, j)
  {
    hide Mask, Meets, Union;
    MasksApart(k, j);
    UnionMeets(b, Mask(k), Mask(j));
  }

  lemma MasksApart(k: nat, j: nat)
    requires k < 16 && j < 16
    ensures Meets(Mask(k), Mask(j)) <==> k == j
  {
  }

  lemma UnionMeets(b: bv16, m: bv16, n: bv16)
    ensures Meets(Union(b, m), n) <==> Meets(b, n) || Meets(m, n)
    ensures !Meets(0, n)
  {
    Distributes(b, m, n);
    OrIsZero(b & n, m & n);
  }

  lemma Distributes(b: bv16, m: bv16, n: bv16)
    ensures (b | m) & n == (b & n) | (m & n)
  {
  }

  lemma OrIsZero(x: bv16, y: bv16)
    ensures x | y == 0 <==> x == 0 && y == 0
  {
  }

  // ----- Compressing -----

  ghost predicate Increasing(xs: seq<nat>) { forall i, j :: 0 <= i < j < |xs| ==> xs[i] < xs[j] }

  // The end of the run, from index j on, of packets within 16 of `base`.
  function RunEnd(xs: seq<nat>, base: nat, j: nat): (e: nat)
    requires j <= |xs|
    ensures j <= e <= |xs|
    decreases |xs| - j
  {
    if j < |xs| && base < xs[j] <= base + 16 then RunEnd(xs, base, j + 1) else j
  }

  // The bits of the packets from index i to j.
  function Blp(xs: seq<nat>, base: nat, i: nat, j: nat): bv16
    requires i <= j <= |xs| && forall k :: i <= k < j ==> base < xs[k] <= base + 16
    decreases j
  {
    if i == j then 0 else Or(Blp(xs, base, i, j - 1), xs[j - 1] - base - 1)
  }

  lemma {:induction false} RunEndIs(xs: seq<nat>, base: nat, j: nat)
    requires j <= |xs|
    ensures forall k :: j <= k < RunEnd(xs, base, j) ==> base < xs[k] <= base + 16
    ensures RunEnd(xs, base, j) < |xs| ==> !(base < xs[RunEnd(xs, base, j)] <= base + 16)
    decreases |xs| - j
  {
    if j < |xs| && base < xs[j] <= base + 16 {
      RunEndIs(xs, base, j + 1);
    }
  }

  // Pairs for the packets from index i on: each takes all it can.
  function Compressed(xs: seq<nat>, i: nat): seq<Pair>
    requires i <= |xs|
    decreases |xs| - i
  {
    if i == |xs| then []
    else
      RunEndIs(xs, xs[i], i + 1);
      var e := RunEnd(xs, xs[i], i + 1);
      [Pair(Short(xs[i]), Blp(xs, xs[i], i + 1, e))] + Compressed(xs, e)
  }

  // ----- Expanding -----

  // The packet itself and those of the first n bits.
  function Expanded(p: Pair, n: nat): seq<uint16>
    requires n <= 16
  {
    if n == 0 then [p.pid]
    else Expanded(p, n - 1) + if Bit(p.blp, n - 1) then [(p.pid + n) % 0x1_0000] else []
  }

  function ExpandAll(ps: seq<Pair>): seq<uint16> {
    if ps == [] then [] else Expanded(ps[0], 16) + ExpandAll(ps[1..])
  }

  lemma {:induction false} BlpBits(xs: seq<nat>, base: nat, i: nat, j: nat, k: nat)
    requires i <= j <= |xs| && (forall k :: i <= k < j ==> base < xs[k] <= base + 16) && k < 16
    ensures Bit(Blp(xs, base, i, j), k) <==> exists m :: i <= m < j && xs[m] == base + 1 + k
    decreases j
  {
    hide Bit, Or;
    if i == j {
      OrBit(0, 0, k);
    } else {
      BlpBits(xs, base, i, j - 1, k);
      OrBit(Blp(xs, base, i, j - 1), xs[j - 1] - base - 1, k);
    }
  }

  lemma ShortsSlice(xs: seq<nat>, i: nat, m: nat)
    requires i <= m < |xs|
    ensures Shorts(xs[i..m + 1]) == Shorts(xs[i..m]) + [Short(xs[m])]
  {
    assert xs[i..m + 1][..m - i] == xs[i..m];
  }

  // The first m - i packets of a run are those up to base + n.
  ghost predicate Splits(xs: seq<nat>, i: nat, j: nat, n: nat, m: nat) {
    && i < m <= j <= |xs|
    && (forall k :: i + 1 <= k < m ==> xs[k] <= xs[i] + n)
    && (m < j ==> xs[m] > xs[i] + n)
  }

  lemma SplitsNext(xs: seq<nat>, i: nat, j: nat, n: nat, m: nat)
    requires Increasing(xs) && Splits(xs, i, j, n, m)
    ensures Splits(xs, i, j, n + 1, if m < j && xs[m] == xs[i] + n + 1 then m + 1 else m)
    ensures (exists k :: i + 1 <= k < j && xs[k] == xs[i] + 1 + n) <==> m < j && xs[m] == xs[i] + n + 1
  {
  }

  // The packets of a run, up to base + n, are what the first n bits expand to.
  lemma {:induction false} ExpandedRun(xs: seq<nat>, i: nat, j: nat, n: nat) returns (m: nat)
    requires i < j <= |xs| && Increasing(xs) && n <= 16
    requires forall k :: i + 1 <= k < j ==> xs[i] < xs[k] <= xs[i] + 16
    ensures Splits(xs, i, j, n, m)
    ensures Expanded(Pair(Short(xs[i]), Blp(xs, xs[i], i + 1, j)), n) == Shorts(xs[i..m])
  {
    hide Bit, Blp, Increasing, Splits, Shorts;
    if n == 0 {
      m := i + 1;
      FirstSplit(xs, i, j);
    } else {
      var before := ExpandedRun(xs, i, j, n - 1);
      BlpBits(xs, xs[i], i + 1, j, n - 1);
      SplitsNext(xs, i, j, n - 1, before);
      SplitBounds(xs, i, j, n - 1, before);
      m := before;
      if before < j && xs[before] == xs[i] + n {
        ShortsSlice(xs, i, before);
        ShortSum(xs[i], n);
        m := before + 1;
      }
    }
  }

  lemma SplitBounds(xs: seq<nat>, i: nat, j: nat, n: nat, m: nat)
    requires Splits(xs, i, j, n, m)
    ensures i < m <= j <= |xs|
  {
  }

  lemma FirstSplit(xs: seq<nat>, i: nat, j: nat)
    requires i < j <= |xs| && Increasing(xs)
    ensures Splits(xs, i, j, 0, i + 1) && Shorts(xs[i..i + 1]) == [Short(xs[i])]
  {
    assert xs[i..i + 1] == [xs[i]];
  }

  lemma ShortSum(x: nat, n: nat)
    ensures (Short(x) + n) % 0x1_0000 == Short(x + n)
  {
  }

  lemma WholeSplit(xs: seq<nat>, i: nat, j: nat, m: nat)
    requires Splits(xs, i, j, 16, m) && forall k :: i + 1 <= k < j ==> xs[k] <= xs[i] + 16
    ensures m == j
  {
  }

  // Round trip: expanding the pairs gives the list back, in order, across the wrap of 16-bit numbers.
  lemma {:induction false} ExpandCompressed(xs: seq<nat>, i: nat)
    requires i <= |xs| && Increasing(xs)
    ensures ExpandAll(Compressed(xs, i)) == Shorts(xs[i..])
    decreases |xs| - i
  {
    hide Bit, Blp, Expanded;
    if i < |xs| {
      RunEndIs(xs, xs[i], i + 1);
      var e := RunEnd(xs, xs[i], i + 1);
      var m := ExpandedRun(xs, i, e, 16);
      WholeSplit(xs, i, e, m);
      ExpandCompressed(xs, e);
      assert xs[i..] == xs[i..e] + xs[e..];
      ShortsAppend(xs[i..e], xs[e..]);
    }
  }

  lemma ShortsAppend(a: seq<nat>, b: seq<nat>)
    ensures Shorts(a + b) == Shorts(a) + Shorts(b)
  {
  }

  // ----- The arrays -----

  // A list of unwrapped numbers less than 2^16 apart, as `processNack` reports them.
  ghost predicate Spans(xs: seq<nat>) {
    Increasing(xs) && forall i, j :: 0 <= i < j < |xs| ==> xs[j] < xs[i] + 0x1_0000
  }

  // The distance of 16-bit numbers.
  function Ahead(a: uint16, b: uint16): nat { (a as int - b as int) % 0x1_0000 }

  lemma Differences(a: nat, b: nat)
    requires a < b < a + 0x1_0000
    ensures Ahead(Short(b), Short(a)) == b - a && (Short(b) - Short(a) - 1) % 0x1_0000 == b - a - 1
  {
  }

  function Pairs(seqs: seq<uint16>, blps: seq<bv16>): (r: seq<Pair>)
    requires |seqs| == |blps|
    ensures |r| == |seqs|
  {
    if seqs == [] then []
    else Pairs(seqs[..|seqs| - 1], blps[..|blps| - 1]) + [Pair(seqs[|seqs| - 1], blps[|blps| - 1])]
  }

  lemma PairsSnoc(seqs: seq<uint16>, blps: seq<bv16>, s: uint16, b: bv16)
    requires |seqs| == |blps|
    ensures Pairs(seqs + [s], blps + [b]) == Pairs(seqs, blps) + [Pair(s, b)]
  {
    assert (seqs + [s])[..|seqs|] == seqs && (blps + [b])[..|blps|] == blps;
  }

  // The bits of one run, starting at inPos; the run's end.
  method CollectRun(list: seq<uint16>, inPos: nat, ghost xs: seq<nat>) returns (end: nat, blp: bv16)
    requires list == Shorts(xs) && Spans(xs) && inPos < |list|
    ensures end == RunEnd(xs, xs[inPos], inPos + 1)
    ensures (forall k :: inPos < k < end ==> xs[inPos] < xs[k] <= xs[inPos] + 16)
            && blp == Blp(xs, xs[inPos], inPos + 1, end)
  {
    hide Or, RunEnd, Shorts, Short, Blp, Ahead;
    BlpNone(xs, xs[inPos], inPos + 1);
    var first := list[inPos];
    ghost var base := xs[inPos];
    end, blp := inPos + 1, 0;
    while end < |list| && Ahead(list[end], first) <= 16
      invariant inPos < end <= |list| && RunEnd(xs, base, end) == RunEnd(xs, base, inPos + 1)
      invariant forall k :: inPos < k < end ==> base < xs[k] <= base + 16
      invariant blp == Blp(xs, base, inPos + 1, end)
    {
      Differences(base, xs[end]);
      RunEndStep(xs, base, end);
      BlpStep(xs, base, inPos + 1, end);
      var shift := (list[end] as int - first as int - 1) % 0x1_0000;
      blp := Or(blp, shift);
      end := end + 1;
    }
    if end < |list| {
      Differences(base, xs[end]);
    }
    RunEndStep(xs, base, end);
  }

  lemma BlpNone(xs: seq<nat>, base: nat, i: nat)
    requires i <= |xs|
    ensures Blp(xs, base, i, i) == 0
  {
  }

  lemma BlpStep(xs: seq<nat>, base: nat, i: nat, j: nat)
    requires i <= j < |xs| && forall k :: i <= k < j ==> base < xs[k] <= base + 16
    ensures base < xs[j] <= base + 16 ==> Blp(xs, base, i, j + 1) == Or(Blp(xs, base, i, j), xs[j] - base - 1)
  {
  }

  lemma RunEndStep(xs: seq<nat>, base: nat, j: nat)
    requires j <= |xs|
    ensures RunEnd(xs, base, j) == if j < |xs| && base < xs[j] <= base + 16 then RunEnd(xs, base, j + 1) else j
  {
  }

  method CompressNackList(list: seq<uint16>, bufSeq: array<uint16>, bufBlp: array<bv16>, ghost xs: seq<nat>)
    returns (n: nat)
    requires list == Shorts(xs) && Spans(xs)
    requires bufSeq.Length >= |list| && bufBlp.Length >= |list| && bufSeq as object != bufBlp as object
    modifies bufSeq, bufBlp
    ensures n <= |list| && Pairs(bufSeq[..n], bufBlp[..n]) == Compressed(xs, 0)
  {
    hide Or, Blp, RunEnd, Shorts, Short, Pairs;
    var inPos := 0;
    n := 0;
    NoPairs();
    while inPos < |list|
      invariant n <= inPos <= |list|
      invariant Compressed(xs, 0) == Pairs(bufSeq[..n], bufBlp[..n]) + Compressed(xs, inPos)
    {
      var end, blp := CollectRun(list, inPos, xs);
      ghost var seqs, blps := bufSeq[..n], bufBlp[..n];
      PairsSnoc(seqs, blps, list[inPos], blp);
      bufSeq[n] := list[inPos];
      bufBlp[n] := blp;
      assert bufSeq[..n + 1] == seqs + [list[inPos]] && bufBlp[..n + 1] == blps + [blp];
      assert Pairs(seqs, blps) + ([Pair(list[inPos], blp)] + Compressed(xs, end))
          == Pairs(seqs, blps) + [Pair(list[inPos], blp)] + Compressed(xs, end);
      n := n + 1;
      inPos := end;
    }
    assert Compressed(xs, |xs|) == [];
  }

  lemma NoPairs()
    ensures Pairs([], []) == []
  {
  }

  // What the sender makes of one pair.
  method MissingFrom(pid: uint16, blp: bv16) returns (missing: seq<uint16>)
    ensures missing == Expanded(Pair(pid, blp), 16)
  {
    hide Bit;
    missing := [pid];
    if blp != 0 {
      for index := 0 to 16
        invariant missing == Expanded(Pair(pid, blp), index)
      {
        if Bit(blp, index) {
          missing := missing + [(pid as int + index + 1) % 0x1_0000];
        }
      }
    } else {
      ExpandedNone(pid, 16);
    }
  }

  lemma {:induction false} ExpandedNone(pid: uint16, n: nat)
    requires n <= 16
    ensures Expanded(Pair(pid, 0), n) == [pid]
  {
    if n > 0 {
      hide Bit;
      ExpandedNone(pid, n - 1);
      OrBit(0, 0, n - 1);
    }
  }

  // ----- No shorter list of pairs will do -----

  predicate CoversSeq(p: Pair, s: uint16) {
    var d := (s - p.pid) % 0x1_0000;
    d == 0 || (d <= 16 && Bit(p.blp, d - 1))
  }

  ghost predicate CoverAll(ps: seq<Pair>, xs: seq<nat>) {
    forall i :: 0 <= i < |xs| ==> Covered(ps, Short(xs[i]))
  }

  ghost predicate Covered(ps: seq<Pair>, s: uint16) { exists k :: 0 <= k < |ps| && CoversSeq(ps[k], s) }

  // The packets that start the runs.
  function Bases(xs: seq<nat>, i: nat): (r: seq<nat>)
    requires i <= |xs|
    ensures |r| == |Compressed(xs, i)|
    decreases |xs| - i
  {
    if i == |xs| then [] else [xs[i]] + Bases(xs, RunEnd(xs, xs[i], i + 1))
  }

  // More than 16 apart, also around the wrap.
  predicate Apart(a: nat, b: nat) { a + 16 < b < a + 0x1_0000 - 16 }

  ghost predicate AllApart(bs: seq<nat>) { forall i, j :: 0 <= i < j < |bs| ==> Apart(bs[i], bs[j]) }

  lemma OnePairOneBase(p: Pair, a: nat, b: nat)
    requires Apart(a, b)
    ensures !(CoversSeq(p, Short(a)) && CoversSeq(p, Short(b)))
  {
    hide Bit;
    Differences(a, b);
  }

  // Without the pair that covers one base, the others are still covered.
  lemma RestCovers(ps: seq<Pair>, q: nat, a: nat, last: nat)
    requires q < |ps| && CoversSeq(ps[q], Short(last)) && Apart(a, last) && Covered(ps, Short(a))
    ensures Covered(ps[..q] + ps[q + 1..], Short(a))
  {
    hide CoversSeq, Apart, Short;
    var rest := ps[..q] + ps[q + 1..];
    var k :| 0 <= k < |ps| && CoversSeq(ps[k], Short(a));
    OnePairOneBase(ps[q], a, last);
    var j := if k < q then k else k - 1;
    assert rest[j] == ps[k];
  }

  lemma {:induction false} PairsForBases(ps: seq<Pair>, bs: seq<nat>)
    requires AllApart(bs) && CoverAll(ps, bs)
    ensures |ps| >= |bs|
    decreases |bs|
  {
    hide CoversSeq, Apart, Short;
    if bs != [] {
      var n := |bs| - 1;
      var init, last := bs[..n], bs[n];
      assert Covered(ps, Short(last));
      var q :| 0 <= q < |ps| && CoversSeq(ps[q], Short(last));
      var rest := ps[..q] + ps[q + 1..];
      forall i | 0 <= i < |init| ensures Covered(rest, Short(init[i])) {
        assert Covered(ps, Short(bs[i]));
        RestCovers(ps, q, bs[i], last);
      }
      PairsForBases(rest, init);
    }
  }

  lemma {:induction false} BasesFrom(xs: seq<nat>, i: nat)
    requires i <= |xs| && Increasing(xs)
    requires forall j, k :: 0 <= j < k < |xs| ==> xs[k] < xs[j] + 0x1_0000 - 16
    ensures AllApart(Bases(xs, i))
    ensures forall b :: b in Bases(xs, i) ==> b in xs[i..]
    decreases |xs| - i
  {
    if i < |xs| {
      RunEndIs(xs, xs[i], i + 1);
      var e := RunEnd(xs, xs[i], i + 1);
      BasesFrom(xs, e);
      forall b | b in Bases(xs, e) ensures Apart(xs[i], b) && b in xs[i..] {
        assert b in xs[e..];
        var k :| e <= k < |xs| && xs[k] == b;
      }
    }
  }

  // Greedy is optimal: whatever pairs cover the packets, there are no fewer of them. (Numbers 2^16 - 16
  // apart or more could share a pair around the wrap.)
  lemma CompressedShortest(xs: seq<nat>, ps: seq<Pair>)
    requires Increasing(xs) && (forall j, k :: 0 <= j < k < |xs| ==> xs[k] < xs[j] + 0x1_0000 - 16)
    requires CoverAll(ps, xs)
    ensures |ps| >= |Compressed(xs, 0)|
  {
    hide Apart, CoversSeq, Short;
    BasesFrom(xs, 0);
    var bs := Bases(xs, 0);
    assert xs[0..] == xs;
    forall i | 0 <= i < |bs| ensures Covered(ps, Short(bs[i])) {
      assert bs[i] in xs;
      var j :| 0 <= j < |xs| && xs[j] == bs[i];
      assert Covered(ps, Short(xs[j]));
    }
    PairsForBases(ps, bs);
  }

  // Bit k of the mask stands for the packet k + 1 after the base (section 6.2.1 of RFC 4585).
  lemma PairExample()
    ensures CoversSeq(Pair(100, 0x0001), 101) && CoversSeq(Pair(100, 0x8000), 116) && CoversSeq(Pair(0xFFFF, 0x0004), 2)
    ensures !CoversSeq(Pair(100, 0x0001), 102) && !CoversSeq(Pair(100, 0x8000), 115)
  {
  }
}
