// The transport-wide congestion control feedback format, as the subscriber writes it
// (src/twcc_subscribe.cpp) and the publisher reads it (src/rtp_extension_source_twcc.cpp),
// draft-holmer-rmcat-transport-wide-cc-extensions-01 section 3.1.
module TwccFeedback {
  import opened Wire
  import opened Bits

  const NOT_RECEIVED: nat := 0
  const SMALL_DELTA: nat := 1
  const LARGE_DELTA: nat := 2

  const REFERENCE_UNIT := 64_000
  const MAX_SMALL := 250 * 0xFF
  const MIN_LARGE := -250 * 0x8000
  const MAX_LARGE := 250 * 0x7FFF
  const MAX_RUN := 8191

  // ----- What a feedback says -----

  function StatusList(code: nat, ts: seq<int>): (r: seq<nat>)
    ensures |r| == |ts|
  {
    if ts == [] then [] else [if ts[0] == 0 then NOT_RECEIVED else code] + StatusList(code, ts[1..])
  }

  lemma {:induction false} StatusListAt(code: nat, ts: seq<int>, i: nat)
    requires i < |ts|
    ensures StatusList(code, ts)[i] == if ts[i] == 0 then NOT_RECEIVED else code
  {
    if i > 0 {
      StatusListAt(code, ts[1..], i - 1);
    }
  }

  lemma {:induction false} StatusListCodes(code: nat, ts: seq<int>)
    ensures forall s <- StatusList(code, ts) :: s == NOT_RECEIVED || s == code
  {
    if ts != [] {
      StatusListCodes(code, ts[1..]);
    }
  }

  lemma {:induction false} StatusListLost(n: nat)
    ensures StatusList(NOT_RECEIVED, Repeat(0, n)) == Repeat<nat>(NOT_RECEIVED, n)
  {
    if n > 0 {
      StatusListLost(n - 1);
      assert Repeat(0, n)[1..] == Repeat(0, n - 1);
    }
  }

  // One chunk with the arrival times it covers (0 means not received). `start` is the time the
  // chunk's first delta is relative to.
  datatype Piece =
    | Lost(count: nat)
    | Small(start: int, times: seq<int>)
    | Large(start: int, times: seq<int>)
  {
    function Times(): seq<int> { if Lost? then Repeat(0, count) else times }

    function Code(): nat { if Lost? then NOT_RECEIVED else if Small? then SMALL_DELTA else LARGE_DELTA }

    function Statuses(): (r: seq<nat>)
      ensures |r| == |Times()|
    {
      StatusList(Code(), Times())
    }

    function Len(): nat { |Times()| }

    predicate FitsWord() {
      match this
      case Lost(count) => count <= MAX_RUN
      case Small(_, ts) => |ts| <= 14
      case Large(_, ts) => |ts| <= 7
    }

    // A status vector that uses all its symbols, or any run.
    predicate IsFull() { Lost? || (Small? && |times| == 14) || (Large? && |times| == 7) }
  }

  // Chunks in the order they were appended.
  datatype Chunks = Nil | Snoc(init: Chunks, last: Piece) {
    function Times(): seq<int> { if Nil? then [] else init.Times() + last.Times() }

    function Statuses(): (r: seq<nat>)
      ensures |r| == |Times()|
    {
      if Nil? then [] else init.Statuses() + last.Statuses()
    }

    predicate FitWords() { Nil? || (init.FitWords() && last.FitsWord()) }

    predicate NonEmpty() { Nil? || (init.NonEmpty() && last.Len() > 0) }

    predicate AllFull() { Nil? || (init.AllFull() && last.IsFull()) }

    predicate AllLost() { Nil? || (init.AllLost() && last.Lost?) }
  }

  datatype Feedback = Feedback(base: nat, units: nat, chunks: Chunks) {
    // The reference time in microseconds: a whole number of 64 ms units.
    function Reference(): int { units * REFERENCE_UNIT }

    function Times(): seq<int> { chunks.Times() }

    function Statuses(): seq<nat> { chunks.Statuses() }

    function Count(): nat { |Times()| }
  }

  function Step(prev: int, t: int): int { if t == 0 then prev else t }

  // The time later deltas are relative to: that of the last received packet.
  function EndTime(start: int, ts: seq<int>): int
    decreases |ts|
  {
    if ts == [] then start else EndTime(Step(start, ts[0]), ts[1..])
  }

  // ----- Which delta each received packet carries -----

  // Length of the leading run in which every received packet is within [lo, hi] of the previous one.
  function DeltaRun(ts: seq<int>, curr: int, lo: int, hi: int): (r: nat)
    ensures r <= |ts|
    decreases |ts|
  {
    if ts == [] then 0
    else if ts[0] == 0 then 1 + DeltaRun(ts[1..], curr, lo, hi)
    else if curr + lo <= ts[0] <= curr + hi then 1 + DeltaRun(ts[1..], ts[0], lo, hi)
    else 0
  }

  // A status agrees with its time, and the delta fits its encoding.
  predicate DeltaFits(prev: int, status: nat, t: int) {
    if t == 0 then status == NOT_RECEIVED
    else if status == SMALL_DELTA then 0 <= t - prev <= MAX_SMALL
    else status == LARGE_DELTA && MIN_LARGE <= t - prev <= MAX_LARGE
  }

  ghost predicate Fits(prev: int, st: seq<nat>, ts: seq<int>)
    decreases |ts|
  {
    && |st| == |ts|
    && (ts != [] ==> DeltaFits(prev, st[0], ts[0]) && Fits(Step(prev, ts[0]), st[1..], ts[1..]))
  }

  // An int16 as the uint16 with the same bits, and back.
  function FromInt16(x: int): uint16 { x % 0x1_0000 }

  function ToInt16(u: uint16): int { if u < 0x8000 then u else u - 0x1_0000 }

  // The delta bytes of one packet: none, an unsigned byte or a signed 16-bit integer.
  function Stamp(prev: int, status: nat, t: int): bytes
    requires DeltaFits(prev, status, t)
  {
    if t == 0 then []
    else if status == SMALL_DELTA then WriteU8((t - prev) / 250)
    else WriteU16(FromInt16(TruncDiv(t - prev, 250)))
  }

  // The delta bytes, in sequence number order.
  ghost function Stamps(prev: int, st: seq<nat>, ts: seq<int>): bytes
    requires Fits(prev, st, ts)
    decreases |ts|
  {
    if ts == [] then []
    else Stamp(prev, st[0], ts[0]) + Stamps(Step(prev, ts[0]), st[1..], ts[1..])
  }

  lemma {:induction false} FitsAppend(prev: int, st1: seq<nat>, ts1: seq<int>, st2: seq<nat>, ts2: seq<int>)
    requires Fits(prev, st1, ts1) && Fits(EndTime(prev, ts1), st2, ts2)
    ensures Fits(prev, st1 + st2, ts1 + ts2)
    ensures Stamps(prev, st1 + st2, ts1 + ts2) == Stamps(prev, st1, ts1) + Stamps(EndTime(prev, ts1), st2, ts2)
    decreases |ts1|
  {
    if ts1 == [] {
      assert st1 + st2 == st2 && ts1 + ts2 == ts2;
    } else {
      hide Stamp, DeltaFits, Step;
      FitsAppend(Step(prev, ts1[0]), st1[1..], ts1[1..], st2, ts2);
      var st, ts, b := st1 + st2, ts1 + ts2, Stamp(prev, st1[0], ts1[0]);
      assert st[1..] == st1[1..] + st2 && ts[1..] == ts1[1..] + ts2;
      assert st[0] == st1[0] && ts[0] == ts1[0];
      Assoc(b, Stamps(Step(prev, ts1[0]), st1[1..], ts1[1..]), Stamps(EndTime(prev, ts1), st2, ts2));
    }
  }

  lemma {:induction false} EndTimeAppend(start: int, ts1: seq<int>, ts2: seq<int>)
    ensures EndTime(start, ts1 + ts2) == EndTime(EndTime(start, ts1), ts2)
    decreases |ts1|
  {
    if ts1 == [] {
      assert ts1 + ts2 == ts2;
    } else {
      EndTimeAppend(Step(start, ts1[0]), ts1[1..], ts2);
      assert (ts1 + ts2)[1..] == ts1[1..] + ts2;
    }
  }

  lemma {:induction false} EndTimeLost(start: int, n: nat)
    ensures EndTime(start, Repeat(0, n)) == start
    ensures Fits(start, Repeat<nat>(NOT_RECEIVED, n), Repeat(0, n))
    ensures Stamps(start, Repeat<nat>(NOT_RECEIVED, n), Repeat(0, n)) == []
  {
    if n > 0 {
      EndTimeLost(start, n - 1);
      assert Repeat(0, n)[1..] == Repeat(0, n - 1);
      assert Repeat<nat>(NOT_RECEIVED, n)[1..] == Repeat<nat>(NOT_RECEIVED, n - 1);
    }
  }

  // ----- Writing -----

  ghost predicate PieceOk(start: int, p: Piece) {
    && 1 <= p.Len() && p.FitsWord()
    && (p.Small? ==> p.start == start && p.times[0] != 0 && DeltaRun(p.times, start, 0, MAX_SMALL) == p.Len())
    && (p.Large? ==> p.start == start && p.times[0] != 0 && DeltaRun(p.times, start, MIN_LARGE, MAX_LARGE) == p.Len())
  }

  // Each chunk starts at the time the chunks before it end at.
  ghost predicate Chained(start: int, cs: Chunks) {
    cs.Nil? || (Chained(start, cs.init) && PieceOk(EndTime(start, cs.init.Times()), cs.last))
  }

  ghost predicate FeedbackOk(f: Feedback) {
    && f.chunks.Snoc? && f.chunks.init.AllFull()
    && Chained(f.Reference(), f.chunks)
    && f.Count() < 0x1_0000
  }

  function HeaderDigits(p: Piece): (ds: seq<nat>)
    requires !p.Lost? && p.FitsWord()
    ensures AreDigits(if p.Small? then 1 else 2, ds)
    ensures |ds| == if p.Small? then 16 else 8
  {
    StatusListCodes(p.Code(), p.times);
    RepeatAt<nat>(0, if p.Small? then 14 - |p.times| else 7 - |p.times|);
    if p.Small? then [1, 0] + p.Statuses() + Zeros(14 - |p.times|) else [3] + p.Statuses() + Zeros(7 - |p.times|)
  }

  // The 16-bit chunk: 0, two symbol bits and a 13-bit count; or 1, 0 and 14 one-bit symbols; or
  // 1, 1 and 7 two-bit symbols.
  function Header(p: Piece): uint16
    requires p.FitsWord()
  {
    if p.Lost? then p.count
    else
      DigitsBound(if p.Small? then 1 else 2, HeaderDigits(p));
      Shl16();
      Digits(if p.Small? then 1 else 2, HeaderDigits(p))
  }

  // Where the bits are: a run of five lost packets; one packet received after a small delta; one received
  // after a large delta.
  lemma WordExamples(start: int, t: int)
    requires t != 0
    ensures Header(Lost(5)) == 5 && Header(Small(start, [t])) == 0xA000 && Header(Large(start, [t])) == 0xE000
  {
    hide Digits, Zeros, Repeat;
    SmallDigits(start, t);
    LargeDigits(start, t);
    DigitExamples();
  }

  lemma SmallDigits(start: int, t: int)
    requires t != 0
    ensures HeaderDigits(Small(start, [t])) == [1, 0, 1] + Zeros(13)
  {
    assert [t][1..] == [];
    assert Small(start, [t]).Statuses() == [1];
  }

  lemma LargeDigits(start: int, t: int)
    requires t != 0
    ensures HeaderDigits(Large(start, [t])) == [3, 2] + Zeros(6)
  {
    assert [t][1..] == [];
    assert Large(start, [t]).Statuses() == [2];
  }

  lemma DigitExamples()
    ensures Digits(1, [1, 0, 1] + Zeros(13)) == 0xA000 && Digits(2, [3, 2] + Zeros(6)) == 0xE000
  {
    hide Zeros, Shl, Digits;
    FewDigits();
    ZerosShift(1, [1, 0, 1], 13);
    ZerosShift(2, [3, 2], 6);
    ShlSmall(5, 13);
    ShlSmall(14, 12);
    Shl12();
  }

  lemma Shl12()
    ensures Shl(1, 12) == 0x1000 && Shl(1, 13) == 0x2000
  {
    Shl16();
  }

  lemma FewDigits()
    ensures Digits(1, [1, 0, 1]) == 5 && Digits(2, [3, 2]) == 14
  {
    var a: seq<nat>, b: seq<nat>, c: seq<nat>, d: seq<nat>, e: seq<nat> := [1, 0, 1], [1, 0], [1], [3, 2], [3];
    assert a[..2] == b && b[..1] == c && c[..0] == [] && d[..1] == e && e[..0] == [];
    assert Digits(1, []) == 0 && Digits(2, []) == 0;
    assert Digits(1, c) == 1;
    assert Digits(1, b) == 2;
    assert Digits(2, e) == 3;
  }

  function Headers(cs: Chunks): (r: bytes)
    requires cs.FitWords()
  {
    if cs.Nil? then [] else Headers(cs.init) + WriteU16(Header(cs.last))
  }

  lemma {:induction false} ChainedWords(start: int, cs: Chunks)
    requires Chained(start, cs)
    ensures cs.FitWords() && cs.NonEmpty()
  {
    if cs.Snoc? {
      ChainedWords(start, cs.init);
    }
  }

  lemma {:induction false} ChainedFits(start: int, cs: Chunks)
    requires Chained(start, cs)
    ensures Fits(start, cs.Statuses(), cs.Times())
  {
    if cs.Snoc? {
      ChainedFits(start, cs.init);
      PieceFits(EndTime(start, cs.init.Times()), cs.last);
      FitsAppend(start, cs.init.Statuses(), cs.init.Times(), cs.last.Statuses(), cs.last.Times());
    }
  }

  lemma {:induction false} DeltaRunFits(ts: seq<int>, curr: int, lo: int, hi: int, code: nat)
    requires if code == SMALL_DELTA then lo == 0 && hi == MAX_SMALL
             else code == LARGE_DELTA && lo == MIN_LARGE && hi == MAX_LARGE
    requires DeltaRun(ts, curr, lo, hi) == |ts|
    ensures Fits(curr, StatusList(code, ts), ts)
    decreases |ts|
  {
    if ts != [] {
      DeltaRunFits(ts[1..], Step(curr, ts[0]), lo, hi, code);
    }
  }

  lemma PieceFits(start: int, p: Piece)
    requires PieceOk(start, p)
    ensures Fits(start, p.Statuses(), p.Times())
  {
    match p
    case Lost(_) =>
      EndTimeLost(start, p.count);
      StatusListLost(p.count);
    case Small(_, _) => DeltaRunFits(p.times, start, 0, MAX_SMALL, SMALL_DELTA);
    case Large(_, _) => DeltaRunFits(p.times, start, MIN_LARGE, MAX_LARGE, LARGE_DELTA);
  }

  // The message body: base, count, reference time and feedback count, chunks, deltas.
  function Framed(base: uint16, count: uint16, word: uint32, body: bytes): bytes {
    WriteU16(base) + WriteU16(count) + WriteU32(word) + body
  }

  // The reference time is 24 bits of 64 ms units, above an 8-bit feedback count.
  function ReferenceWord(units: nat, fbCount: uint8): uint32 {
    (units * 0x100 + fbCount) % 0x1_0000_0000
  }

  function ReferenceOf(word: uint32): int { word / 0x100 * REFERENCE_UNIT }

  lemma ReferenceExact(units: nat, fbCount: uint8)
    ensures ReferenceOf(ReferenceWord(units, fbCount)) == units * REFERENCE_UNIT <==> units < 0x100_0000
  {
    assert ReferenceWord(units, fbCount) / 0x100 == units % 0x100_0000;
  }

  ghost function Encode(f: Feedback, fbCount: uint8): bytes
    requires FeedbackOk(f)
  {
    ChainedFits(f.Reference(), f.chunks);
    ChainedWords(f.Reference(), f.chunks);
    Framed(f.base % 0x1_0000, f.Count(), ReferenceWord(f.units, fbCount),
           Headers(f.chunks) + Stamps(f.Reference(), f.Statuses(), f.Times()))
  }

  // ----- Reading -----

  function OneBitSymbols(h: uint16, n: nat): (r: seq<nat>)
    requires n <= 14
    ensures |r| == n
  {
    if n == 0 then [] else OneBitSymbols(h, n - 1) + [Shr(h, 14 - n) % 2]
  }

  lemma {:induction false} OneBitSymbolsAt(h: uint16, n: nat)
    requires n <= 14
    ensures forall j :: 0 <= j < n ==> OneBitSymbols(h, n)[j] == Shr(h, 13 - j) % 2
  {
    if n > 0 {
      OneBitSymbolsAt(h, n - 1);
    }
  }

  function TwoBitSymbols(h: uint16, n: nat): (r: seq<nat>)
    requires n <= 7
    ensures |r| == n
  {
    if n == 0 then [] else TwoBitSymbols(h, n - 1) + [Shr(h, 14 - 2 * n) % 4]
  }

  lemma {:induction false} TwoBitSymbolsAt(h: uint16, n: nat)
    requires n <= 7
    ensures forall j :: 0 <= j < n ==> TwoBitSymbols(h, n)[j] == Shr(h, 12 - 2 * j) % 4
  {
    if n > 0 {
      TwoBitSymbolsAt(h, n - 1);
    }
  }

  function Min(a: int, b: int): int { if a < b then a else b }

  // The symbols a chunk gives when `n` packets remain; None for a run longer than that.
  function Symbols(h: uint16, n: nat): (r: Option<seq<nat>>)
    ensures r.Some? ==> |r.value| <= n
  {
    if Shr(h, 15) % 2 == 0 then
      if h % 0x2000 > n then None else Some(Repeat<nat>(Shr(h, 13) % 4, h % 0x2000))
    else if Shr(h, 14) % 2 == 0 then Some(OneBitSymbols(h, Min(14, n)))
    else Some(TwoBitSymbols(h, Min(7, n)))
  }

  // The statuses of `n` packets and the bytes after the chunks; None when a chunk is cut short.
  // A run longer than what remains ends the chunk list early and leaves the rest not received.
  function ReadStatuses(b: bytes, n: nat): (r: Option<(seq<nat>, bytes)>)
    ensures r.Some? ==> |r.value.0| == n
    decreases |b|
  {
    if n == 0 then Some(([], b))
    else if |b| < 2 then None
    else
      var symbols := Symbols(ReadU16(b), n);
      if symbols.None? then Some((Zeros(n), b[2..]))
      else
        var rest := ReadStatuses(b[2..], n - |symbols.value|);
        if rest.None? then None else Some((symbols.value + rest.value.0, rest.value.1))
  }

  // The deltas in microseconds, up to the first one that is cut short.
  function ReadDeltas(st: seq<nat>, b: bytes): (r: seq<int>)
    ensures |r| <= |st|
    decreases |st|
  {
    if st == [] then []
    else if st[0] == SMALL_DELTA then
      if |b| < 1 then [] else [250 * b[0] as int] + ReadDeltas(st[1..], b[1..])
    else if st[0] == LARGE_DELTA then
      if |b| < 2 then [] else [250 * ToInt16(ReadU16(b))] + ReadDeltas(st[1..], b[2..])
    else
      [0] + ReadDeltas(st[1..], b)
  }

  predicate HasTime(status: nat) { status == SMALL_DELTA || status == LARGE_DELTA }

  // Absolute times, when every packet is known to the publisher.
  function Resolve(prev: int, st: seq<nat>, deltas: seq<int>): (r: seq<int>)
    requires |st| == |deltas|
    ensures |r| == |st|
    decreases |st|
  {
    if st == [] then []
    else if HasTime(st[0]) then [prev + deltas[0]] + Resolve(prev + deltas[0], st[1..], deltas[1..])
    else [0] + Resolve(prev, st[1..], deltas[1..])
  }

  datatype Report = Report(base: uint16, referenceMicros: int, statuses: seq<nat>, deltas: seq<int>)

  function Decode(b: bytes): Option<Report> {
    if |b| < 8 || ReadU16(b[2..]) == 0 then None
    else
      var read := ReadStatuses(b[8..], ReadU16(b[2..]));
      if read.None? then None
      else
        var deltas := ReadDeltas(read.value.0, read.value.1);
        if |deltas| < |read.value.0| then None
        else Some(Report(ReadU16(b), ReferenceOf(ReadU32(b[4..])), read.value.0, deltas))
  }

  // ----- Reading undoes writing -----

  lemma ReadRun(count: uint16, n: nat)
    requires count <= MAX_RUN && count <= n
    ensures Symbols(count, n) == Some(Lost(count).Statuses())
  {
    Shl16();
    ShrSmall(count, 13);
    ShrNext(count, 13);
    ShrNext(count, 14);
    StatusListLost(count);
  }

  lemma HeaderIs(p: Piece)
    requires !p.Lost? && p.FitsWord()
    ensures Header(p) == Digits(if p.Small? then 1 else 2, HeaderDigits(p))
  {
  }

  lemma ReadOneBit(p: Piece, n: nat)
    requires p.Small? && p.FitsWord() && p.Len() <= n && (p.IsFull() || p.Len() == n)
    ensures Symbols(Header(p), n) == Some(p.Statuses())
  {
    hide Shr, Digits, Header, StatusList;
    var h, ds := Header(p), HeaderDigits(p);
    HeaderIs(p);
    DigitAt(1, ds, 0);
    DigitAt(1, ds, 1);
    assert Shr(h, 15) % 2 == 1 && Shr(h, 14) % 2 == 0;
    forall j | 0 <= j < |p.times| ensures Shr(h, 13 - j) % 2 == p.Statuses()[j] {
      DigitAt(1, ds, j + 2);
      assert ds[j + 2] == p.Statuses()[j];
    }
    OneBitSymbolsAt(h, |p.times|);
    assert OneBitSymbols(h, Min(14, n)) == p.Statuses();
  }

  lemma ReadTwoBit(p: Piece, n: nat)
    requires p.Large? && p.FitsWord() && p.Len() <= n && (p.IsFull() || p.Len() == n)
    ensures Symbols(Header(p), n) == Some(p.Statuses())
  {
    hide Shr, Digits, Header, StatusList;
    var h, ds := Header(p), HeaderDigits(p);
    HeaderIs(p);
    DigitAt(2, ds, 0);
    ShrNext(h, 14);
    assert Shr(h, 14) % 4 == 3;
    forall j | 0 <= j < |p.times| ensures Shr(h, 12 - 2 * j) % 4 == p.Statuses()[j] {
      DigitAt(2, ds, j + 1);
      assert ds[j + 1] == p.Statuses()[j];
    }
    TwoBitSymbolsAt(h, |p.times|);
    assert TwoBitSymbols(h, Min(7, n)) == p.Statuses();
  }

  // Every chunk is read back as the statuses it was written from.
  lemma ReadChunk(p: Piece, n: nat)
    requires p.FitsWord() && p.Len() <= n && (p.IsFull() || p.Len() == n)
    ensures Symbols(Header(p), n) == Some(p.Statuses())
  {
    match p
    case Lost(count) => ReadRun(count, n);
    case Small(_, _) => ReadOneBit(p, n);
    case Large(_, _) => ReadTwoBit(p, n);
  }

  lemma ReadOneChunk(p: Piece, tail: bytes, n: nat, st: seq<nat>, rest: bytes)
    requires p.FitsWord() && 0 < p.Len() <= n && (p.IsFull() || p.Len() == n)
    requires ReadStatuses(tail, n - p.Len()) == Some((st, rest))
    ensures ReadStatuses(WriteU16(Header(p)) + tail, n) == Some((p.Statuses() + st, rest))
  {
    hide Symbols, Header, WriteU16, ReadU16, Piece.Statuses;
    ReadChunk(p, n);
    ReadWriteU16(Header(p), tail);
  }

  // Chunks are read back whatever follows them, as long as only the last one may be partial.
  lemma {:induction false} ReadChunks(cs: Chunks, tail: bytes, m: nat, st: seq<nat>, rest: bytes)
    requires cs.FitWords() && cs.NonEmpty() && cs.Snoc? && cs.init.AllFull() && (cs.last.IsFull() || m == 0)
    requires ReadStatuses(tail, m) == Some((st, rest))
    ensures ReadStatuses(Headers(cs) + tail, |cs.Times()| + m) == Some((cs.Statuses() + st, rest))
  {
    hide ReadStatuses, Header, Piece.Statuses, Piece.Times, Piece.IsFull, WriteU16;
    var w, n := WriteU16(Header(cs.last)), cs.last.Len() + m;
    ReadOneChunk(cs.last, tail, n, st, rest);
    if cs.init.Nil? {
      assert Headers(cs) + tail == w + tail;
      assert cs.Statuses() == cs.last.Statuses();
    } else {
      ReadChunks(cs.init, w + tail, n, cs.last.Statuses() + st, rest);
      Assoc(Headers(cs.init), w, tail);
      assert cs.init.Statuses() + (cs.last.Statuses() + st) == cs.Statuses() + st;
    }
  }

  // What is left of a delta after truncation to 250 microsecond units.
  function Truncated(delta: int): int { 250 * TruncDiv(delta, 250) }

  lemma TruncatedError(delta: int)
    ensures -249 <= delta - Truncated(delta) <= 249
  {
  }

  lemma {:induction false} ReadStamps(prev: int, st: seq<nat>, ts: seq<int>)
    requires Fits(prev, st, ts)
    ensures TruncatesEach(prev, ts, ReadDeltas(st, Stamps(prev, st, ts)))
    decreases |ts|
  {
    if ts != [] {
      var tail := Stamps(Step(prev, ts[0]), st[1..], ts[1..]);
      ReadStamps(Step(prev, ts[0]), st[1..], ts[1..]);
      ReadStamp(prev, st, ts[0], tail);
      assert ReadDeltas(st, Stamps(prev, st, ts))[1..] == ReadDeltas(st[1..], tail);
    }
  }

  lemma ReadStamp(prev: int, st: seq<nat>, t: int, tail: bytes)
    requires st != [] && DeltaFits(prev, st[0], t)
    ensures ReadDeltas(st, Stamp(prev, st[0], t) + tail)
            == [if t == 0 then 0 else Truncated(t - prev)] + ReadDeltas(st[1..], tail)
  {
    var b := Stamp(prev, st[0], t) + tail;
    if t == 0 {
      assert b == tail;
    } else if st[0] == SMALL_DELTA {
      assert b[1..] == tail;
    } else {
      ReadWriteU16(FromInt16(TruncDiv(t - prev, 250)), tail);
    }
  }

  // `deltas` are the true deltas, each truncated on its own; 0 for a packet not received.
  ghost predicate TruncatesEach(prev: int, ts: seq<int>, deltas: seq<int>)
    decreases |ts|
  {
    && |ts| == |deltas|
    && (ts != [] ==>
          && deltas[0] == (if ts[0] == 0 then 0 else Truncated(ts[0] - prev))
          && TruncatesEach(Step(prev, ts[0]), ts[1..], deltas[1..]))
  }

  function Received(ts: seq<int>): nat {
    if ts == [] then 0 else Received(ts[..|ts| - 1]) + if ts[|ts| - 1] != 0 then 1 else 0
  }

  lemma {:induction false} ReceivedHead(ts: seq<int>)
    requires ts != []
    ensures Received(ts) == (if ts[0] != 0 then 1 else 0) + Received(ts[1..])
  {
    var n := |ts| - 1;
    if n > 0 {
      ReceivedHead(ts[..n]);
      assert ts[..n][1..] == ts[1..][..n - 1];
      assert ts[1..][|ts[1..]| - 1] == ts[n];
    } else {
      assert ts[1..] == [] && ts[..n] == [];
    }
  }

  // The k-th received packet is off by at most 249 k, on top of an initial error.
  lemma {:induction false} ResolveError(prev: int, decoded: int, slack: int, st: seq<nat>, ts: seq<int>, deltas: seq<int>)
    requires Fits(prev, st, ts) && TruncatesEach(prev, ts, deltas)
    requires 0 <= slack && -slack <= prev - decoded <= slack
    ensures forall i :: 0 <= i < |ts| && ts[i] != 0 ==>
              -slack - 249 * Received(ts[..i + 1]) <= ts[i] - Resolve(decoded, st, deltas)[i]
                <= slack + 249 * Received(ts[..i + 1])
    decreases |ts|
  {
    if ts != [] {
      TruncatedError(ts[0] - prev);
      var r := Resolve(decoded, st, deltas);
      if ts[0] == 0 {
        ResolveError(prev, decoded, slack, st[1..], ts[1..], deltas[1..]);
      } else {
        ResolveError(ts[0], decoded + deltas[0], slack + 249, st[1..], ts[1..], deltas[1..]);
      }
      forall i | 0 <= i < |ts| && ts[i] != 0
        ensures -slack - 249 * Received(ts[..i + 1]) <= ts[i] - r[i] <= slack + 249 * Received(ts[..i + 1])
      {
        ReceivedHead(ts[..i + 1]);
        assert ts[..i + 1][1..] == ts[1..][..i];
        if i > 0 {
          assert ts[i] == ts[1..][i - 1] && i - 1 + 1 == i;
        }
      }
    }
  }

  lemma {:induction false} StatusesMatchTimes(prev: int, st: seq<nat>, ts: seq<int>)
    requires Fits(prev, st, ts)
    ensures forall i :: 0 <= i < |ts| ==> (HasTime(st[i]) <==> ts[i] != 0) && (st[i] == NOT_RECEIVED <==> ts[i] == 0)
    decreases |ts|
  {
    if ts != [] {
      StatusesMatchTimes(Step(prev, ts[0]), st[1..], ts[1..]);
      forall i | 0 < i < |ts| ensures (HasTime(st[i]) <==> ts[i] != 0) && (st[i] == NOT_RECEIVED <==> ts[i] == 0) {
        assert st[i] == st[1..][i - 1] && ts[i] == ts[1..][i - 1];
      }
    }
  }

  lemma ReadFramed(base: uint16, count: uint16, word: uint32, body: bytes)
    ensures
      var b := Framed(base, count, word, body);
      && |b| == 8 + |body| && ReadU16(b) == base && ReadU16(b[2..]) == count && ReadU32(b[4..]) == word
      && b[8..] == body
  {
    var b := Framed(base, count, word, body);
    assert b == WriteU16(base) + (WriteU16(count) + (WriteU32(word) + body));
    assert b[2..] == WriteU16(count) + (WriteU32(word) + body);
    assert b[4..] == WriteU32(word) + body;
    ReadWriteU16(base, b[2..]);
    ReadWriteU16(count, b[4..]);
    ReadWriteU32(word, body);
  }

  lemma DecodeFramed(base: uint16, count: uint16, word: uint32, chunks: bytes, stamps: bytes, st: seq<nat>)
    requires count > 0 && ReadStatuses(chunks + stamps, count) == Some((st, stamps))
    requires |ReadDeltas(st, stamps)| == |st|
    ensures Decode(Framed(base, count, word, chunks + stamps))
            == Some(Report(base, ReferenceOf(word), st, ReadDeltas(st, stamps)))
  {
    ReadFramed(base, count, word, chunks + stamps);
  }

  lemma ReadNoChunk(b: bytes)
    ensures ReadStatuses(b, 0) == Some(([], b))
  {
  }

  lemma ReadAllChunks(f: Feedback, stamps: bytes)
    requires FeedbackOk(f)
    ensures f.chunks.FitWords() && 0 < f.Count() < 0x1_0000 && |f.Statuses()| == |f.Times()| == f.Count()
    ensures ReadStatuses(Headers(f.chunks) + stamps, f.Count()) == Some((f.Statuses(), stamps))
  {
    hide ReadStatuses, Headers, PieceOk;
    ChainedWords(f.Reference(), f.chunks);
    ReadNoChunk(stamps);
    ReadChunks(f.chunks, stamps, 0, [], stamps);
    assert f.Statuses() + [] == f.Statuses();
  }

  lemma EncodeIs(f: Feedback, fbCount: uint8)
    requires FeedbackOk(f)
    ensures f.chunks.FitWords() && Fits(f.Reference(), f.Statuses(), f.Times())
    ensures Encode(f, fbCount) == Framed(f.base % 0x1_0000, f.Count(), ReferenceWord(f.units, fbCount),
                                         Headers(f.chunks) + Stamps(f.Reference(), f.Statuses(), f.Times()))
  {
    hide Framed, Fits, Headers, ReferenceWord, Stamps;
    ChainedFits(f.Reference(), f.chunks);
    ChainedWords(f.Reference(), f.chunks);
  }

  lemma {:induction false} TruncatesLength(prev: int, ts: seq<int>, deltas: seq<int>)
    requires TruncatesEach(prev, ts, deltas)
    ensures |ts| == |deltas|
  {
  }

  lemma DecodeEncode(f: Feedback, fbCount: uint8)
    requires FeedbackOk(f)
    ensures
      var d := Decode(Encode(f, fbCount));
      && d.Some? && d.value.base == f.base % 0x1_0000
      && d.value.referenceMicros == ReferenceOf(ReferenceWord(f.units, fbCount))
      && d.value.statuses == f.Statuses()
      && TruncatesEach(f.Reference(), f.Times(), d.value.deltas)
  {
    hide *;
    EncodeIs(f, fbCount);
    var st, ts := f.Statuses(), f.Times();
    var stamps := Stamps(f.Reference(), st, ts);
    ReadAllChunks(f, stamps);
    ReadStamps(f.Reference(), st, ts);
    TruncatesLength(f.Reference(), ts, ReadDeltas(st, stamps));
    DecodeFramed(f.base % 0x1_0000, f.Count(), ReferenceWord(f.units, fbCount), Headers(f.chunks), stamps, st);
  }

  // The round trip. Received / not received is recovered exactly; the k-th received packet's time is
  // off by less than 250 k microseconds, because deltas are truncated one by one.
  lemma RoundTrip(f: Feedback, fbCount: uint8)
    requires FeedbackOk(f)
    ensures
      var d := Decode(Encode(f, fbCount));
      && d.Some? && d.value.base == f.base % 0x1_0000 && |d.value.statuses| == |d.value.deltas| == f.Count()
      && (forall i :: 0 <= i < f.Count() ==> (HasTime(d.value.statuses[i]) <==> f.Times()[i] != 0))
      && (d.value.referenceMicros == f.Reference() <==> f.units < 0x100_0000)
      && (f.units < 0x100_0000 ==>
            forall i :: 0 <= i < f.Count() && f.Times()[i] != 0 ==>
              -250 * Received(f.Times()[..i + 1])
              < f.Times()[i] - Resolve(d.value.referenceMicros, d.value.statuses, d.value.deltas)[i]
              < 250 * Received(f.Times()[..i + 1]))
  {
    DecodeEncode(f, fbCount);
    ChainedFits(f.Reference(), f.chunks);
    var d := Decode(Encode(f, fbCount)).value;
    var ts := f.Times();
    StatusesMatchTimes(f.Reference(), f.Statuses(), ts);
    ReferenceExact(f.units, fbCount);
    if f.units < 0x100_0000 {
      ResolveError(f.Reference(), d.referenceMicros, 0, f.Statuses(), ts, d.deltas);
      forall i | 0 <= i < |ts| && ts[i] != 0 ensures Received(ts[..i + 1]) > 0 {
        assert ts[..i + 1][i] == ts[i];
      }
    }
  }
}
