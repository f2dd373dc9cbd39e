// 32-bit transmission sequence numbers and what the session computes with them
// (src/sctp/sctp_session.cpp; RFC 4960 section 3.3.4).
module SctpSerial {
  import opened Wire

  const TSN_RANGE := 0x1_0000_0000

  // The number of the i-th chunk a session sends, counting from 0.
  function Tsn(initial: uint32, i: nat): uint32 { (initial + i) % TSN_RANGE }

  // The number before that one: what "the first i chunks have arrived" is reported as.
  function CumTsn(initial: uint32, i: nat): uint32 { (initial + i - 1) % TSN_RANGE }

  function Distance(a: uint32, b: uint32): nat { (a - b) % TSN_RANGE }

  // static_cast<int32_t>(a - b) <= 0
  predicate AtOrBefore(a: uint32, b: uint32) { a == b || Distance(a, b) >= 0x8000_0000 }

  // static_cast<uint16_t>(a - b)
  function Offset(a: uint32, b: uint32): uint16 { (a - b) % 0x1_0000 }

  // Where chunk i stands in relation to a cumulative number that stands for `c` chunks.
  lemma {:induction false} SerialOrder(initial: uint32, i: nat, c: nat)
    requires c - 0x8000_0000 <= i < c + 0x7FFF_FFFF
    ensures AtOrBefore(Tsn(initial, i), CumTsn(initial, c)) <==> i < c
    ensures i >= c ==> Distance(Tsn(initial, i), CumTsn(initial, c)) == i - c + 1
  {
  }

  lemma {:induction false} SerialOffset(initial: uint32, i: nat, c: nat)
    requires i >= c
    ensures Offset(Tsn(initial, i), CumTsn(initial, c)) == (i - c + 1) % 0x1_0000
  {
    var a, b := initial + i, initial + c - 1;
    assert a % TSN_RANGE == a - TSN_RANGE * (a / TSN_RANGE) && b % TSN_RANGE == b - TSN_RANGE * (b / TSN_RANGE);
    ShiftMod(a - b, b / TSN_RANGE - a / TSN_RANGE);
  }

  lemma ShiftMod(x: int, k: int)
    ensures (x + TSN_RANGE * k) % 0x1_0000 == x % 0x1_0000
  {
    assert (x + TSN_RANGE * k) == x + 0x1_0000 * (0x1_0000 * k);
    assert (x + 0x1_0000 * (0x1_0000 * k)) / 0x1_0000 == x / 0x1_0000 + 0x1_0000 * k;
  }

  lemma NextTsn(initial: uint32, i: nat)
    ensures (Tsn(initial, i) + 1) % TSN_RANGE == Tsn(initial, i + 1)
    ensures Tsn(initial, i) == CumTsn(initial, i + 1)
  {
  }

  lemma NextCumTsn(initial: uint32, i: nat)
    ensures (CumTsn(initial, i) + 1) % TSN_RANGE == Tsn(initial, i)
  {
  }

  lemma {:induction false} TsnApart(initial: uint32, i: nat, j: nat)
    requires i < j < i + TSN_RANGE
    ensures Tsn(initial, i) != Tsn(initial, j)
  {
  }
}
