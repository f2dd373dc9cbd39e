// The rollover counter of SRTP sequence numbers, at the sender (src/rtp_packet_source.cpp) and as the
// receiver guesses it (src/srtp_connection.cpp); RFC 3711 section 3.3.1.
module Rollover {
  import opened Wire

  const SEQ_RANGE := 0x1_0000

  function SeqOf(index: nat): uint16 { index % SEQ_RANGE }

  function RollOf(index: nat): nat { index / SEQ_RANGE }

  // ----- The sender -----

  class RtpPacketSource {
    var generatedCount: nat
    var rollover: nat
    var nextSequence: uint16
    ghost const start: uint16

    // Packets are numbered without a gap from the start on: rollover * 2^16 + sequence.
    ghost predicate Valid() reads this {
      start <= 30000 && rollover * SEQ_RANGE + nextSequence == start + generatedCount
    }

    constructor (random: uint16)
      requires random <= 30000
      ensures Valid() && start == random && generatedCount == 0
    {
      generatedCount, rollover, nextSequence := 0, 0, random;
      start := random;
    }

    method GetNextSequence() returns (roll: nat, sequence: uint16)
      requires Valid()
      modifies this
      ensures Valid() && generatedCount == old(generatedCount) + 1
      ensures roll == RollOf(start + generatedCount) && sequence == SeqOf(start + generatedCount)
    {
      generatedCount := generatedCount + 1;
      nextSequence := (nextSequence + 1) % 0x1_0000;
      if generatedCount > 1 && nextSequence == 0 {
        rollover := rollover + 1;
      }
      return rollover, nextSequence;
    }
  }

  // ----- The receiver's guess -----

  // rolloverCount and lastSequence16 of a channel.
  datatype Channel = Channel(rollover: nat, last: Option<uint16>)

  // The rollover a packet is decrypted with, and the channel after it.
  function Guess(c: Channel, seqno: uint16): (nat, Channel) {
    if c.last.None? then (c.rollover, Channel(c.rollover, Some(seqno)))
    else if c.last.value <= 0x1000 && seqno >= 0xF000 then
      (if c.rollover > 0 then c.rollover - 1 else c.rollover, c)
    else if c.last.value >= 0xF000 && seqno <= 0x1000 then (c.rollover + 1, Channel(c.rollover + 1, Some(seqno)))
    else (c.rollover, Channel(c.rollover, Some(seqno)))
  }

  // The indices for which the guess is right: 2^16 of them, around the channel's last packet.
  function GuessFrom(c: Channel): int {
    if c.last.None? then c.rollover * SEQ_RANGE
    else if c.last.value <= 0x1000 then (if c.rollover == 0 then 0 else c.rollover * SEQ_RANGE - 0x1000)
    else if c.last.value >= 0xF000 then c.rollover * SEQ_RANGE + 0x1001
    else c.rollover * SEQ_RANGE
  }

  // The receiver decrypts a packet with the sender's rollover exactly when its index is within 2^16 of
  // the lower edge, which is at most 2^16 - 2^12 behind the last packet.
  lemma GuessExact(c: Channel, index: nat)
    ensures Guess(c, SeqOf(index)).0 == RollOf(index) <==> GuessFrom(c) <= index < GuessFrom(c) + SEQ_RANGE
  {
    var roll, s := RollOf(index), SeqOf(index);
    assert index == roll * SEQ_RANGE + s;
    Blocks(roll, s, c.rollover);
  }

  lemma Blocks(roll: nat, s: uint16, at: nat)
    ensures at * SEQ_RANGE <= roll * SEQ_RANGE + s < at * SEQ_RANGE + SEQ_RANGE <==> roll == at
    ensures roll * SEQ_RANGE + s >= at * SEQ_RANGE + SEQ_RANGE <==> roll >= at + 1
    ensures roll * SEQ_RANGE + s >= at * SEQ_RANGE - SEQ_RANGE <==> roll >= at - 1
  {
  }

  // The index of the last packet that moved the channel.
  function LastIndex(c: Channel): nat
    requires c.last.Some?
  {
    c.rollover * SEQ_RANGE + c.last.value
  }

  predicate Near(a: int, b: int) { -0x1000 <= a - b <= 0x1000 }

  // A packet within 0x1000 of the last one is guessed right, and moves the channel to itself unless it
  // belongs to the rollover before.
  lemma NearGuess(c: Channel, index: nat)
    requires c.last.Some? && Near(index, LastIndex(c))
    ensures
      var (roll, c') := Guess(c, SeqOf(index));
      && roll == RollOf(index)
      && c'.last.Some? && LastIndex(c') == if index < c.rollover * SEQ_RANGE then LastIndex(c) else index
  {
    GuessExact(c, index);
    var roll, s := RollOf(index), SeqOf(index);
    assert index == roll * SEQ_RANGE + s;
    Blocks(roll, s, c.rollover);
  }

  // The rollovers a run of packets is decrypted with.
  function Guesses(c: Channel, indices: seq<nat>): seq<nat>
    decreases |indices|
  {
    if indices == [] then []
    else [Guess(c, SeqOf(indices[0])).0] + Guesses(Guess(c, SeqOf(indices[0])).1, indices[1..])
  }

  // Each packet is within 0x1000 of the last one that moved the channel.
  ghost predicate Jittered(c: Channel, indices: seq<nat>)
    decreases |indices|
  {
    indices != [] ==>
      && (if c.last.None? then RollOf(indices[0]) == c.rollover else Near(indices[0], LastIndex(c)))
      && Jittered(Guess(c, SeqOf(indices[0])).1, indices[1..])
  }

  // Agreement over whole runs, however often sequence numbers wrap and packets cross the wrap.
  lemma {:induction false} GuessesAgree(c: Channel, indices: seq<nat>)
    requires Jittered(c, indices)
    ensures |Guesses(c, indices)| == |indices|
    ensures forall i :: 0 <= i < |indices| ==> Guesses(c, indices)[i] == RollOf(indices[i])
    decreases |indices|
  {
    if indices != [] {
      hide RollOf, SeqOf, Guess;
      if c.last.Some? {
        NearGuess(c, indices[0]);
      } else {
        FirstGuess(c, indices[0]);
      }
      GuessesAgree(Guess(c, SeqOf(indices[0])).1, indices[1..]);
    }
  }

  lemma FirstGuess(c: Channel, index: nat)
    requires c.last.None?
    ensures Guess(c, SeqOf(index)).0 == c.rollover
  {
  }
}
