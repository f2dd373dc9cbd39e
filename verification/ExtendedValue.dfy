// Extending wrapping 16- and 32-bit counters to 64 bits (src/extended_value.cpp).
module ExtendedValues {
  import opened Wire

  const ROLLOVER_BACK_MICROS := 1_000_000

  // The mutable part of ExtendedValue<T>. A rollover value of 0 means "not initialised".
  datatype State = State(rollover: nat, rolloverTime: int, last: Option<nat>)

  const Fresh := State(0, 0, None)

  ghost predicate IsMax(max: nat) { max == 0xFFFF || max == 0xFFFF_FFFF }

  ghost predicate StateOk(max: nat, s: State) {
    && s.rollover % (max + 1) == 0
    && (s.last.Some? ==> s.last.value <= max && s.rollover >= max + 1)
  }

  // The new state and the extended value.
  function Extended(max: nat, s: State, src: nat, now: int): (State, nat)
    requires StateOk(max, s)
  {
    var s := if s.rollover == 0 then s.(rollover := max + 1, rolloverTime := now) else s;
    var margin := max / 4;
    if s.last.None? then
      (s.(last := Some(src)), s.rollover + src)
    else if s.last.value >= max - margin && src <= margin then
      (State(s.rollover + max + 1, now, Some(src)), s.rollover + max + 1 + src)
    else if s.last.value <= margin && src >= max - margin && now - s.rolloverTime <= ROLLOVER_BACK_MICROS then
      (s, s.rollover - (max + 1) + src)
    else
      (s.(last := Some(src)), s.rollover + src)
  }

  class ExtendedValue {
    const max: nat
    var rolloverValue: nat
    var rolloverTime: int
    var lastValue: Option<nat>

    ghost function Abs(): State reads this { State(rolloverValue, rolloverTime, lastValue) }

    ghost predicate Valid() reads this { IsMax(max) && StateOk(max, Abs()) }

    constructor (max: nat)
      requires IsMax(max)
      ensures Valid() && this.max == max && Abs() == Fresh
    {
      this.max := max;
      rolloverValue, rolloverTime, lastValue := 0, 0, None;
    }

    method Extend(src: nat, now: int) returns (r: nat)
      requires Valid() && src <= max
      modifies this
      ensures Valid()
      ensures (Abs(), r) == Extended(max, old(Abs()), src, now)
    {
      ExtendKeepsStateOk(max, Abs(), src, now);
      var increment := max + 1;
      if rolloverValue == 0 {
        rolloverValue := increment;
        rolloverTime := now;
      }
      if lastValue.None? {
        lastValue := Some(src);
        return rolloverValue + src;
      }
      var margin := max / 4;
      if lastValue.value >= max - margin && src <= margin {
        rolloverValue := rolloverValue + increment;
        rolloverTime := now;
        lastValue := Some(src);
        return rolloverValue + src;
      }
      if lastValue.value <= margin && src >= max - margin && now - rolloverTime <= ROLLOVER_BACK_MICROS {
        return rolloverValue - increment + src;
      }
      lastValue := Some(src);
      return rolloverValue + src;
    }
  }

  lemma ExtendKeepsStateOk(max: nat, s: State, src: nat, now: int)
    requires IsMax(max) && StateOk(max, s) && src <= max
    ensures StateOk(max, Extended(max, s, src, now).0) && Extended(max, s, src, now).0.last.Some?
    ensures Extended(max, s, src, now).1 % (max + 1) == src
  {
    if max == 0xFFFF {
    } else {
    }
  }

  // The window of true indices that `Extended` maps correctly when the last retained true index is
  // `last`: always exactly max + 1 wide, shifted a quarter range towards a wrap that is near.
  ghost predicate InWindow(max: nat, s: State, last: int, index: int, now: int)
    requires IsMax(max) && s.last.Some?
  {
    var l, margin := s.last.value, max / 4;
    var epochStart := last - l;
    if l >= max - margin then
      epochStart + margin < index <= epochStart + max + 1 + margin
    else if l <= margin && now - s.rolloverTime <= ROLLOVER_BACK_MICROS then
      epochStart - margin - 1 <= index < epochStart + max - margin
    else
      epochStart <= index <= epochStart + max
  }

  // `s` has retained true index `last`, and extended values exceed true indices by `offset`.
  ghost predicate Tracks(max: nat, s: State, last: int, offset: int)
    requires IsMax(max)
  {
    && StateOk(max, s) && s.last.Some?
    && s.last.value == last % (max + 1)
    && s.rollover + s.last.value == last + offset
  }

  // Exactly when the extension of a truncated true index is right.
  lemma ExtendExact(max: nat, s: State, last: int, offset: int, index: int, now: int)
    requires IsMax(max) && Tracks(max, s, last, offset)
    ensures Extended(max, s, index % (max + 1), now).1 == index + offset <==> InWindow(max, s, last, index, now)
  {
    if max == 0xFFFF {
    } else {
    }
  }

  // One arrival: the true index, and when it arrives.
  datatype Arrival = Arrival(index: int, now: int)

  // Bounded reordering, stated on true indices only: each index is within a quarter of the range of
  // the last retained one, and one that falls back behind a wrap does so within a second of it.
  ghost predicate BoundedReordering(max: nat, last: int, wrapTime: int, stream: seq<Arrival>)
    requires IsMax(max)
    decreases |stream|
  {
    stream == [] ||
    var a := stream[0];
    var epochStart := last - last % (max + 1);
    && -(max / 4) <= a.index - last <= max / 4
    && (a.index < epochStart ==> a.now - wrapTime <= ROLLOVER_BACK_MICROS)
    && if a.index < epochStart then BoundedReordering(max, last, wrapTime, stream[1..])
       else if a.index > epochStart + max then BoundedReordering(max, a.index, a.now, stream[1..])
       else BoundedReordering(max, a.index, wrapTime, stream[1..])
  }

  ghost function ExtendAll(max: nat, s: State, stream: seq<Arrival>): (r: seq<nat>)
    requires IsMax(max) && StateOk(max, s)
    ensures |r| == |stream|
    decreases |stream|
  {
    if stream == [] then []
    else
      ExtendKeepsStateOk(max, s, stream[0].index % (max + 1), stream[0].now);
      var (s', v) := Extended(max, s, stream[0].index % (max + 1), stream[0].now);
      [v] + ExtendAll(max, s', stream[1..])
  }

  // Over a whole stream the epoch never shifts: extended values are true indices plus one offset.
  lemma {:induction false} ExtendAllExact(max: nat, s: State, last: int, offset: int, stream: seq<Arrival>)
    requires IsMax(max) && Tracks(max, s, last, offset)
    requires BoundedReordering(max, last, s.rolloverTime, stream)
    ensures forall k :: 0 <= k < |stream| ==> ExtendAll(max, s, stream)[k] == stream[k].index + offset
    decreases |stream|
  {
    if stream != [] {
      var a := stream[0];
      var s' := Extended(max, s, a.index % (max + 1), a.now).0;
      ExtendTracks(max, s, last, offset, a);
      var epochStart := last - last % (max + 1);
      ExtendAllExact(max, s', if a.index < epochStart then last else a.index, offset, stream[1..]);
    }
  }

  lemma ExtendTracks(max: nat, s: State, last: int, offset: int, a: Arrival)
    requires IsMax(max) && Tracks(max, s, last, offset)
    requires BoundedReordering(max, last, s.rolloverTime, [a])
    ensures
      var (s', v) := Extended(max, s, a.index % (max + 1), a.now);
      var epochStart := last - last % (max + 1);
      && v == a.index + offset
      && Tracks(max, s', if a.index < epochStart then last else a.index, offset)
      && s'.rolloverTime == if a.index > epochStart + max then a.now else s.rolloverTime
  {
    ExtendExact(max, s, last, offset, a.index, a.now);
    if max == 0xFFFF {
    } else {
    }
  }

  // A fresh instance fixes the offset at its first value, so the theorem holds from the start.
  lemma FirstValueFixesOffset(max: nat, first: Arrival, stream: seq<Arrival>)
    requires IsMax(max) && BoundedReordering(max, first.index, first.now, stream)
    ensures
      var offset := max + 1 + first.index % (max + 1) - first.index;
      var r := ExtendAll(max, Fresh, [first] + stream);
      forall k :: 0 <= k <= |stream| ==> r[k] == ([first] + stream)[k].index + offset
  {
    var offset := max + 1 + first.index % (max + 1) - first.index;
    var s := Extended(max, Fresh, first.index % (max + 1), first.now).0;
    assert ([first] + stream)[1..] == stream;
    assert StateOk(max, s) by { if max == 0xFFFF { } else { } }
    ExtendAllExact(max, s, first.index, offset, stream);
  }
}
