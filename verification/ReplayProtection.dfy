// The replay window of an SRTP channel (src/replay_protection.cpp); RFC 3711 section 3.3.2.
module ReplayProtection {
  import opened Wire

  // ----- Which index a value stands for -----

  // `top` is the newest index accepted; values are indices modulo `range`.
  function Distance(top: nat, range: nat, value: nat): int
    requires range > 0
  {
    value - top % range
  }

  // The index a value is taken for: ahead by at most a quarter of the window, also across the wrap, or
  // behind by less than the window without crossing it. None for any other value.
  function Attributed(top: nat, range: nat, size: nat, value: nat): Option<int>
    requires range > 0 && value < range
  {
    var d := Distance(top, range, value);
    if d == 0 then Some(top)
    else if d > 0 then (if d <= size / 4 then Some(top + d) else None)
    else if range + d <= size / 4 then Some(top + range + d)
    else if -d < size then Some(top + d)
    else None
  }

  // Two indices less than a range apart lie in the same block or in neighbouring ones.
  lemma Neighbours(range: nat, p: nat, r: nat, q: nat, s: nat)
    requires r < range && s < range && -(range as int) < (range * q + s) - (range * p + r) < range
    ensures
      var d := (range * q + s) - (range * p + r);
      || (q == p && d == s - r)
      || (q == p + 1 && d == range + s - r)
      || (q + 1 == p && d == s - r - range)
  {
    if q >= p + 2 {
      MulOrder(range, p + 2, q);
    } else if p >= q + 2 {
      MulOrder(range, q + 2, p);
    }
  }

  function Quotient(x: nat, n: nat): nat
    requires n > 0
  {
    x / n
  }

  function Remainder(x: nat, n: nat): nat
    requires n > 0
  {
    x % n
  }

  lemma QuotientRemainder(x: nat, n: nat)
    requires n > 0
    ensures x == n * Quotient(x, n) + Remainder(x, n) && Remainder(x, n) < n
  {
    DivMod(x, n);
  }

  lemma SplitIndices(top: nat, index: nat, range: nat)
    requires range > 0 && -(range as int) < index - top < range
    ensures
      var p, q, r, s := Quotient(top, range), Quotient(index, range), Remainder(top, range), Remainder(index, range);
      || (q == p && index - top == s - r)
      || (q == p + 1 && index - top == range + s - r)
      || (q + 1 == p && index - top == s - r - range)
  {
    hide Quotient, Remainder;
    QuotientRemainder(top, range);
    QuotientRemainder(index, range);
    Neighbours(range, Quotient(top, range), Remainder(top, range), Quotient(index, range), Remainder(index, range));
  }

  // Among the indices of the window, all are recognised but those behind the wrap that `top` is past.
  lemma AttributedExactly(top: nat, range: nat, size: nat, index: nat)
    requires range >= 2 * size && top - size < index <= top + size / 4
    ensures range > 0
    ensures Attributed(top, range, size, index % range)
            == if index < top && index / range != top / range then None else Some(index)
  {
    SplitIndices(top, index, range);
    AttributedFrom(top, range, size, index, top / range, index / range, top % range, index % range);
  }

  // No value is taken for anything else: an index it names lies in the window, has that value, and is not
  // behind a wrap.
  lemma AttributedOnly(top: nat, range: nat, size: nat, value: nat)
    requires range >= 2 * size && size > 0 && value < range && Attributed(top, range, size, value).Some?
    ensures
      var index := Attributed(top, range, size, value).value;
      && 0 <= index && top - size < index <= top + size / 4 && index % range == value
      && (index < top ==> index / range == top / range)
  {
    hide Attributed;
    AttributedBlock(top, range, size, value, top / range, top % range);
    DivMod(top, range);
    var index := Attributed(top, range, size, value).value;
    OneBlock(index, range, if index > top && value < top % range then top / range + 1 else top / range, value);
  }

  lemma AttributedBlock(top: nat, range: nat, size: nat, value: nat, p: nat, r: nat)
    requires range >= 2 * size && size > 0 && value < range && r < range && top == range * p + r && r == top % range
    ensures Attributed(top, range, size, value).Some? ==>
              var index := Attributed(top, range, size, value).value;
              && top - size < index <= top + size / 4
              && index == range * (if index > top && value < r then p + 1 else p) + value
              && (index < top ==> value < r)
  {
  }

  lemma OneBlock(x: int, n: nat, q: nat, r: nat)
    requires n > 0 && r < n && x == n * q + r
    ensures x >= 0 && x % n == r && x / n == q
  {
    DivMod(x, n);
    if x / n < q {
      MulOrder(n, x / n + 1, q);
    } else if x / n > q {
      MulOrder(n, q + 1, x / n);
    }
  }

  lemma AttributedFrom(top: nat, range: nat, size: nat, index: nat, p: nat, q: nat, r: nat, s: nat)
    requires range >= 2 * size && top - size < index <= top + size / 4 && r < range && s < range && r == top % range
    requires
      || (q == p && index - top == s - r)
      || (q == p + 1 && index - top == range + s - r)
      || (q + 1 == p && index - top == s - r - range)
    ensures range > 0 && Attributed(top, range, size, s) == if index < top && q != p then None else Some(index)
  {
  }

  lemma DivMod(x: nat, n: nat)
    requires n > 0
    ensures x == n * (x / n) + x % n && x % n < n
  {
  }

  lemma MulOrder(n: nat, a: int, b: int)
    requires a <= b
    ensures n * a <= n * b
    decreases b - a
  {
    if a < b {
      MulOrder(n, a, b - 1);
      assert n * b == n * (b - 1) + n;
    }
  }

  // ----- The bitmap -----

  // 1 << k
  function Mask(k: nat): bv8
    requires k < 8
  {
    if k == 0 then 1 else if k == 1 then 2 else if k == 2 then 4 else if k == 3 then 8
    else if k == 4 then 16 else if k == 5 then 32 else if k == 6 then 64 else 128
  }

  predicate Bit(b: bv8, k: nat)
    requires k < 8
  {
    b & Mask(k) != 0
  }

  function WithMask(b: bv8, k: nat, on: bool): bv8
    requires k < 8
  {
    if on then b | Mask(k) else b & !Mask(k)
  }

  lemma SetBit(b: bv8, k: nat, j: nat, on: bool)
    requires k < 8 && j < 8
    ensures Bit(WithMask(b, k, on), j) == if j == k then on else Bit(b, j)
    ensures !Bit(0, j)
  {
  }

  // Where an index has its bit: byte and bit position, in a ring of n bytes.
  function ByteOf(index: int, n: nat): (b: nat)
    requires n > 0
    ensures b < n
  {
    index / 8 % n
  }

  lemma BitsApart(i: int, j: int, n: nat)
    requires i < j < i + 8 * n
    ensures n > 0 && !(ByteOf(i, n) == ByteOf(j, n) && i % 8 == j % 8)
  {
    var a, b := i / 8, j / 8;
    if ByteOf(i, n) == ByteOf(j, n) && i % 8 == j % 8 {
      assert j - i == 8 * (b - a);
      SameRemainder(a, b, n);
    }
  }

  lemma SameRemainder(a: int, b: int, n: nat)
    requires n > 0 && a % n == b % n && a < b
    ensures b - a >= n
  {
    var p, q := a / n, b / n;
    assert a == n * p + a % n && b == n * q + b % n;
    Multiples(n, p, q);
  }

  lemma Multiples(n: nat, p: int, q: int)
    ensures n * q - n * p == n * (q - p)
    ensures q - p >= 1 ==> n * (q - p) >= n
    ensures q - p <= 0 ==> n * (q - p) <= 0
  {
    if q - p >= 1 {
      MulOrder(n, 1, q - p);
    } else {
      MulOrder(n, q - p, 0);
    }
  }

  // Taking an index modulo a multiple of the ring's bits does not move its bit.
  lemma ByteOfValue(index: nat, n: nat, t: nat)
    requires n > 0 && t > 0
    ensures 8 * n * t > 0
    ensures ByteOf(index % (8 * n * t), n) == ByteOf(index, n) && index % (8 * n * t) % 8 == index % 8
  {
    var range := 8 * n * t;
    Positive(8 * n, t);
    var q, v := index / range, index % range;
    DivMod(index, range);
    Reorder(n, t, q);
    ByteMoves(index, v, n, t * q);
  }

  lemma ByteMoves(index: nat, v: nat, n: nat, k: nat)
    requires n > 0 && index == v + 8 * (n * k)
    ensures ByteOf(v, n) == ByteOf(index, n) && v % 8 == index % 8
  {
    var m := n * k;
    assert index / 8 == v / 8 + m && index % 8 == v % 8;
    AddMultiple(v / 8, n, k);
  }

  lemma Positive(a: nat, b: nat)
    requires a > 0 && b > 0
    ensures a * b > 0
  {
  }

  lemma Reorder(n: nat, t: nat, q: nat)
    ensures 8 * n * t * q == 8 * (n * (t * q))
  {
  }

  lemma AddMultiple(x: nat, n: nat, k: nat)
    requires n > 0
    ensures (x + n * k) % n == x % n
  {
    var p, r := x / n, x % n;
    assert x == n * p + r;
    assert x + n * k == n * (p + k) + r;
    var y := x + n * k;
    var p', r' := y / n, y % n;
    assert y == n * p' + r';
    Multiples(n, p + k, p');
    Multiples(n, p', p + k);
  }

  predicate BitAt(storage: seq<bv8>, index: int)
    requires |storage| > 0
  {
    Bit(storage[ByteOf(index, |storage|)], index % 8)
  }

  function WithBit(storage: seq<bv8>, index: int, on: bool): seq<bv8>
    requires |storage| > 0
  {
    var b, k := ByteOf(index, |storage|), index % 8;
    storage[b := WithMask(storage[b], k, on)]
  }

  lemma WithBitAt(storage: seq<bv8>, index: int, on: bool, other: int)
    requires |storage| > 0 && -(8 * |storage|) < other - index < 8 * |storage|
    ensures BitAt(WithBit(storage, index, on), other) == if other == index then on else BitAt(storage, other)
  {
    hide Bit, WithMask, ByteOf;
    SetBit(storage[ByteOf(index, |storage|)], index % 8, other % 8, on);
    if other < index {
      BitsApart(other, index, |storage|);
    } else if index < other {
      BitsApart(index, other, |storage|);
    }
  }

  // Each of the last 8 n indices has its bit set exactly when it was accepted.
  ghost predicate Remembers(storage: seq<bv8>, top: int, accepted: set<int>) {
    |storage| > 0 && forall i :: top - 8 * |storage| < i <= top ==> Matches(storage, i, accepted)
  }

  ghost predicate Matches(storage: seq<bv8>, index: int, accepted: set<int>)
    requires |storage| > 0
  {
    BitAt(storage, index) == (index in accepted)
  }

  // The window moves on by one index: its bit is overwritten.
  lemma MovesOn(storage: seq<bv8>, top: int, accepted: set<int>, on: bool)
    requires Remembers(storage, top, accepted) && top + 1 !in accepted
    ensures Remembers(WithBit(storage, top + 1, on), top + 1, if on then accepted + {top + 1} else accepted)
  {
    hide BitAt, WithBit;
    SameSize(storage, top + 1, on);
    var storage', accepted' := WithBit(storage, top + 1, on), if on then accepted + {top + 1} else accepted;
    forall i | top + 1 - 8 * |storage| < i <= top + 1 ensures Matches(storage', i, accepted') {
      WithBitAt(storage, top + 1, on, i);
      assert i <= top ==> Matches(storage, i, accepted);
    }
  }

  lemma SameSize(storage: seq<bv8>, index: int, on: bool)
    requires |storage| > 0
    ensures |WithBit(storage, index, on)| == |storage|
  {
  }

  // An index inside the window is accepted.
  lemma FillsIn(storage: seq<bv8>, top: int, accepted: set<int>, index: int)
    requires Remembers(storage, top, accepted) && top - 8 * |storage| < index <= top
    ensures Remembers(WithBit(storage, index, true), top, accepted + {index})
  {
    hide BitAt, WithBit;
    SameSize(storage, index, true);
    forall i | top - 8 * |storage| < i <= top ensures Matches(WithBit(storage, index, true), i, accepted + {index}) {
      WithBitAt(storage, index, true, i);
      assert Matches(storage, i, accepted);
    }
  }

  lemma FirstIn(storage: seq<bv8>, index: int)
    requires |storage| > 0 && forall b :: 0 <= b < |storage| ==> storage[b] == 0
    ensures Remembers(WithBit(storage, index, true), index, {index})
  {
    hide BitAt, WithBit;
    SameSize(storage, index, true);
    forall i | index - 8 * |storage| < i <= index ensures Matches(WithBit(storage, index, true), i, {index}) {
      WithBitAt(storage, index, true, i);
      ZeroBit(storage, i);
    }
  }

  lemma ZeroBit(storage: seq<bv8>, i: int)
    requires |storage| > 0 && forall b :: 0 <= b < |storage| ==> storage[b] == 0
    ensures !BitAt(storage, i)
  {
    hide ByteOf;
    SetBit(0, 0, i % 8, true);
  }

  class ReplayProtection {
    const range: nat        // mMaxPossibleValue + 1
    const size: nat
    const maxDistanceForward: nat
    ghost const turns: nat  // how often the window fits into the range
    var curMax: nat
    var storage: array?<bv8>
    // Unwrapped: the newest index and all those accepted.
    ghost var top: nat
    ghost var accepted: set<int>

    ghost predicate Fixed() {
      size > 0 && size % 8 == 0 && range == size * turns && turns >= 2 && maxDistanceForward == size / 4
    }

    ghost predicate Valid()
      reads this, storage
    {
      && Fixed()
      && (storage == null ==> accepted == {})
      && (storage != null ==>
            && storage.Length == size / 8 && curMax == top % range
            && top in accepted && (forall i :: i in accepted ==> i <= top)
            && Remembers(storage[..], top, accepted))
    }

    constructor (range: nat, size: nat, ghost turns: nat)
      requires size > 0 && size % 8 == 0 && range == size * turns && turns >= 2
      ensures Valid() && storage == null && this.range == range && this.size == size
    {
      this.range, this.size, this.maxDistanceForward, this.turns := range, size, size / 4, turns;
      curMax, storage, top, accepted := 0, null, 0, {};
    }

    // The bit of a value, which is the bit of every index it may stand for.
    lemma ValueBit(index: nat)
      requires Fixed()
      ensures range > 0 && range >= 2 * size
      ensures ByteOf(index % range, size / 8) == ByteOf(index, size / 8) && index % range % 8 == index % 8
    {
      MulOrder(size, 2, turns);
      assert size == 8 * (size / 8);
      ByteOfValue(index, size / 8, turns);
    }

    function IsSet(value: nat): bool
      requires storage != null && storage.Length > 0
      reads this, storage
    {
      Bit(storage[value / 8 % storage.Length], value % 8)
    }

    method Write(value: nat, on: bool, ghost index: nat)
      requires Fixed() && storage != null && storage.Length == size / 8 && value == index % range
      modifies storage
      ensures storage[..] == WithBit(old(storage[..]), index, on)
    {
      hide ByteOf, WithMask;
      ValueBit(index);
      ByteIs(value, storage.Length);
      var b, shift := value / 8 % storage.Length, value % 8;
      storage[b] := WithMask(storage[b], shift, on);
    }

    // Accepted exactly when the value stands for an index of the window that has not been accepted yet.
    function CanProceed(value: nat): (ok: bool)
      requires Valid() && value < range
      reads this, storage
      ensures storage == null ==> ok
      ensures storage != null ==>
                var index := Attributed(top, range, size, value);
                ok == (index.Some? && index.value !in accepted)
    {
      if storage == null then true
      else
        AttributedBit(value);
        if value == curMax then false
        else if value > curMax then !(value - curMax > maxDistanceForward)
        else if range - curMax + value <= maxDistanceForward then true
        else if curMax - value >= size then false
        else !IsSet(value)
    }

    lemma AttributedBit(value: nat)
      requires Valid() && storage != null && value < range
      ensures
        var d := value - curMax;
        var index := Attributed(top, range, size, value);
        && (index.Some? && index.value > top ==> index.value !in accepted)
        && (index.Some? && index.value <= top ==>
              0 <= index.value && IsSet(value) == (index.value in accepted) && value == index.value % range)
    {
      var index := Attributed(top, range, size, value);
      ValueBit(0);
      if index.Some? && index.value <= top {
        BehindIs(top, range, value);
        ValueBit(index.value);
        BitIs(storage[..], index.value, value);
        assert Matches(storage[..], index.value, accepted);
      }
    }

    // Clears the bits of the values skipped and sets the new one's.
    method SetForward(value: nat, ghost index: nat)
      requires Valid() && storage != null && top < index <= top + size / 4 && value == index % range
      modifies this`curMax, this`top, this`accepted, storage
      ensures Valid() && storage == old(storage)
      ensures top == index && accepted == old(accepted) + {index as int}
    {
      hide BitAt, Remembers, ByteOf, WithBit, Mask;
      ValueBit(0);
      ghost var t := top + 1;
      NextValue(top, range);
      curMax := (curMax + 1) % range;
      while curMax != value
        invariant top < t <= index && curMax == t % range && value == index % range
        invariant storage == old(storage) && Remembers(storage[..], t - 1, accepted)
        invariant accepted == old(accepted) && top == old(top)
        decreases index - t
      {
        NextValue(t, range);
        MovesOn(storage[..], t - 1, accepted, false);
        Write(curMax, false, t);
        curMax := (curMax + 1) % range;
        t := t + 1;
      }
      SameValue(t, index, range);
      MovesOn(storage[..], t - 1, accepted, true);
      Write(curMax, true, t);
      top, accepted := t, accepted + {t as int};
    }

    method Set(value: nat) returns (ok: bool)
      requires Valid() && value < range && CanProceed(value)
      modifies this, storage
      ensures Valid() && ok && storage != null && (storage == old(storage) || fresh(storage))
      // The index the value stands for is new, and from now on it is accepted.
      ensures
        var index := if old(storage) == null then value else Attributed(old(top), range, size, value).value;
        && index !in old(accepted) && accepted == old(accepted) + {index}
        && top == if old(storage) == null || index > old(top) then index else old(top)
    {
      hide BitAt, Remembers, ByteOf, WithBit, Mask;
      ghost var index := Attributed(top, range, size, value);
      if storage == null {
        storage := new bv8[size / 8](_ => 0);
        ByteIs(value, size / 8);
        SmallValue(value, range);
        FirstIn(storage[..], value);
        Write(value, true, value);
        curMax, top, accepted := value, value, {value as int};
        return true;
      }
      AttributedBit(value);
      ValueBit(0);
      if value == curMax {
        return false;
      } else if value > curMax {
        var distance := value - curMax;
        if distance > maxDistanceForward {
          return false;
        }
        AheadIs(top, range, value, index.value);
        SetForward(value, index.value);
        return true;
      } else if range - curMax + value <= maxDistanceForward {
        AheadIs(top, range, value, index.value);
        SetForward(value, index.value);
        return true;
      } else {
        var distance := curMax - value;
        if distance >= size {
          return false;
        }
        FillsIn(storage[..], top, accepted, index.value);
        Write(value, true, index.value);
        accepted := accepted + {index.value};
        return true;
      }
    }
  }

  lemma ByteIs(value: nat, n: nat)
    requires n > 0
    ensures ByteOf(value, n) == value / 8 % n
  {
  }

  lemma BitIs(storage: seq<bv8>, index: nat, value: nat)
    requires |storage| > 0 && ByteOf(value, |storage|) == ByteOf(index, |storage|) && value % 8 == index % 8
    ensures BitAt(storage, index) == Bit(storage[value / 8 % |storage|], value % 8)
  {
  }

  // A value not above that of the newest index, and not ahead across the wrap.
  lemma BehindIs(top: nat, range: nat, value: nat)
    requires range > 0 && value < range && value <= top % range
    ensures top + (value - top % range) >= 0 && (top + (value - top % range)) % range == value
  {
    DivMod(top, range);
    SumWraps(top, range, value, top + (value - top % range), top / range, top % range);
  }

  lemma SmallValue(value: nat, range: nat)
    requires value < range
    ensures value % range == value
  {
  }

  // A value ahead of the newest index, in the same block or in the next.
  lemma AheadIs(top: nat, range: nat, value: nat, index: int)
    requires value < range && (index == top + (value - top % range) || index == top + range + (value - top % range))
    requires index >= 0
    ensures index % range == value
  {
    DivMod(top, range);
    SumWraps(top, range, value, index, top / range, top % range);
  }

  lemma SumWraps(top: nat, range: nat, value: nat, index: int, p: nat, r: nat)
    requires value < range && top == range * p + r
    requires index == top + (value - r) || index == top + range + (value - r)
    ensures index % range == value
  {
    SmallValue(value, range);
    if index == top + (value - r) {
      AddMultiple(value, range, p);
    } else {
      assert range * (p + 1) == range * p + range;
      AddMultiple(value, range, p + 1);
    }
  }

  lemma NextValue(t: nat, range: nat)
    requires range > 0
    ensures (t % range + 1) % range == (t + 1) % range
  {
    DivMod(t, range);
    assert t + 1 == (t % range + 1) + range * (t / range);
    AddMultiple(t % range + 1, range, t / range);
  }

  lemma SameValue(t: nat, index: nat, range: nat)
    requires t <= index < t + range && t % range == index % range
    ensures t == index
  {
    if t < index {
      SameRemainder(t, index, range);
    }
  }
}
