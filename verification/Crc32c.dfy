// CRC-32c, a byte at a time and eight bytes at a time (src/sctp/sctp_crc32.cpp); RFC 4960 appendix B.
module Crc32c {

  type octets = seq<bv8>

  const POLYNOMIAL: bv32 := 0x82F63B78

  // ----- Bits -----

  function Xor(x: bv32, y: bv32): bv32 { x ^ y }

  predicate Odd(x: bv32) { x & 1 == 1 }

  function Half(x: bv32): bv32 { x >> 1 }

  function Low(x: bv32): bv32 { x & 0xFF }

  function High(x: bv32): bv32 { x & 0xFFFF_FF00 }

  function Rest(x: bv32): bv32 { x >> 8 }

  function Wide(b: bv8): bv32 { b as bv32 }

  function Narrow(x: bv32): bv8 { (x & 0xFF) as bv8 }

  lemma XorLaws(x: bv32, y: bv32, z: bv32)
    ensures Xor(Xor(x, y), z) == Xor(x, Xor(y, z))
    ensures Xor(x, y) == Xor(y, x)
    ensures Xor(x, 0) == x
  {
    hide Xor;
    XorAssociates(x, y, z);
    XorCommutes(x, y);
  }

  lemma XorAssociates(x: bv32, y: bv32, z: bv32)
    ensures Xor(Xor(x, y), z) == Xor(x, Xor(y, z))
  {
  }

  lemma XorCommutes(x: bv32, y: bv32)
    ensures Xor(x, y) == Xor(y, x)
    ensures Xor(x, 0) == x
  {
  }

  lemma XorSwap(a: bv32, b: bv32, c: bv32, d: bv32)
    ensures Xor(Xor(a, b), Xor(c, d)) == Xor(Xor(a, c), Xor(b, d))
  {
    hide Xor;
    XorLaws(a, b, Xor(c, d));
    XorLaws(b, c, d);
    XorLaws(c, b, d);
    XorLaws(a, c, Xor(b, d));
  }

  lemma HalfXor(x: bv32, y: bv32)
    ensures Half(Xor(x, y)) == Xor(Half(x), Half(y))
    ensures Odd(Xor(x, y)) <==> Odd(x) != Odd(y)
  {
  }

  lemma Parts(x: bv32)
    ensures Xor(High(x), Low(x)) == x && Wide(Narrow(x)) == Low(x)
    ensures Low(High(x)) == 0 && Rest(High(x)) == Rest(x)
  {
  }

  // ----- One byte -----

  function Divisor(odd: bool): bv32 { if odd then POLYNOMIAL else 0 }

  // One bit of polynomial division.
  function BitStep(x: bv32): bv32 { Xor(Half(x), Divisor(Odd(x))) }

  function BitSteps(x: bv32, n: nat): bv32 { if n == 0 then x else BitStep(BitSteps(x, n - 1)) }

  function ByteStep(x: bv32): bv32 { BitSteps(x, 8) }

  function Steps(x: bv32, n: nat): bv32 { if n == 0 then x else ByteStep(Steps(x, n - 1)) }

  lemma DivisorXor(a: bool, b: bool)
    ensures Divisor(a != b) == Xor(Divisor(a), Divisor(b))
  {
  }

  lemma BitStepLinear(x: bv32, y: bv32)
    ensures BitStep(Xor(x, y)) == Xor(BitStep(x), BitStep(y))
  {
    hide Xor, Odd, Half, Divisor;
    HalfXor(x, y);
    DivisorXor(Odd(x), Odd(y));
    XorSwap(Half(x), Half(y), Divisor(Odd(x)), Divisor(Odd(y)));
  }

  lemma {:induction false} BitStepsLinear(x: bv32, y: bv32, n: nat)
    ensures BitSteps(Xor(x, y), n) == Xor(BitSteps(x, n), BitSteps(y, n))
  {
    hide Xor, BitStep;
    if n > 0 {
      BitStepsLinear(x, y, n - 1);
      BitStepLinear(BitSteps(x, n - 1), BitSteps(y, n - 1));
    }
  }

  // Division is linear, over any number of bytes.
  lemma {:induction false} StepsLinear(x: bv32, y: bv32, n: nat)
    ensures Steps(Xor(x, y), n) == Xor(Steps(x, n), Steps(y, n))
  {
    hide Xor, BitSteps;
    if n > 0 {
      StepsLinear(x, y, n - 1);
      BitStepsLinear(Steps(x, n - 1), Steps(y, n - 1), 8);
    }
  }

  lemma {:induction false} StepsAdd(x: bv32, m: nat, n: nat)
    ensures Steps(Steps(x, m), n) == Steps(x, m + n)
  {
    hide ByteStep;
    if n > 0 {
      StepsAdd(x, m, n - 1);
    }
  }

  // n halvings.
  function Halved(x: bv32, n: nat): bv32 { if n == 0 then x else Half(Halved(x, n - 1)) }

  lemma EvenStep(x: bv32)
    requires !Odd(x)
    ensures BitStep(x) == Half(x)
  {
    hide Xor, Odd, Half;
    XorLaws(Half(x), 0, 0);
  }

  lemma EvenHalves(x: bv32)
    requires Low(x) == 0
    ensures !Odd(x) && !Odd(x >> 1) && !Odd(x >> 2) && !Odd(x >> 3)
    ensures !Odd(x >> 4) && !Odd(x >> 5) && !Odd(x >> 6) && !Odd(x >> 7)
  {
  }

  lemma HalvedAre(x: bv32)
    ensures Half(x) == x >> 1 && Half(x >> 1) == x >> 2 && Half(x >> 2) == x >> 3 && Half(x >> 3) == x >> 4
    ensures Half(x >> 4) == x >> 5 && Half(x >> 5) == x >> 6 && Half(x >> 6) == x >> 7 && Half(x >> 7) == Rest(x)
  {
  }

  // Eight bits that are all zero only shift.
  lemma ShiftedByte(x: bv32)
    requires Low(x) == 0
    ensures ByteStep(x) == Rest(x)
  {
    hide Xor, Odd, Half, Low, Rest, BitStep;
    EvenHalves(x);
    HalvedAre(x);
    EvenStep(x);
    EvenStep(x >> 1);
    EvenStep(x >> 2);
    EvenStep(x >> 3);
    EvenStep(x >> 4);
    EvenStep(x >> 5);
    EvenStep(x >> 6);
    EvenStep(x >> 7);
    assert BitSteps(x, 1) == x >> 1;
    assert BitSteps(x, 2) == x >> 2;
    assert BitSteps(x, 3) == x >> 3;
    assert BitSteps(x, 4) == x >> 4;
    assert BitSteps(x, 5) == x >> 5;
    assert BitSteps(x, 6) == x >> 6;
    assert BitSteps(x, 7) == x >> 7;
  }

  // Only the lowest byte is divided; the others move down.
  lemma ByteStepParts(c: bv32, x: bv32)
    ensures ByteStep(Xor(c, x)) == Xor(ByteStep(Xor(c, Low(x))), Rest(x))
  {
    hide Xor, Low, High, Rest, BitSteps;
    Parts(x);
    XorLaws(High(x), Low(x), 0);
    XorLaws(c, Low(x), High(x));
    BitStepsLinear(Xor(c, Low(x)), High(x), 8);
    ShiftedByte(High(x));
  }

  // ----- The tables -----

  // Table k of eight: each entry is the one before it taken through one more byte.
  function Table(k: nat, i: bv8): bv32 { Steps(Wide(i), k + 1) }

  lemma ByteByTable(x: bv32)
    ensures ByteStep(x) == Xor(Table(0, Narrow(x)), Rest(x))
  {
    hide Xor, Low, Rest, BitSteps, Wide, Narrow;
    Parts(x);
    XorLaws(0, x, 0);
    XorLaws(x, 0, 0);
    XorLaws(0, Low(x), 0);
    XorLaws(Low(x), 0, 0);
    ByteStepParts(0, x);
    assert Steps(Low(x), 0) == Low(x);
  }

  // The recurrence the tables obey: T(k+1)[i] == (T(k)[i] >> 8) ^ T(0)[T(k)[i] & 0xFF].
  lemma TableNext(k: nat, i: bv8)
    ensures Table(k + 1, i) == Xor(Table(0, Narrow(Table(k, i))), Rest(Table(k, i)))
  {
    hide Xor, Rest, BitSteps, Wide, Narrow;
    ByteByTable(Table(k, i));
  }

  // ----- The byte loop -----

  function Fold(crc: bv32, data: octets): bv32 {
    if data == [] then crc else ByteStep(Xor(Fold(crc, data[..|data| - 1]), Wide(data[|data| - 1])))
  }

  // Pieces computed one after the other give the checksum of the whole.
  lemma {:induction false} FoldAppend(crc: bv32, a: octets, b: octets)
    ensures Fold(crc, a + b) == Fold(Fold(crc, a), b)
  {
    hide ByteStep, Xor, Wide;
    if b == [] {
      assert a + b == a;
    } else {
      FoldAppend(crc, a, b[..|b| - 1]);
      assert (a + b)[..|a + b| - 1] == a + b[..|b| - 1];
    }
  }

  // One turn of the loop looks one byte up in table 0.
  lemma ByteTurn(crc: bv32, b: bv8)
    ensures ByteStep(Xor(crc, Wide(b))) == Xor(Table(0, Narrow(Xor(crc, Wide(b)))), Rest(crc))
  {
    hide ByteStep, Narrow, Table;
    ByteByTable(Xor(crc, Wide(b)));
    RestIgnoresByte(crc, b);
  }

  lemma RestIgnoresByte(crc: bv32, b: bv8)
    ensures Rest(Xor(crc, Wide(b))) == Rest(crc)
  {
  }

  // ----- Four bytes at once -----

  // A little-endian word.
  function Word(b0: bv8, b1: bv8, b2: bv8, b3: bv8): bv32 {
    Wide(b0) | (Wide(b1) << 8) | (Wide(b2) << 16) | (Wide(b3) << 24)
  }

  lemma WordParts(b0: bv8, b1: bv8, b2: bv8, b3: bv8)
    ensures Low(Word(b0, b1, b2, b3)) == Wide(b0) && Rest(Word(b0, b1, b2, b3)) == Word(b1, b2, b3, 0)
  {
  }

  lemma WordZero()
    ensures Word(0, 0, 0, 0) == 0
  {
  }

  lemma WordStep(c: bv32, b0: bv8, b1: bv8, b2: bv8, b3: bv8)
    ensures ByteStep(Xor(c, Word(b0, b1, b2, b3))) == Xor(ByteStep(Xor(c, Wide(b0))), Word(b1, b2, b3, 0))
  {
    hide ByteStep, Xor, Wide, Low, Rest, Word;
    WordParts(b0, b1, b2, b3);
    ByteStepParts(c, Word(b0, b1, b2, b3));
  }

  // Four bytes taken together are the four taken one by one.
  lemma FourBytes(c: bv32, b0: bv8, b1: bv8, b2: bv8, b3: bv8)
    ensures Steps(Xor(c, Word(b0, b1, b2, b3)), 4) == Fold(c, [b0, b1, b2, b3])
  {
    hide ByteStep, Xor, Wide, Word;
    var c1 := ByteStep(Xor(c, Wide(b0)));
    var c2 := ByteStep(Xor(c1, Wide(b1)));
    var c3 := ByteStep(Xor(c2, Wide(b2)));
    var c4 := ByteStep(Xor(c3, Wide(b3)));
    WordStep(c, b0, b1, b2, b3);
    WordStep(c1, b1, b2, b3, 0);
    WordStep(c2, b2, b3, 0, 0);
    WordStep(c3, b3, 0, 0, 0);
    WordZero();
    XorLaws(c4, 0, 0);
    FoldFour(c, b0, b1, b2, b3);
    StepsFour(Xor(c, Word(b0, b1, b2, b3)));
  }

  lemma StepsFour(x: bv32)
    ensures Steps(x, 4) == ByteStep(ByteStep(ByteStep(ByteStep(x))))
  {
    hide ByteStep;
    assert Steps(x, 1) == ByteStep(x);
    assert Steps(x, 2) == ByteStep(ByteStep(x));
  }

  lemma FoldFour(c: bv32, b0: bv8, b1: bv8, b2: bv8, b3: bv8)
    ensures Fold(c, [b0, b1, b2, b3]) ==
      ByteStep(Xor(ByteStep(Xor(ByteStep(Xor(ByteStep(Xor(c, Wide(b0))), Wide(b1))), Wide(b2))), Wide(b3)))
  {
    hide ByteStep, Xor, Wide;
    assert [b0, b1, b2, b3][..3] == [b0, b1, b2] && [b0, b1, b2][..2] == [b0, b1] && [b0, b1][..1] == [b0] && [b0][..0] == [];
    assert Fold(c, []) == c && Fold(c, [b0]) == ByteStep(Xor(c, Wide(b0)));
    assert Fold(c, [b0, b1]) == ByteStep(Xor(ByteStep(Xor(c, Wide(b0))), Wide(b1)));
  }

  // The four table look-ups for one word, from table n + 3 down to table n.
  function Lookups(n: nat, b0: bv8, b1: bv8, b2: bv8, b3: bv8): bv32 {
    Xor(Xor(Xor(Table(n + 3, b0), Table(n + 2, b1)), Table(n + 1, b2)), Table(n, b3))
  }

  // They divide the word by as many bytes.
  lemma LookupsDivide(n: nat, b0: bv8, b1: bv8, b2: bv8, b3: bv8)
    ensures Lookups(n, b0, b1, b2, b3) == Steps(Word(b0, b1, b2, b3), n + 4)
  {
    hide ByteStep, Xor, Wide, Word;
    WordSteps(n + 3, b0, b1, b2, b3);
    WordSteps(n + 2, b1, b2, b3, 0);
    WordSteps(n + 1, b2, b3, 0, 0);
    WordSteps(n, b3, 0, 0, 0);
    WordZero();
    StepsZero(n);
    var t0, t1, t2, t3 := Table(n + 3, b0), Table(n + 2, b1), Table(n + 1, b2), Table(n, b3);
    XorLaws(t3, 0, 0);
    XorLaws(t1, t2, t3);
    XorLaws(t0, t1, Xor(t2, t3));
    XorLaws(Xor(t0, t1), t2, t3);
  }

  lemma {:induction false} StepsZero(n: nat)
    ensures Steps(0, n) == 0
  {
    if n > 0 {
      StepsZero(n - 1);
      ZeroByte();
    }
  }

  lemma ZeroByte()
    ensures ByteStep(0) == 0
  {
    hide BitSteps;
    ShiftedByte(0);
  }

  // A word of which the lowest byte has been looked up.
  lemma WordSteps(n: nat, b0: bv8, b1: bv8, b2: bv8, b3: bv8)
    ensures Steps(Word(b0, b1, b2, b3), n + 1) == Xor(Table(n, b0), Steps(Word(b1, b2, b3, 0), n))
  {
    hide ByteStep, Xor, Wide, Word;
    var w, rest := Word(b0, b1, b2, b3), Word(b1, b2, b3, 0);
    WordStep(0, b0, b1, b2, b3);
    XorLaws(0, w, 0);
    XorLaws(w, 0, 0);
    XorLaws(0, Wide(b0), 0);
    XorLaws(Wide(b0), 0, 0);
    StepsAdd(w, 1, n);
    StepsAdd(Wide(b0), 1, n);
    assert Steps(w, 1) == ByteStep(Steps(w, 0)) == ByteStep(w);
    assert Steps(Wide(b0), 1) == ByteStep(Steps(Wide(b0), 0)) == ByteStep(Wide(b0));
    StepsLinear(ByteStep(Wide(b0)), rest, n);
  }

  // ----- Eight bytes at once -----

  // The bytes of a word, lowest first.
  function ByteOf(x: bv32, k: nat): bv8
    requires k < 4
  {
    Narrow(if k == 0 then x else if k == 1 then x >> 8 else if k == 2 then x >> 16 else x >> 24)
  }

  lemma WordOf(x: bv32)
    ensures Word(ByteOf(x, 0), ByteOf(x, 1), ByteOf(x, 2), ByteOf(x, 3)) == x
  {
  }

  // One turn of the slicing loop, with exact tables.
  function Block(crc: bv32, b: octets): bv32
    requires |b| == 8
  {
    var x := Xor(crc, Word(b[0], b[1], b[2], b[3]));
    Xor(Xor(Xor(Lookups(4, ByteOf(x, 0), ByteOf(x, 1), ByteOf(x, 2), ByteOf(x, 3)),
                Xor(Table(3, b[4]), Table(2, b[5]))),
            Table(1, b[6])),
        Table(0, b[7]))
  }

  // Eight bytes by slicing are eight turns of the byte loop.
  lemma BlockIsFold(crc: bv32, b: octets)
    requires |b| == 8
    ensures Block(crc, b) == Fold(crc, b)
  {
    hide Fold, Steps, Xor, Word, Lookups, Block, ByteOf;
    var x, y := Xor(crc, Word(b[0], b[1], b[2], b[3])), Word(b[4], b[5], b[6], b[7]);
    BlockLookups(crc, b);
    WordOf(x);
    LookupsDivide(4, ByteOf(x, 0), ByteOf(x, 1), ByteOf(x, 2), ByteOf(x, 3));
    LookupsDivide(0, b[4], b[5], b[6], b[7]);
    StepsAdd(x, 4, 4);
    StepsLinear(Steps(x, 4), y, 4);
    FourBytes(crc, b[0], b[1], b[2], b[3]);
    FourBytes(Steps(x, 4), b[4], b[5], b[6], b[7]);
    FoldEight(crc, b);
  }

  lemma BlockLookups(crc: bv32, b: octets)
    requires |b| == 8
    ensures
      var x := Xor(crc, Word(b[0], b[1], b[2], b[3]));
      Block(crc, b) == Xor(Lookups(4, ByteOf(x, 0), ByteOf(x, 1), ByteOf(x, 2), ByteOf(x, 3)),
                           Lookups(0, b[4], b[5], b[6], b[7]))
  {
    hide Xor, Word, Table, ByteOf;
    var x := Xor(crc, Word(b[0], b[1], b[2], b[3]));
    var n0, n1, n2, n3 := ByteOf(x, 0), ByteOf(x, 1), ByteOf(x, 2), ByteOf(x, 3);
    Regroup(Lookups(4, n0, n1, n2, n3), Table(3, b[4]), Table(2, b[5]), Table(1, b[6]), Table(0, b[7]));
  }

  lemma Regroup(high: bv32, t3: bv32, t2: bv32, t1: bv32, t0: bv32)
    ensures Xor(Xor(Xor(high, Xor(t3, t2)), t1), t0) == Xor(high, Xor(Xor(Xor(t3, t2), t1), t0))
  {
    hide Xor;
    XorLaws(high, Xor(t3, t2), t1);
    XorLaws(high, Xor(Xor(t3, t2), t1), t0);
  }

  lemma FoldEight(crc: bv32, b: octets)
    requires |b| == 8
    ensures Fold(crc, b) == Fold(Fold(crc, [b[0], b[1], b[2], b[3]]), [b[4], b[5], b[6], b[7]])
  {
    hide Fold;
    FoldAppend(crc, b[..4], b[4..]);
    assert b[..4] == [b[0], b[1], b[2], b[3]] && b[4..] == [b[4], b[5], b[6], b[7]] && b[..4] + b[4..] == b;
  }

  // ----- The tables as shipped -----

  const BAD_BYTE: bv8 := 0xB5
  const BAD_ENTRY: bv32 := 0x195EC7B9

  // Of the 2048 literals one is not what the recurrence gives: entry 0xB5 of the table for byte 5.
  function Shipped(k: nat, i: bv8): bv32 { if k == 2 && i == BAD_BYTE then BAD_ENTRY else Table(k, i) }

  lemma Unrolled(x: bv32)
    ensures ByteStep(x) == BitStep(BitStep(BitStep(BitStep(BitStep(BitStep(BitStep(BitStep(x))))))))
  {
    hide BitStep;
    assert BitSteps(x, 0) == x;
    assert BitSteps(x, 1) == BitStep(x);
    assert BitSteps(x, 2) == BitStep(BitStep(x));
    assert BitSteps(x, 3) == BitStep(BitStep(BitStep(x)));
    assert BitSteps(x, 4) == BitStep(BitStep(BitStep(BitStep(x))));
    assert BitSteps(x, 5) == BitStep(BitStep(BitStep(BitStep(BitStep(x)))));
    assert BitSteps(x, 6) == BitStep(BitStep(BitStep(BitStep(BitStep(BitStep(x))))));
    assert BitSteps(x, 7) == BitStep(BitStep(BitStep(BitStep(BitStep(BitStep(BitStep(x)))))));
  }

  lemma ThreeBytes()
    ensures ByteStep(0xB5) == 0x87E466D5 && ByteStep(0x87E466D5) == 0xE6A511D1 && ByteStep(0xE6A511D1) == 0x215EC7B9
  {
    hide BitSteps;
    Unrolled(0xB5);
    Unrolled(0x87E466D5);
    Unrolled(0xE6A511D1);
  }

  lemma TrueEntry()
    ensures Table(2, BAD_BYTE) == 0x215EC7B9 != BAD_ENTRY
  {
    hide BitSteps;
    ThreeBytes();
    assert Wide(BAD_BYTE) == 0xB5;
    assert Steps(0xB5, 1) == 0x87E466D5;
    assert Steps(0xB5, 2) == 0xE6A511D1;
  }

  type Tables = (nat, bv8) -> bv32

  // One turn of the slicing loop, with whatever tables.
  function Sliced(t: Tables, crc: bv32, b: octets): bv32
    requires |b| == 8
  {
    var x := Xor(crc, Word(b[0], b[1], b[2], b[3]));
    var high := Xor(Xor(Xor(t(7, ByteOf(x, 0)), t(6, ByteOf(x, 1))), t(5, ByteOf(x, 2))), t(4, ByteOf(x, 3)));
    Xor(Xor(Xor(high, Xor(t(3, b[4]), t(2, b[5]))), t(1, b[6])), t(0, b[7]))
  }

  // Tables built from the first by the recurrence.
  ghost predicate Recurrent(t: Tables) {
    && (forall i: bv8 :: t(0, i) == Table(0, i))
    && (forall k: nat, i: bv8 :: k < 7 ==> FromPrevious(t, k, i))
  }

  ghost predicate FromPrevious(t: Tables, k: nat, i: bv8) {
    t(k + 1, i) == Xor(t(0, Narrow(t(k, i))), Rest(t(k, i)))
  }

  lemma {:induction false} RecurrentExact(t: Tables, k: nat, i: bv8)
    requires Recurrent(t) && k <= 7
    ensures t(k, i) == Table(k, i)
    decreases k
  {
    hide Table, Xor, Rest, Narrow;
    if k > 0 {
      RecurrentExact(t, k - 1, i);
      TableNext(k - 1, i);
      assert FromPrevious(t, k - 1, i);
      assert t(0, Narrow(t(k - 1, i))) == Table(0, Narrow(t(k - 1, i)));
    }
  }

  // With such tables, a turn is eight turns of the byte loop.
  lemma SlicedExact(t: Tables, crc: bv32, b: octets)
    requires |b| == 8 && Recurrent(t)
    ensures Sliced(t, crc, b) == Fold(crc, b)
  {
    hide Recurrent, Table, Xor, Word, ByteOf, Fold;
    var x := Xor(crc, Word(b[0], b[1], b[2], b[3]));
    RecurrentExact(t, 7, ByteOf(x, 0));
    RecurrentExact(t, 6, ByteOf(x, 1));
    RecurrentExact(t, 5, ByteOf(x, 2));
    RecurrentExact(t, 4, ByteOf(x, 3));
    RecurrentExact(t, 3, b[4]);
    RecurrentExact(t, 2, b[5]);
    RecurrentExact(t, 1, b[6]);
    RecurrentExact(t, 0, b[7]);
    BlockIsFold(crc, b);
  }

  // What the wrong entry adds to a block.
  const BAD_DIFFERENCE: bv32 := 0x3800_0000

  function BlockError(b: octets): bv32
    requires |b| == 8
  {
    if b[5] == BAD_BYTE then BAD_DIFFERENCE else 0
  }

  lemma ShippedEntry(i: bv8)
    ensures Shipped(2, i) == Xor(Table(2, i), if i == BAD_BYTE then BAD_DIFFERENCE else 0)
  {
    hide Table;
    TrueEntry();
    XorCommutes(Table(2, i), 0);
  }

  // Adding something to one term adds it to the sum.
  lemma CarryOut(high: bv32, t3: bv32, t2: bv32, e: bv32, t1: bv32, t0: bv32)
    ensures Xor(Xor(Xor(high, Xor(t3, Xor(t2, e))), t1), t0) == Xor(Xor(Xor(Xor(high, Xor(t3, t2)), t1), t0), e)
  {
    hide Xor;
    XorLaws(t3, t2, e);
    XorLaws(high, Xor(t3, t2), e);
    var a := Xor(high, Xor(t3, t2));
    XorLaws(a, e, t1);
    XorLaws(e, t1, 0);
    XorLaws(a, t1, e);
    XorLaws(Xor(a, t1), e, t0);
    XorLaws(e, t0, 0);
    XorLaws(Xor(a, t1), t0, e);
  }

  lemma ShippedBlockIs(crc: bv32, b: octets)
    requires |b| == 8
    ensures Sliced(Shipped, crc, b) == Xor(Fold(crc, b), BlockError(b))
  {
    hide Xor, Word, ByteOf, Fold, Table;
    var x := Xor(crc, Word(b[0], b[1], b[2], b[3]));
    var high := Lookups(4, ByteOf(x, 0), ByteOf(x, 1), ByteOf(x, 2), ByteOf(x, 3));
    ShippedEntry(b[5]);
    CarryOut(high, Table(3, b[4]), Table(2, b[5]), BlockError(b), Table(1, b[6]), Table(0, b[7]));
    BlockIsFold(crc, b);
  }

  lemma XorCancels(x: bv32, y: bv32, z: bv32)
    ensures Xor(x, z) == Xor(y, z) <==> x == y
    ensures Xor(z, x) == Xor(z, y) <==> x == y
  {
  }

  lemma XorSelf(x: bv32, y: bv32)
    ensures Xor(x, y) == 0 <==> x == y
    ensures Xor(x, y) == x <==> y == 0
  {
  }

  // A block is divided right exactly when its byte 5 is not 0xB5.
  lemma ShippedBlockExact(crc: bv32, b: octets)
    requires |b| == 8
    ensures Sliced(Shipped, crc, b) == Fold(crc, b) <==> b[5] != BAD_BYTE
  {
    hide Fold, Xor, Sliced;
    ShippedBlockIs(crc, b);
    XorSelf(Fold(crc, b), BlockError(b));
  }

  // ----- Whole buffers -----

  function SlicedFold(t: Tables, crc: bv32, data: octets): bv32
    requires |data| % 8 == 0
  {
    if data == [] then crc
    else Sliced(t, SlicedFold(t, crc, data[..|data| - 8]), data[|data| - 8..])
  }

  // How many bytes come before the blocks: up to the next multiple of four.
  function InitBytes(misaligned: nat): nat
    requires misaligned < 4
  {
    4 - misaligned
  }

  function BlockBytes(size: nat, init: nat): (n: nat)
    requires init <= size
    ensures n % 8 == 0 && init + n <= size
  {
    (size - init) / 8 * 8
  }

  // Where the blocks end.
  function BlocksEnd(size: nat, misaligned: nat): (n: nat)
    requires misaligned < 4 <= size
    ensures InitBytes(misaligned) <= n <= size && (n - InitBytes(misaligned)) % 8 == 0
  {
    InitBytes(misaligned) + BlockBytes(size, InitBytes(misaligned))
  }

  // What the code computes for a buffer `misaligned` bytes past a multiple of four.
  function Computed(t: Tables, crc: bv32, data: octets, misaligned: nat): bv32
    requires misaligned < 4
  {
    if |data| < 4 then Fold(crc, data)
    else
      var init, end := InitBytes(misaligned), BlocksEnd(|data|, misaligned);
      Fold(SlicedFold(t, Fold(crc, data[..init]), data[init..end]), data[end..])
  }

  method Crc32cUpdate(crc: bv32, data: octets, misaligned: nat) returns (r: bv32)
    requires misaligned < 4
    ensures r == Computed(Shipped, crc, data, misaligned)
  {
    hide Fold, Sliced, SlicedFold, BlockBytes;
    if |data| < 4 {
      r := ByteLoop(crc, data);
      return;
    }
    var initBytes := 4 - misaligned;
    var runningLength := (|data| - initBytes) / 8 * 8;
    BlockBytesIs(|data|, initBytes);
    r := ByteLoop(crc, data[..initBytes]);
    r := BlockLoop(r, data[initBytes..initBytes + runningLength]);
    r := ByteLoop(r, data[initBytes + runningLength..]);
  }

  lemma BlockBytesIs(size: nat, init: nat)
    requires init <= size
    ensures BlockBytes(size, init) == (size - init) / 8 * 8
  {
  }

  method ByteLoop(crc: bv32, data: octets) returns (r: bv32)
    ensures r == Fold(crc, data)
  {
    hide ByteStep, Xor, Narrow, Wide, Rest, Table;
    r := crc;
    for i := 0 to |data|
      invariant r == Fold(crc, data[..i])
    {
      assert data[..i + 1][..i] == data[..i];
      ByteTurn(r, data[i]);
      r := Xor(Table(0, Narrow(Xor(r, Wide(data[i])))), Rest(r));
    }
    assert data[..|data|] == data;
  }

  method BlockTurn(crc: bv32, b: octets) returns (r: bv32)
    requires |b| == 8
    ensures r == Sliced(Shipped, crc, b)
  {
    hide Xor, Word, Table, ByteOf;
    r := Xor(crc, Word(b[0], b[1], b[2], b[3]));
    var term1 := Xor(Table(7, ByteOf(r, 0)), Table(6, ByteOf(r, 1)));
    r := Xor(Xor(term1, Table(5, ByteOf(r, 2))), Table(4, ByteOf(r, 3)));
    term1 := Xor(Table(3, b[4]), Shipped(2, b[5]));
    r := Xor(Xor(Xor(r, term1), Table(1, b[6])), Table(0, b[7]));
  }

  method BlockLoop(crc: bv32, data: octets) returns (r: bv32)
    requires |data| % 8 == 0
    ensures r == SlicedFold(Shipped, crc, data)
  {
    hide Sliced;
    r := crc;
    for i := 0 to |data| / 8
      invariant r == SlicedFold(Shipped, crc, data[..8 * i])
    {
      var b := data[8 * i..8 * i + 8];
      assert data[..8 * (i + 1)][..8 * i] == data[..8 * i] && data[..8 * (i + 1)][8 * i..] == b;
      r := BlockTurn(r, b);
    }
    assert data[..8 * (|data| / 8)] == data;
  }

  // ----- When the result is right -----

  lemma {:induction false} SlicedFoldExact(t: Tables, crc: bv32, data: octets)
    requires |data| % 8 == 0 && Recurrent(t)
    ensures SlicedFold(t, crc, data) == Fold(crc, data)
  {
    hide Fold, Sliced, Recurrent;
    if data == [] {
      FoldNone(crc);
    } else {
      var init, b := data[..|data| - 8], data[|data| - 8..];
      assert init + b == data;
      SlicedFoldExact(t, crc, init);
      SlicedExact(t, Fold(crc, init), b);
      FoldAppend(crc, init, b);
    }
  }

  lemma FoldNone(crc: bv32)
    ensures Fold(crc, []) == crc
  {
  }

  lemma FoldThree(crc: bv32, data: octets, i: nat, j: nat)
    requires i <= j <= |data|
    ensures Fold(Fold(Fold(crc, data[..i]), data[i..j]), data[j..]) == Fold(crc, data)
  {
    hide Fold;
    assert data[..i] + data[i..j] == data[..j] && data[..j] + data[j..] == data;
    FoldAppend(crc, data[..i], data[i..j]);
    FoldAppend(crc, data[..j], data[j..]);
  }

  // Slicing by eight is the byte loop, for every length and alignment, if the tables obey the recurrence.
  lemma ComputedExact(t: Tables, crc: bv32, data: octets, misaligned: nat)
    requires misaligned < 4 && Recurrent(t)
    ensures Computed(t, crc, data, misaligned) == Fold(crc, data)
  {
    hide Fold, SlicedFold, BlocksEnd, Recurrent;
    if |data| >= 4 {
      var init, end := InitBytes(misaligned), BlocksEnd(|data|, misaligned);
      SlicedFoldExact(t, Fold(crc, data[..init]), data[init..end]);
      FoldThree(crc, data, init, end);
    }
  }

  // What the wrong entry adds to the blocks: each bad block's share moves on with the blocks behind it.
  function Error(data: octets): bv32
    requires |data| % 8 == 0
  {
    if data == [] then 0 else Xor(Steps(Error(data[..|data| - 8]), 8), BlockError(data[|data| - 8..]))
  }

  lemma {:induction false} FoldXor(x: bv32, e: bv32, data: octets)
    ensures Fold(Xor(x, e), data) == Xor(Fold(x, data), Steps(e, |data|))
  {
    hide Xor, BitSteps, Wide;
    if data != [] {
      var init, d := data[..|data| - 1], Wide(data[|data| - 1]);
      FoldXor(x, e, init);
      var f, s := Fold(x, init), Steps(e, |init|);
      XorLaws(f, s, d);
      XorLaws(s, d, 0);
      XorLaws(f, d, s);
      BitStepsLinear(Xor(f, d), s, 8);
    }
  }

  lemma {:induction false} ShippedFoldIs(crc: bv32, data: octets)
    requires |data| % 8 == 0
    ensures SlicedFold(Shipped, crc, data) == Xor(Fold(crc, data), Error(data))
  {
    hide Fold, Sliced, Xor, Steps, BlockError;
    if data == [] {
      FoldNone(crc);
      XorLaws(crc, 0, 0);
    } else {
      var init, b := data[..|data| - 8], data[|data| - 8..];
      assert init + b == data;
      ShippedFoldIs(crc, init);
      ShippedBlockIs(Xor(Fold(crc, init), Error(init)), b);
      FoldXor(Fold(crc, init), Error(init), b);
      FoldAppend(crc, init, b);
      XorLaws(Fold(crc, data), Steps(Error(init), 8), BlockError(b));
    }
  }

  // What it adds to the checksum of a buffer.
  function PassError(data: octets, misaligned: nat): bv32
    requires misaligned < 4
  {
    if |data| < 4 then 0
    else
      var end := BlocksEnd(|data|, misaligned);
      Steps(Error(data[InitBytes(misaligned)..end]), |data| - end)
  }

  lemma ComputedIs(crc: bv32, data: octets, misaligned: nat)
    requires misaligned < 4
    ensures Computed(Shipped, crc, data, misaligned) == Xor(Fold(crc, data), PassError(data, misaligned))
  {
    hide Fold, SlicedFold, BlocksEnd, Xor, Error, Steps;
    if |data| < 4 {
      XorLaws(Fold(crc, data), 0, 0);
    } else {
      var init, end := InitBytes(misaligned), BlocksEnd(|data|, misaligned);
      var first := Fold(crc, data[..init]);
      ShippedFoldIs(first, data[init..end]);
      FoldXor(Fold(first, data[init..end]), Error(data[init..end]), data[end..]);
      FoldThree(crc, data, init, end);
    }
  }

  // The checksum of any buffer is right exactly when the errors of its blocks cancel out.
  lemma ComputedExactly(crc: bv32, data: octets, misaligned: nat)
    requires misaligned < 4
    ensures
      Computed(Shipped, crc, data, misaligned) == Fold(crc, data) <==>
      |data| < 4 || Error(data[InitBytes(misaligned)..BlocksEnd(|data|, misaligned)]) == 0
  {
    hide Fold, Computed, BlocksEnd, Xor, Error, Steps;
    ComputedIs(crc, data, misaligned);
    XorSelf(Fold(crc, data), PassError(data, misaligned));
    if |data| >= 4 {
      var end := BlocksEnd(|data|, misaligned);
      StepsNonzero(Error(data[InitBytes(misaligned)..end]), |data| - end);
    }
  }

  lemma BitStepZero(x: bv32)
    ensures BitStep(x) == 0 <==> x == 0
  {
  }

  lemma {:induction false} BitStepsNonzero(x: bv32, n: nat)
    ensures BitSteps(x, n) == 0 <==> x == 0
  {
    hide BitStep;
    if n > 0 {
      BitStepsNonzero(x, n - 1);
      BitStepZero(BitSteps(x, n - 1));
    }
  }

  lemma {:induction false} StepsNonzero(x: bv32, n: nat)
    ensures Steps(x, n) == 0 <==> x == 0
  {
    hide BitSteps;
    if n > 0 {
      StepsNonzero(x, n - 1);
      BitStepsNonzero(Steps(x, n - 1), 8);
    }
  }

  // ----- Buffers without and with one bad block -----

  ghost predicate Clean(data: octets) {
    forall k :: 0 <= k < |data| && k % 8 == 5 ==> data[k] != BAD_BYTE
  }

  lemma {:induction false} CleanError(data: octets)
    requires |data| % 8 == 0 && Clean(data)
    ensures Error(data) == 0
  {
    hide Xor, Steps;
    if data != [] {
      var init, b := data[..|data| - 8], data[|data| - 8..];
      assert b[5] == data[|data| - 3];
      CleanError(init);
      StepsZero(8);
      XorLaws(0, 0, 0);
    }
  }

  lemma {:induction false} ErrorAppend(a: octets, b: octets)
    requires |a| % 8 == 0 && |b| % 8 == 0
    ensures Error(a + b) == Xor(Steps(Error(a), |b|), Error(b))
  {
    hide Xor, Steps, BlockError;
    if b == [] {
      assert a + b == a;
      StepsNone(Error(a));
      XorLaws(Error(a), 0, 0);
    } else {
      var init, last := b[..|b| - 8], b[|b| - 8..];
      ErrorAppend(a, init);
      assert (a + b)[..|a + b| - 8] == a + init && (a + b)[|a + b| - 8..] == last;
      StepsLinear(Steps(Error(a), |init|), Error(init), 8);
      StepsAdd(Error(a), |init|, 8);
      XorLaws(Steps(Error(a), |b|), Steps(Error(init), 8), BlockError(last));
    }
  }

  lemma StepsNone(x: bv32)
    ensures Steps(x, 0) == x
  {
  }

  // A single bad block cannot cancel out.
  lemma OneBadByte(a: octets, b: octets, c: octets)
    requires |a| % 8 == 0 && |b| == 8 && |c| % 8 == 0 && Clean(a) && Clean(c) && b[5] == BAD_BYTE
    ensures Error(a + b + c) != 0
  {
    hide Xor, ByteStep, Clean;
    ErrorAppend(a + b, c);
    ErrorAppend(a, b);
    CleanError(a);
    CleanError(c);
    StepsZero(8);
    OneBlockError(b);
    XorLaws(0, Error(b), 0);
    XorLaws(Error(b), 0, 0);
    XorLaws(Steps(Error(a + b), |c|), 0, 0);
    StepsNonzero(Error(a + b), |c|);
  }

  lemma OneBlockError(b: octets)
    requires |b| == 8
    ensures Error(b) == BlockError(b)
  {
    hide Xor, BlockError, ByteStep;
    assert b[..0] == [] && b[0..] == b;
    StepsZero(8);
    XorLaws(0, BlockError(b), 0);
    XorLaws(BlockError(b), 0, 0);
  }

  // ----- A known checksum -----

  lemma CheckSteps()
    ensures ByteStep(0xFFFF_FFFF ^ 49) == 0x6F0A_661C && ByteStep(0x6F0A_661C ^ 50) == 0x8CAA_3B9F
    ensures ByteStep(0x8CAA_3B9F ^ 51) == 0xEF84_D04D && ByteStep(0xEF84_D04D ^ 52) == 0x09C5_0B11
    ensures ByteStep(0x09C5_0B11 ^ 53) == 0xE72E_DCCA && ByteStep(0xE72E_DCCA ^ 54) == 0xBECA_8E79
    ensures ByteStep(0xBECA_8E79 ^ 55) == 0xEDBD_6815 && ByteStep(0xEDBD_6815 ^ 56) == 0x9F78_7F65
    ensures ByteStep(0x9F78_7F65 ^ 57) == 0x1CF9_6D7C
  {
    hide BitSteps;
    Unrolled(0xFFFF_FFFF ^ 49);
    Unrolled(0x6F0A_661C ^ 50);
    Unrolled(0x8CAA_3B9F ^ 51);
    Unrolled(0xEF84_D04D ^ 52);
    Unrolled(0x09C5_0B11 ^ 53);
    Unrolled(0xE72E_DCCA ^ 54);
    Unrolled(0xBECA_8E79 ^ 55);
    Unrolled(0xEDBD_6815 ^ 56);
    Unrolled(0x9F78_7F65 ^ 57);
  }

  lemma FoldOne(crc: bv32, b: bv8)
    ensures Fold(crc, [b]) == ByteStep(Xor(crc, Wide(b)))
  {
    hide BitSteps, Xor, Wide;
    assert [b][..0] == [] && Fold(crc, []) == crc;
  }

  lemma WideIs()
    ensures Wide(49) == 49 && Wide(50) == 50 && Wide(51) == 51 && Wide(52) == 52 && Wide(53) == 53
    ensures Wide(54) == 54 && Wide(55) == 55 && Wide(56) == 56 && Wide(57) == 57
  {
  }

  // The check value of CRC-32c: the checksum of the nine characters "123456789" is 0xE3069283.
  lemma CheckValue()
    ensures Xor(Fold(0xFFFF_FFFF, [49, 50, 51, 52, 53, 54, 55, 56, 57]), 0xFFFF_FFFF) == 0xE306_9283
  {
    hide BitSteps, Wide;
    CheckSteps();
    WideIs();
    FoldFour(0xFFFF_FFFF, 49, 50, 51, 52);
    FoldFour(0x09C5_0B11, 53, 54, 55, 56);
    FoldOne(0x9F78_7F65, 57);
    var a: octets, b: octets := [49, 50, 51, 52], [53, 54, 55, 56];
    FoldAppend(0xFFFF_FFFF, a, b);
    FoldAppend(0xFFFF_FFFF, a + b, [57]);
    assert a + b + [57] == [49, 50, 51, 52, 53, 54, 55, 56, 57];
  }
}
