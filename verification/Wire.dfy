// Fixed-width integers and big-endian byte strings (src/byte_buffer.cpp).
module Wire {

  type uint8 = x: int | 0 <= x < 0x100
  type uint16 = x: int | 0 <= x < 0x1_0000
  type uint32 = x: int | 0 <= x < 0x1_0000_0000
  type bytes = seq<uint8>

  datatype Option<+T> = None | Some(value: T)

  // What a parser recognised, and the bytes after it.
  datatype Parsed<+T> = Failed | Parsed(value: T, rest: bytes)

  // C++ integer division truncates toward zero.
  function TruncDiv(a: int, b: int): int
    requires b > 0
  {
    if a >= 0 then a / b else -((-a) / b)
  }

  function Repeat<T>(x: T, n: nat): (r: seq<T>)
    ensures |r| == n
  {
    if n == 0 then [] else [x] + Repeat(x, n - 1)
  }

  lemma {:induction false} RepeatAt<T>(x: T, n: nat)
    ensures forall i :: 0 <= i < n ==> Repeat(x, n)[i] == x
  {
    if n > 0 {
      RepeatAt(x, n - 1);
    }
  }

  lemma {:induction false} RepeatSnoc<T>(x: T, n: nat)
    ensures Repeat(x, n) + [x] == Repeat(x, n + 1)
  {
    if n > 0 {
      RepeatSnoc(x, n - 1);
      assert [x] + Repeat(x, n - 1) + [x] == [x] + (Repeat(x, n - 1) + [x]);
    }
  }

  function WriteU8(v: uint8): bytes { [v] }

  function WriteU16(v: uint16): (r: bytes)
    ensures |r| == 2
  {
    [v / 0x100, v % 0x100]
  }

  function WriteU32(v: uint32): bytes {
    [v / 0x100_0000, v / 0x1_0000 % 0x100, v / 0x100 % 0x100, v % 0x100]
  }

  function ReadU16(b: bytes): uint16
    requires |b| >= 2
  {
    b[0] as int * 0x100 + b[1] as int
  }

  function ReadU32(b: bytes): uint32
    requires |b| >= 4
  {
    b[0] as int * 0x100_0000 + b[1] as int * 0x1_0000 + b[2] as int * 0x100 + b[3] as int
  }

  lemma Assoc(a: bytes, b: bytes, c: bytes)
    ensures (a + b) + c == a + (b + c)
  {
  }

  lemma ReadWriteU16(v: uint16, rest: bytes)
    ensures ReadU16(WriteU16(v) + rest) == v
    ensures (WriteU16(v) + rest)[2..] == rest
  {
  }

  lemma ReadWriteU32(v: uint32, rest: bytes)
    ensures ReadU32(WriteU32(v) + rest) == v
    ensures (WriteU32(v) + rest)[4..] == rest
  {
    assert v / 0x1_0000 == v / 0x100 / 0x100;
    assert v / 0x100_0000 == v / 0x1_0000 / 0x100;
  }

  // Network order: the highest byte first.
  lemma NetworkOrder()
    ensures WriteU16(0x1234) == [0x12, 0x34] && WriteU32(0x1234_5678) == [0x12, 0x34, 0x56, 0x78]
    ensures ReadU16([0x12, 0x34]) == 0x1234 && ReadU32([0x12, 0x34, 0x56, 0x78]) == 0x1234_5678
  {
  }
}
