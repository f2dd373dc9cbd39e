// RTP header extensions (src/rtp_extension.cpp, src/rtp_extension_builder.cpp); sections 4.2 and 4.3 of
// RFC 8285.
module RtpExtensions {
  import opened Wire

  const ONE_BYTE: uint16 := 0xBEDE
  const TWO_BYTE: uint16 := 0x1000

  datatype Extension = Extension(id: uint16, data: bytes)

  const NONE: Extension := Extension(0, [])

  predicate IsValidId(id: uint16) { id == ONE_BYTE || id / 0x10 == TWO_BYTE / 0x10 }

  predicate Empty(e: Extension) { e.id == 0 || e.data == [] }

  // In bytes, with the header and rounded up to words.
  function Size(e: Extension): nat { if Empty(e) then 0 else 2 + 2 + 4 * ((|e.data| + 3) / 4) }

  // ----- Elements -----

  datatype Element = Element(id: uint8, value: bytes)

  // What an element of an extension with this id can be.
  predicate ElementOk(extId: uint16, e: Element) {
    if extId == ONE_BYTE then e.id < 15 && 1 <= |e.value| <= 16 && (e.id > 0 || |e.value| > 1)
    else e.id != 0 && |e.value| < 0x100
  }

  function Encode(extId: uint16, e: Element): bytes
    requires ElementOk(extId, e)
  {
    (if extId == ONE_BYTE then [e.id * 0x10 + (|e.value| - 1)] else [e.id, |e.value|]) + e.value
  }

  ghost predicate AllOk(extId: uint16, es: seq<Element>) { forall k :: 0 <= k < |es| ==> ElementOk(extId, es[k]) }

  ghost function EncodeAll(extId: uint16, es: seq<Element>): bytes
    requires AllOk(extId, es)
  {
    if es == [] then [] else Encode(extId, es[0]) + EncodeAll(extId, es[1..])
  }

  function NextElement(extId: uint16, b: bytes): (r: Parsed<Element>)
    ensures r.Parsed? ==> |r.rest| < |b|
  {
    if !IsValidId(extId) then Failed
    else if extId == ONE_BYTE then
      if |b| < 1 || b[0] == 0 || b[0] / 0x10 == 15 || |b| - 1 < b[0] as int % 0x10 + 1 then Failed
      else
        var n := 1 + b[0] as int % 0x10 + 1;
        Parsed(Element(b[0] / 0x10, b[1..n]), b[n..])
    else if |b| < 2 || b[0] == 0 || |b| - 2 < b[1] as int then Failed
    else
      var n := 2 + b[1] as int;
      Parsed(Element(b[0], b[2..n]), b[n..])
  }

  // The elements, and the bytes at which reading them stops.
  function Scan(extId: uint16, b: bytes): (seq<Element>, bytes)
    decreases |b|
  {
    match NextElement(extId, b)
    case Failed => ([], b)
    case Parsed(e, rest) =>
      var more := Scan(extId, rest);
      ([e] + more.0, more.1)
  }

  // Made of elements to the last byte.
  predicate WellFormed(extId: uint16, b: bytes) { Scan(extId, b).1 == [] }

  lemma NextInverse(extId: uint16, e: Element, rest: bytes)
    requires IsValidId(extId) && ElementOk(extId, e)
    ensures NextElement(extId, Encode(extId, e) + rest) == Parsed(e, rest)
  {
    var b := Encode(extId, e) + rest;
    if extId == ONE_BYTE {
      assert b[1..1 + |e.value|] == e.value && b[1 + |e.value|..] == rest;
    } else {
      assert b[2..2 + |e.value|] == e.value && b[2 + |e.value|..] == rest;
    }
  }

  lemma NextOnly(extId: uint16, b: bytes)
    ensures
      var r := NextElement(extId, b);
      r.Parsed? ==> ElementOk(extId, r.value) && b == Encode(extId, r.value) + r.rest
  {
  }

  lemma AllOkCons(extId: uint16, e: Element, es: seq<Element>)
    requires ElementOk(extId, e) && AllOk(extId, es)
    ensures AllOk(extId, [e] + es) && EncodeAll(extId, [e] + es) == Encode(extId, e) + EncodeAll(extId, es)
  {
    assert ([e] + es)[1..] == es;
  }

  // Scanning splits the bytes into the encodings of its elements and the rest, at which no element starts.
  lemma {:induction false} ScanSplits(extId: uint16, b: bytes)
    ensures
      var r := Scan(extId, b);
      AllOk(extId, r.0) && b == EncodeAll(extId, r.0) + r.1 && NextElement(extId, r.1).Failed?
    decreases |b|
  {
    hide NextElement, Encode, ElementOk;
    var next := NextElement(extId, b);
    if next.Parsed? {
      NextOnly(extId, b);
      ScanSplits(extId, next.rest);
      AllOkCons(extId, next.value, Scan(extId, next.rest).0);
      Assoc(Encode(extId, next.value), EncodeAll(extId, Scan(extId, next.rest).0), Scan(extId, next.rest).1);
    } else {
      assert [] + b == b;
    }
  }

  // And this is the only way to split them.
  lemma {:induction false} ScanUnique(extId: uint16, es: seq<Element>, tail: bytes)
    requires IsValidId(extId) && AllOk(extId, es) && NextElement(extId, tail).Failed?
    ensures Scan(extId, EncodeAll(extId, es) + tail) == (es, tail)
    decreases |es|
  {
    hide NextElement, Encode, ElementOk;
    if es == [] {
      assert [] + tail == tail;
    } else {
      Assoc(Encode(extId, es[0]), EncodeAll(extId, es[1..]), tail);
      NextInverse(extId, es[0], EncodeAll(extId, es[1..]) + tail);
      ScanUnique(extId, es[1..], tail);
      assert [es[0]] + es[1..] == es;
    }
  }

  // A zero between elements ends the list: what follows it is not read.
  lemma PaddingEndsList(extId: uint16, es: seq<Element>, more: bytes)
    requires IsValidId(extId) && AllOk(extId, es)
    ensures Scan(extId, EncodeAll(extId, es) + ([0] + more)) == (es, [0] + more)
  {
    hide Encode, ElementOk;
    ScanUnique(extId, es, [0] + more);
  }

  // More elements behind.
  lemma {:induction false} ScanAfter(extId: uint16, es: seq<Element>, rest: bytes)
    requires IsValidId(extId) && AllOk(extId, es)
    ensures Scan(extId, EncodeAll(extId, es) + rest) == (es + Scan(extId, rest).0, Scan(extId, rest).1)
    decreases |es|
  {
    hide NextElement, Encode, ElementOk;
    if es == [] {
      assert [] + rest == rest && [] + Scan(extId, rest).0 == Scan(extId, rest).0;
    } else {
      Assoc(Encode(extId, es[0]), EncodeAll(extId, es[1..]), rest);
      NextInverse(extId, es[0], EncodeAll(extId, es[1..]) + rest);
      ScanAfter(extId, es[1..], rest);
      assert [es[0]] + (es[1..] + Scan(extId, rest).0) == es + Scan(extId, rest).0;
    }
  }

  // ----- Padding -----

  function Trimmed(extId: uint16, b: bytes): bytes
  {
    var tail := Scan(extId, b).1;
    if |tail| <= |b| then b[..|b| - |tail|] else []
  }

  lemma TrimmedIs(extId: uint16, b: bytes)
    ensures AllOk(extId, Scan(extId, b).0) && Trimmed(extId, b) == EncodeAll(extId, Scan(extId, b).0)
  {
    hide NextElement, Encode, ElementOk;
    ScanSplits(extId, b);
  }

  function Zeros(n: nat): bytes { Repeat(0, n) }

  lemma ZerosFail(extId: uint16, n: nat)
    ensures NextElement(extId, Zeros(n)).Failed?
  {
    RepeatAt<uint8>(0, n);
  }

  // Trimming undoes padding with zeros exactly for data made of elements to the last byte.
  lemma TrimExact(extId: uint16, data: bytes, n: nat)
    requires IsValidId(extId)
    ensures Trimmed(extId, data + Zeros(n)) == data <==> WellFormed(extId, data)
  {
    hide NextElement, Encode, ElementOk, Zeros;
    ZerosFail(extId, n);
    ZerosFail(extId, 0);
    assert Zeros(0) == [] by { EmptyZeros(); }
    TrimmedIs(extId, data + Zeros(n));
    var es := Scan(extId, data + Zeros(n)).0;
    if WellFormed(extId, data) {
      ScanSplits(extId, data);
      var own := Scan(extId, data).0;
      assert data == EncodeAll(extId, own) + [] == EncodeAll(extId, own);
      ScanUnique(extId, own, Zeros(n));
    }
    if EncodeAll(extId, es) == data {
      ScanUnique(extId, es, []);
      assert data + [] == data;
    }
  }

  lemma EmptyZeros()
    ensures Zeros(0) == []
  {
  }

  // ----- Finding and replacing -----

  // The value of the first element with this id.
  function Find(es: seq<Element>, id: uint8): Option<bytes> {
    if es == [] then None else if es[0].id == id then Some(es[0].value) else Find(es[1..], id)
  }

  function FindU16(es: seq<Element>, id: uint8): Option<nat> {
    match Find(es, id)
    case None => None
    case Some(v) => if |v| >= 2 then Some(ReadU16(v)) else None
  }

  // The first element with this id gets the value, or a new one behind.
  function Replaced(es: seq<Element>, id: uint8, value: bytes): seq<Element> {
    if es == [] then [Element(id, value)]
    else if es[0].id == id then [Element(id, value)] + es[1..]
    else [es[0]] + Replaced(es[1..], id, value)
  }

  // The value is found, every other id keeps its first value, and no other element moves or changes.
  lemma {:induction false} ReplacedExact(es: seq<Element>, id: uint8, value: bytes, other: uint8)
    ensures
      var r := Replaced(es, id, value);
      && Find(r, id) == Some(value) && (other != id ==> Find(r, other) == Find(es, other))
      && |r| == (if Find(es, id).Some? then |es| else |es| + 1)
      && (forall k :: 0 <= k < |es| && es[k].id != id ==> r[k] == es[k])
    decreases |es|
  {
    if es != [] && es[0].id != id {
      ReplacedExact(es[1..], id, value, other);
      var r := Replaced(es, id, value);
      assert r[1..] == Replaced(es[1..], id, value);
      forall k | 0 <= k < |es| && es[k].id != id ensures r[k] == es[k] {
        if k > 0 {
          assert es[1..][k - 1] == es[k] && r[1..][k - 1] == r[k];
        }
      }
    } else if es != [] {
      assert Replaced(es, id, value)[1..] == es[1..];
    }
  }

  // A 16-bit value is read back, and those of other ids are what they were.
  lemma ReplacedU16(es: seq<Element>, id: uint8, value: uint16, other: uint8)
    ensures
      var r := Replaced(es, id, WriteU16(value));
      FindU16(r, id) == Some(value) && (other != id ==> FindU16(r, other) == FindU16(es, other))
  {
    hide Replaced, WriteU16, ReadU16;
    ReplacedExact(es, id, WriteU16(value), other);
    ReadWriteU16(value, []);
    assert WriteU16(value) + [] == WriteU16(value);
  }
}
