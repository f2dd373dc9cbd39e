// The extension objects (src/rtp_extension.cpp, src/rtp_extension_builder.cpp).
module RtpBuilder {
  import opened Wire
  import opened RtpExtensions

  class RtpExtension {
    var id: uint16
    var data: bytes

    constructor (id: uint16, data: bytes)
      ensures this.id == id && this.data == data
    {
      this.id, this.data := id, data;
    }

    function ToExtension(): Extension reads this { Extension(id, data) }

    method TrimPadding()
      modifies this`data
      ensures data == if Empty(old(ToExtension())) then old(data) else Trimmed(id, old(data))
    {
      hide NextElement;
      if id == 0 || data == [] {
        return;
      }
      var rest, end := data, 0;
      var next := NextElement(id, rest);
      while next.Parsed?
        invariant next == NextElement(id, rest) && Scan(id, rest).1 == Scan(id, data).1
        invariant |rest| <= |data| && end == |data| - |rest|
        decreases |rest|
      {
        rest := next.rest;
        end := |data| - |rest|;
        next := NextElement(id, rest);
      }
      data := data[..end];
    }

    method FindAny(nExtId: uint8) returns (value: Option<bytes>)
      ensures value == if Empty(ToExtension()) then None else Find(Scan(id, data).0, nExtId)
    {
      hide NextElement;
      if id != 0 && data != [] {
        var rest := data;
        var next := NextElement(id, rest);
        while next.Parsed?
          invariant next == NextElement(id, rest) && Find(Scan(id, rest).0, nExtId) == Find(Scan(id, data).0, nExtId)
          decreases |rest|
        {
          ghost var more := Scan(id, next.rest);
          assert ([next.value] + more.0)[1..] == more.0;
          if next.value.id == nExtId {
            return Some(next.value.value);
          }
          rest := next.rest;
          next := NextElement(id, rest);
        }
      }
      return None;
    }

    method FindU16(nExtId: uint8) returns (value: Option<nat>)
      ensures value == if Empty(ToExtension()) then None else RtpExtensions.FindU16(Scan(id, data).0, nExtId)
    {
      var any := FindAny(nExtId);
      if any.Some? && |any.value| >= 2 {
        return Some(ReadU16(any.value));
      }
      return None;
    }
  }

  class RtpExtensionBuilder {
    var buf: bytes

    ghost predicate Valid() reads this { WellFormed(TWO_BYTE, buf) }

    ghost function Elements(): seq<Element> reads this { Scan(TWO_BYTE, buf).0 }

    constructor ()
      ensures Valid() && Elements() == []
    {
      buf := [];
    }

    constructor From(e: Extension)
      ensures buf == if Empty(e) then [] else e.data
    {
      buf := if Empty(e) then [] else e.data;
    }

    method AddStringValue(id: uint8, value: bytes)
      requires Valid() && id != 0
      modifies this
      ensures Valid() && Elements() == old(Elements()) + [Element(id, value[..Shorter(255, |value|)])]
    {
      hide Scan, Encode;
      var len := Shorter(255, |value|);
      AppendElement(buf, Element(id, value[..len]));
      buf := buf + ([id, len] + value[..len]);
    }

    // The length says at most 255, but every byte goes in: the rest is read as further elements.
    method AddBinaryValue(id: uint8, value: bytes)
      requires Valid() && id != 0
      modifies this
      ensures
        var len := Shorter(255, |value|);
        var rest := Scan(TWO_BYTE, value[len..]);
        && Elements() == old(Elements()) + [Element(id, value[..len])] + rest.0
        && (Valid() <==> rest.1 == [])
    {
      hide Scan, Encode;
      var len := Shorter(255, |value|);
      AppendBytes(buf, Element(id, value[..len]), value[len..]);
      assert value == value[..len] + value[len..];
      assert buf + ([id, len] + value) == buf + ([id, len] + value[..len]) + value[len..];
      buf := buf + ([id, len] + value);
    }

    method AddU16Value(id: uint8, value: uint16)
      requires Valid() && id != 0
      modifies this
      ensures Valid() && Elements() == old(Elements()) + [Element(id, WriteU16(value))]
    {
      hide Scan, Encode, WriteU16;
      AppendElement(buf, Element(id, WriteU16(value)));
      buf := buf + ([id, 2] + WriteU16(value));
    }

    // The element that is replaced must have two bytes.
    method AddOrReplaceU16Value(id: uint8, value: uint16)
      requires Valid() && id != 0
      requires Find(Elements(), id).Some? ==> |Find(Elements(), id).value| == 2
      modifies this
      ensures Valid() && Elements() == Replaced(old(Elements()), id, WriteU16(value))
    {
      hide Scan, WriteU16, EncodeAll;
      var pos := 0;
      ghost var es, done := Elements(), [];
      EncodedNone(buf);
      while |buf| - pos > 2
        invariant pos <= |buf| && buf == old(buf) && es == old(Elements()) && At(buf, pos, done, id, es)
        decreases |buf| - pos
      {
        var extensionId, extensionLen := buf[pos], buf[pos + 1] as int;
        AtNext(buf, pos, done, id, es);
        if extensionId == id {
          PutValue(buf, pos, done, id, es, value);
          buf := buf[pos + 2 := value / 0x100][pos + 3 := value % 0x100];
          return;
        }
        done := done + [Element(extensionId, buf[pos + 2..pos + 2 + extensionLen])];
        pos := pos + 2 + extensionLen;
      }
      AtEnd(buf, pos, done, id, es, WriteU16(value));
      AddU16Value(id, value);
    }

    method Contains(id: uint8) returns (found: bool)
      requires Valid()
      ensures found == Listed(Elements(), id)
    {
      hide Scan;
      var pos := 0;
      assert buf[0..] == buf;
      while |buf| - pos > 2
        invariant pos <= |buf| && WellFormed(TWO_BYTE, buf[pos..])
        invariant Listed(Scan(TWO_BYTE, buf[pos..]).0, id) == Listed(Elements(), id)
        decreases |buf| - pos
      {
        ListedNext(buf, pos, id);
        if buf[pos] == id {
          return true;
        }
        pos := pos + 2 + buf[pos + 1] as int;
      }
      ListedShort(buf[pos..], id);
      return false;
    }

    method Build() returns (e: Extension)
      modifies this
      ensures e == (if old(buf) == [] then NONE else Extension(TWO_BYTE, old(buf))) && buf == []
    {
      if buf == [] {
        return NONE;
      }
      e := Extension(TWO_BYTE, buf);
      buf := [];
    }
  }

  function Shorter(a: nat, b: nat): nat { if a < b then a else b }

  // ----- Appending -----

  lemma AppendBytes(buf: bytes, e: Element, rest: bytes)
    requires WellFormed(TWO_BYTE, buf) && ElementOk(TWO_BYTE, e)
    ensures
      var r := Scan(TWO_BYTE, buf + ([e.id, |e.value|] + e.value) + rest);
      r == (Scan(TWO_BYTE, buf).0 + [e] + Scan(TWO_BYTE, rest).0, Scan(TWO_BYTE, rest).1)
  {
    hide Scan, EncodeAll;
    var es := Scan(TWO_BYTE, buf).0;
    ScanSplits(TWO_BYTE, buf);
    assert buf == EncodeAll(TWO_BYTE, es) + [] == EncodeAll(TWO_BYTE, es);
    var one: bytes := [e.id, |e.value|] + e.value;
    assert buf + one + rest == EncodeAll(TWO_BYTE, es) + (one + rest);
    ScanAfter(TWO_BYTE, es, one + rest);
    ScanOne(e, rest);
    assert es + ([e] + Scan(TWO_BYTE, rest).0) == es + [e] + Scan(TWO_BYTE, rest).0;
  }

  lemma ScanOne(e: Element, rest: bytes)
    requires ElementOk(TWO_BYTE, e)
    ensures Scan(TWO_BYTE, [e.id, |e.value|] + e.value + rest) == ([e] + Scan(TWO_BYTE, rest).0, Scan(TWO_BYTE, rest).1)
  {
    hide NextElement;
    NextInverse(TWO_BYTE, e, rest);
  }

  lemma AppendElement(buf: bytes, e: Element)
    requires WellFormed(TWO_BYTE, buf) && ElementOk(TWO_BYTE, e)
    ensures Scan(TWO_BYTE, buf + ([e.id, |e.value|] + e.value)) == (Scan(TWO_BYTE, buf).0 + [e], [])
  {
    hide ElementOk;
    AppendBytes(buf, e, []);
    var all, es := buf + ([e.id, |e.value|] + e.value), Scan(TWO_BYTE, buf).0 + [e];
    assert all + [] == all && es + [] == es;
  }

  // ----- Replacing -----

  // `done` are the elements before the cursor; none has the id.
  ghost predicate At(buf: bytes, pos: nat, done: seq<Element>, id: uint8, es: seq<Element>) {
    && pos <= |buf| && AllOk(TWO_BYTE, done) && buf[..pos] == EncodeAll(TWO_BYTE, done)
    && WellFormed(TWO_BYTE, buf[pos..]) && es == done + Scan(TWO_BYTE, buf[pos..]).0
    && (forall k :: 0 <= k < |done| ==> done[k].id != id)
  }

  lemma EncodedNone(buf: bytes)
    requires WellFormed(TWO_BYTE, buf)
    ensures forall id: uint8 :: At(buf, 0, [], id, Scan(TWO_BYTE, buf).0)
  {
    hide Scan;
    assert buf[0..] == buf && [] + Scan(TWO_BYTE, buf).0 == Scan(TWO_BYTE, buf).0;
  }

  // The next element of well-formed bytes.
  lemma NextThere(b: bytes)
    requires WellFormed(TWO_BYTE, b) && |b| > 0
    ensures |b| >= 2 && b[0] != 0 && 2 + b[1] as int <= |b|
    ensures
      var rest := b[2 + b[1] as int..];
      && WellFormed(TWO_BYTE, rest)
      && Scan(TWO_BYTE, b).0 == [Element(b[0], b[2..2 + b[1] as int])] + Scan(TWO_BYTE, rest).0
  {
  }

  lemma {:induction false} EncodeAllSnoc(es: seq<Element>, e: Element)
    requires AllOk(TWO_BYTE, es) && ElementOk(TWO_BYTE, e)
    ensures AllOk(TWO_BYTE, es + [e]) && EncodeAll(TWO_BYTE, es + [e]) == EncodeAll(TWO_BYTE, es) + Encode(TWO_BYTE, e)
    decreases |es|
  {
    hide Encode, ElementOk;
    if es == [] {
      assert [] + [e] == [e] && [e][1..] == [];
    } else {
      EncodeAllSnoc(es[1..], e);
      assert (es + [e])[1..] == es[1..] + [e];
      Assoc(Encode(TWO_BYTE, es[0]), EncodeAll(TWO_BYTE, es[1..]), Encode(TWO_BYTE, e));
    }
  }

  lemma AtNext(buf: bytes, pos: nat, done: seq<Element>, id: uint8, es: seq<Element>)
    requires At(buf, pos, done, id, es) && |buf| - pos > 0
    ensures |buf| - pos >= 2 && pos + 2 + buf[pos + 1] as int <= |buf|
    ensures
      var next := pos + 2 + buf[pos + 1] as int;
      var e := Element(buf[pos], buf[pos + 2..next]);
      && e.id != 0 && ElementOk(TWO_BYTE, e)
      && es == done + ([e] + Scan(TWO_BYTE, buf[next..]).0) && WellFormed(TWO_BYTE, buf[next..])
      && (e.id != id ==> At(buf, next, done + [e], id, es))
  {
    hide Scan, EncodeAll;
    var b := buf[pos..];
    NextThere(b);
    var next := pos + 2 + buf[pos + 1] as int;
    var e := Element(buf[pos], buf[pos + 2..next]);
    assert b[2..2 + b[1] as int] == buf[pos + 2..next] && b[2 + b[1] as int..] == buf[next..];
    EncodeAllSnoc(done, e);
    assert buf[..next] == buf[..pos] + ([buf[pos], buf[pos + 1]] + buf[pos + 2..next]);
    assert done + ([e] + Scan(TWO_BYTE, buf[next..]).0) == done + [e] + Scan(TWO_BYTE, buf[next..]).0;
  }

  lemma {:induction false} ReplacedBehind(done: seq<Element>, es: seq<Element>, id: uint8, value: bytes)
    requires forall k :: 0 <= k < |done| ==> done[k].id != id
    ensures Replaced(done + es, id, value) == done + Replaced(es, id, value) && Find(done + es, id) == Find(es, id)
    decreases |done|
  {
    if done == [] {
      assert [] + es == es && [] + Replaced(es, id, value) == Replaced(es, id, value);
    } else {
      ReplacedBehind(done[1..], es, id, value);
      assert (done + es)[1..] == done[1..] + es;
      assert [done[0]] + (done[1..] + Replaced(es, id, value)) == done + Replaced(es, id, value);
    }
  }

  lemma PutValue(buf: bytes, pos: nat, done: seq<Element>, id: uint8, es: seq<Element>, value: uint16)
    requires At(buf, pos, done, id, es) && |buf| - pos > 0 && buf[pos] == id
    requires Find(es, id).Some? ==> |Find(es, id).value| == 2
    ensures pos + 4 <= |buf|
    ensures Scan(TWO_BYTE, buf[pos + 2 := value / 0x100][pos + 3 := value % 0x100]) == (Replaced(es, id, WriteU16(value)), [])
  {
    hide Scan, EncodeAll;
    AtNext(buf, pos, done, id, es);
    var next := pos + 2 + buf[pos + 1] as int;
    var old_, e, rest := Element(id, buf[pos + 2..next]), Element(id, WriteU16(value)), buf[next..];
    var behind := [old_] + Scan(TWO_BYTE, rest).0;
    ReplacedBehind(done, behind, id, e.value);
    assert behind[1..] == Scan(TWO_BYTE, rest).0;
    assert |old_.value| == 2;
    var buf' := buf[pos + 2 := value / 0x100][pos + 3 := value % 0x100];
    assert buf' == EncodeAll(TWO_BYTE, done) + ([e.id, |e.value|] + e.value + rest);
    ScanAfter(TWO_BYTE, done, [e.id, |e.value|] + e.value + rest);
    ScanOne(e, rest);
  }

  lemma AtEnd(buf: bytes, pos: nat, done: seq<Element>, id: uint8, es: seq<Element>, value: bytes)
    requires At(buf, pos, done, id, es) && |buf| - pos <= 2
    requires Find(es, id).Some? ==> |Find(es, id).value| == 2
    ensures Replaced(es, id, value) == es + [Element(id, value)]
  {
    hide EncodeAll;
    var rest := Scan(TWO_BYTE, buf[pos..]).0;
    if pos < |buf| {
      AtNext(buf, pos, done, id, es);
      assert buf[|buf|..] == [];
    }
    ReplacedBehind(done, rest, id, value);
    if rest != [] {
      assert rest[1..] == [];
      assert rest[0].id != id;
    }
  }

  // ----- Listed ids -----

  // An id in the list; an empty last element is not looked at.
  function Listed(es: seq<Element>, id: uint8): bool {
    es != [] && ((es[0].id == id && !(|es| == 1 && es[0].value == [])) || Listed(es[1..], id))
  }

  lemma {:induction false} ListedExact(es: seq<Element>, id: uint8)
    ensures Listed(es, id) <==> exists k :: 0 <= k < |es| && es[k].id == id && !(k == |es| - 1 && es[k].value == [])
    decreases |es|
  {
    if es != [] {
      ListedExact(es[1..], id);
      var rest := es[1..];
      if Listed(rest, id) {
        var k :| 0 <= k < |rest| && rest[k].id == id && !(k == |rest| - 1 && rest[k].value == []);
        assert es[k + 1] == rest[k];
      }
      forall k | 0 < k < |es| && es[k].id == id && !(k == |es| - 1 && es[k].value == []) ensures Listed(rest, id) {
        assert rest[k - 1] == es[k];
      }
    }
  }

  lemma ListedNext(buf: bytes, pos: nat, id: uint8)
    requires pos <= |buf| && |buf| - pos > 2 && WellFormed(TWO_BYTE, buf[pos..])
    ensures
      var next := pos + 2 + buf[pos + 1] as int;
      && next <= |buf| && WellFormed(TWO_BYTE, buf[next..])
      && Listed(Scan(TWO_BYTE, buf[pos..]).0, id) == (buf[pos] == id || Listed(Scan(TWO_BYTE, buf[next..]).0, id))
  {
    hide Scan;
    var b := buf[pos..];
    NextThere(b);
    var next := pos + 2 + buf[pos + 1] as int;
    assert b[2 + b[1] as int..] == buf[next..];
    var es, more := Scan(TWO_BYTE, b).0, Scan(TWO_BYTE, buf[next..]).0;
    assert es[1..] == more;
    if |es| == 1 && es[0].value == [] {
      NoneLeft(buf[next..]);
    }
  }

  lemma NoneLeft(b: bytes)
    requires WellFormed(TWO_BYTE, b) && Scan(TWO_BYTE, b).0 == []
    ensures b == []
  {
  }

  lemma ListedShort(b: bytes, id: uint8)
    requires WellFormed(TWO_BYTE, b) && |b| <= 2
    ensures !Listed(Scan(TWO_BYTE, b).0, id)
  {
    if b != [] {
      NextThere(b);
      assert b[2..] == [] && b[2..2] == [];
    }
  }
}
