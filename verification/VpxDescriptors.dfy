// The payload descriptors of VP8 and VP9 (src/depacketizer_vp8.cpp, src/codec_vp9.cpp); section 4.2 of
// RFC 7741 and section 4 of RFC 9628. The grammar is written as descriptors with an encoding; the parsers
// return the descriptor they recognised and the bytes after it.
module VpxDescriptors {
  import opened Wire

  function Bit(b: uint8, weight: nat): bool
    requires weight > 0
  {
    b / weight % 2 == 1
  }

  function Flag(on: bool, weight: nat): nat { if on then weight else 0 }

  // ----- Optional bytes and picture ids -----

  function EncodeByte(o: Option<uint8>): bytes { if o.Some? then [o.value] else [] }

  function ParseByte(b: bytes, present: bool): Parsed<Option<uint8>> {
    if !present then Parsed(None, b) else if b == [] then Failed else Parsed(Some(b[0]), b[1..])
  }

  datatype PictureId = Short(id: nat) | Long(id: nat)

  predicate PictureOk(p: Option<PictureId>) { p.Some? ==> p.value.id < if p.value.Short? then 0x80 else 0x8000 }

  function EncodePicture(p: Option<PictureId>): bytes
    requires PictureOk(p)
  {
    match p
    case None => []
    case Some(Short(id)) => [id]
    case Some(Long(id)) => [0x80 + id / 0x100, id % 0x100]
  }

  function ParsePicture(b: bytes, present: bool): Parsed<Option<PictureId>> {
    if !present then Parsed(None, b)
    else if b == [] then Failed
    else if b[0] < 0x80 then Parsed(Some(Short(b[0] as int)), b[1..])
    else if |b| == 1 then Failed
    else Parsed(Some(Long((b[0] as int - 0x80) * 0x100 + b[1] as int)), b[2..])
  }

  lemma PictureInverse(p: Option<PictureId>, rest: bytes)
    requires PictureOk(p)
    ensures ParsePicture(EncodePicture(p) + rest, p.Some?) == Parsed(p, rest)
  {
  }

  lemma PictureOnly(b: bytes, present: bool)
    ensures
      var r := ParsePicture(b, present);
      r.Parsed? ==> PictureOk(r.value) && r.value.Some? == present && b == EncodePicture(r.value) + r.rest
  {
  }

  // ----- VP8 -----

  // `low` are the bits beside the flags: the first byte has seven, the second four. T and K share a byte.
  datatype Vp8Extension = Vp8Extension(low: nat, picture: Option<PictureId>, tl0: Option<uint8>, t: bool, k: bool,
                                       layers: Option<uint8>)

  datatype Vp8Descriptor = Vp8Descriptor(low: nat, ext: Option<Vp8Extension>)

  predicate ExtensionOk(e: Vp8Extension) { e.low < 0x10 && PictureOk(e.picture) && (e.layers.Some? <==> e.t || e.k) }

  predicate Vp8Ok(d: Vp8Descriptor) { d.low < 0x80 && (d.ext.Some? ==> ExtensionOk(d.ext.value)) }

  function EncodeExtension(e: Vp8Extension): bytes
    requires ExtensionOk(e)
  {
    var flags := Flag(e.picture.Some?, 0x80) + Flag(e.tl0.Some?, 0x40) + Flag(e.t, 0x20) + Flag(e.k, 0x10) + e.low;
    [flags] + (EncodePicture(e.picture) + (EncodeByte(e.tl0) + EncodeByte(e.layers)))
  }

  function EncodeVp8(d: Vp8Descriptor): bytes
    requires Vp8Ok(d)
  {
    if d.ext.None? then [d.low] else [0x80 + d.low] + EncodeExtension(d.ext.value)
  }

  function ParseExtension(b: bytes): Parsed<Vp8Extension> {
    if b == [] then Failed
    else
      var flags, t, k := b[0], Bit(b[0], 0x20), Bit(b[0], 0x10);
      match ParsePicture(b[1..], Bit(flags, 0x80))
      case Failed => Failed
      case Parsed(picture, rest) =>
        match ParseByte(rest, Bit(flags, 0x40))
        case Failed => Failed
        case Parsed(tl0, rest) =>
          match ParseByte(rest, t || k)
          case Failed => Failed
          case Parsed(layers, rest) => Parsed(Vp8Extension(flags % 0x10, picture, tl0, t, k, layers), rest)
  }

  function ParseVp8(b: bytes): Parsed<Vp8Descriptor> {
    if b == [] then Failed
    else if b[0] < 0x80 then Parsed(Vp8Descriptor(b[0] as int, None), b[1..])
    else
      match ParseExtension(b[1..])
      case Failed => Failed
      case Parsed(e, rest) => Parsed(Vp8Descriptor(b[0] as int - 0x80, Some(e)), rest)
  }

  // Four flags and four bits in a byte.
  lemma FourFlags(a: bool, b: bool, c: bool, d: bool, low: nat)
    requires low < 0x10
    ensures
      var f := Flag(a, 0x80) + Flag(b, 0x40) + Flag(c, 0x20) + Flag(d, 0x10) + low;
      f < 0x100 && Bit(f, 0x80) == a && Bit(f, 0x40) == b && Bit(f, 0x20) == c && Bit(f, 0x10) == d && f % 0x10 == low
  {
  }

  lemma FourFlagsBack(f: uint8)
    ensures f == Flag(Bit(f, 0x80), 0x80) + Flag(Bit(f, 0x40), 0x40) + Flag(Bit(f, 0x20), 0x20) + Flag(Bit(f, 0x10), 0x10) + f % 0x10
  {
  }

  lemma ExtensionInverse(e: Vp8Extension, rest: bytes)
    requires ExtensionOk(e)
    ensures ParseExtension(EncodeExtension(e) + rest) == Parsed(e, rest)
  {
    hide Bit, Flag, ParsePicture, EncodePicture;
    FourFlags(e.picture.Some?, e.tl0.Some?, e.t, e.k, e.low);
    var c := EncodeByte(e.layers) + rest;
    var b := EncodeByte(e.tl0) + c;
    PictureInverse(e.picture, b);
    assert (EncodeExtension(e) + rest)[1..] == EncodePicture(e.picture) + b;
    ByteInverse(e.tl0, c);
    ByteInverse(e.layers, rest);
  }

  lemma ByteInverse(o: Option<uint8>, rest: bytes)
    ensures ParseByte(EncodeByte(o) + rest, o.Some?) == Parsed(o, rest)
  {
  }

  lemma ByteOnly(b: bytes, present: bool)
    ensures
      var r := ParseByte(b, present);
      r.Parsed? ==> r.value.Some? == present && b == EncodeByte(r.value) + r.rest
  {
  }

  lemma ExtensionOnly(b: bytes)
    ensures
      var r := ParseExtension(b);
      r.Parsed? ==> ExtensionOk(r.value) && b == EncodeExtension(r.value) + r.rest
  {
    hide Bit, Flag, ParsePicture, EncodePicture, ParseByte, EncodeByte;
    var r := ParseExtension(b);
    if r.Parsed? {
      FourFlagsBack(b[0]);
      var b1 := ParsePicture(b[1..], Bit(b[0], 0x80));
      PictureOnly(b[1..], Bit(b[0], 0x80));
      ByteOnly(b1.rest, Bit(b[0], 0x40));
      var b2 := ParseByte(b1.rest, Bit(b[0], 0x40));
      ByteOnly(b2.rest, Bit(b[0], 0x20) || Bit(b[0], 0x10));
      assert b == [b[0]] + b[1..];
    }
  }

  // The parser takes every descriptor off, whatever follows it, and nothing but descriptors.
  lemma Vp8Inverse(d: Vp8Descriptor, rest: bytes)
    requires Vp8Ok(d)
    ensures ParseVp8(EncodeVp8(d) + rest) == Parsed(d, rest)
  {
    hide ParseExtension, EncodeExtension;
    if d.ext.Some? {
      ExtensionInverse(d.ext.value, rest);
      assert (EncodeVp8(d) + rest)[1..] == EncodeExtension(d.ext.value) + rest;
    }
  }

  lemma Vp8Only(b: bytes)
    ensures
      var r := ParseVp8(b);
      r.Parsed? ==> Vp8Ok(r.value) && b == EncodeVp8(r.value) + r.rest
  {
    hide ParseExtension, EncodeExtension;
    if b != [] && b[0] >= 0x80 {
      ExtensionOnly(b[1..]);
      assert b == [b[0]] + b[1..];
    }
  }

  // ----- VP9 -----

  // The byte of layer indices; its lowest bit is D.
  datatype Layers = Layers(ids: uint8, tl0: Option<uint8>)

  // A picture of the picture group, with up to three reference indices.
  datatype Picture = Picture(ids: uint8, refs: bytes)

  // `low` are the three reserved bits.
  datatype Scalability = Scalability(spatial: nat, sizes: Option<bytes>, group: Option<seq<Picture>>, low: nat)

  datatype Vp9Descriptor = Vp9Descriptor(inter: bool, flexible: bool, start: bool, end: bool, z: bool,
                                         picture: Option<PictureId>, layers: Option<Layers>, refs: bytes,
                                         scalability: Option<Scalability>)

  // In flexible mode, references go on while the lowest bit is set, three at most.
  predicate RefsOk(refs: bytes, left: nat)
    decreases |refs|
  {
    refs != [] && left > 0
    && if refs[0] % 2 == 1 && left > 1 then RefsOk(refs[1..], left - 1) else |refs| == 1
  }

  predicate PictureRefsOk(p: Picture) { |p.refs| == p.ids / 4 % 4 }

  ghost predicate GroupOk(g: seq<Picture>) { forall k :: 0 <= k < |g| ==> PictureRefsOk(g[k]) }

  ghost predicate ScalabilityOk(s: Scalability) {
    && s.spatial < 8 && s.low < 8 && (s.sizes.Some? ==> |s.sizes.value| == (s.spatial + 1) * 4)
    && (s.group.Some? ==> |s.group.value| < 0x100 && GroupOk(s.group.value))
  }

  predicate LayersOk(l: Layers, flexible: bool) { l.tl0.Some? <==> !flexible && l.ids % 2 == 0 }

  ghost predicate Vp9Ok(d: Vp9Descriptor) {
    && PictureOk(d.picture) && (d.layers.Some? ==> LayersOk(d.layers.value, d.flexible))
    && (if d.flexible && d.inter then RefsOk(d.refs, 3) else d.refs == [])
    && (d.scalability.Some? ==> ScalabilityOk(d.scalability.value))
  }

  function EncodeLayers(l: Option<Layers>): bytes { if l.Some? then [l.value.ids] + EncodeByte(l.value.tl0) else [] }

  function EncodePart(p: Picture): bytes { [p.ids] + p.refs }

  function EncodeGroup(g: seq<Picture>): bytes { if g == [] then [] else EncodePart(g[0]) + EncodeGroup(g[1..]) }

  function EncodeSizes(o: Option<bytes>): bytes { if o.Some? then o.value else [] }

  function EncodeCounted(o: Option<seq<Picture>>): bytes
    requires o.Some? ==> |o.value| < 0x100
  {
    if o.Some? then [|o.value|] + EncodeGroup(o.value) else []
  }

  function ScalabilityFlags(s: Scalability): nat {
    s.spatial * 0x20 + Flag(s.sizes.Some?, 0x10) + Flag(s.group.Some?, 8) + s.low
  }

  ghost function EncodeScalability(s: Option<Scalability>): bytes
    requires s.Some? ==> ScalabilityOk(s.value)
  {
    if s.None? then []
    else
      ScalabilityByte(s.value);
      [ScalabilityFlags(s.value)] + (EncodeSizes(s.value.sizes) + EncodeCounted(s.value.group))
  }

  ghost function Vp9Flags(d: Vp9Descriptor): nat {
    Flag(d.picture.Some?, 0x80) + Flag(d.inter, 0x40) + Flag(d.layers.Some?, 0x20) + Flag(d.flexible, 0x10)
    + Flag(d.start, 8) + Flag(d.end, 4) + Flag(d.scalability.Some?, 2) + Flag(d.z, 1)
  }

  ghost function EncodeVp9(d: Vp9Descriptor): bytes
    requires Vp9Ok(d)
  {
    FlagsFit(d);
    [Vp9Flags(d)] + (EncodePicture(d.picture) + (EncodeLayers(d.layers) + (d.refs + EncodeScalability(d.scalability))))
  }

  lemma FlagsFit(d: Vp9Descriptor)
    ensures Vp9Flags(d) < 0x100
  {
  }

  function ParseLayers(b: bytes, present: bool, flexible: bool): Parsed<Option<Layers>> {
    if !present then Parsed(None, b)
    else if b == [] then Failed
    else
      match ParseByte(b[1..], !flexible && b[0] % 2 == 0)
      case Failed => Failed
      case Parsed(tl0, rest) => Parsed(Some(Layers(b[0], tl0)), rest)
  }

  function ParseRefs(b: bytes, left: nat): Parsed<bytes>
    decreases left
  {
    if left == 0 then Parsed([], b)
    else if b == [] then Failed
    else if b[0] % 2 == 0 then Parsed(b[..1], b[1..])
    else
      match ParseRefs(b[1..], left - 1)
      case Failed => Failed
      case Parsed(refs, rest) => Parsed([b[0]] + refs, rest)
  }

  function ParsePart(b: bytes): Parsed<Picture> {
    if b == [] || |b| - 1 < b[0] as int / 4 % 4 then Failed
    else
      var n := b[0] as int / 4 % 4;
      Parsed(Picture(b[0], b[1..1 + n]), b[1 + n..])
  }

  function ParseGroup(b: bytes, count: nat): Parsed<seq<Picture>>
    decreases count
  {
    if count == 0 then Parsed([], b)
    else
      match ParsePart(b)
      case Failed => Failed
      case Parsed(p, rest) =>
        match ParseGroup(rest, count - 1)
        case Failed => Failed
        case Parsed(g, rest) => Parsed([p] + g, rest)
  }

  function ParseSizes(b: bytes, spatial: nat, present: bool): Parsed<Option<bytes>> {
    var n := (spatial + 1) * 4;
    if !present then Parsed(None, b) else if |b| < n then Failed else Parsed(Some(b[..n]), b[n..])
  }

  function ParseCounted(b: bytes, present: bool): Parsed<Option<seq<Picture>>> {
    if !present then Parsed(None, b)
    else if b == [] then Failed
    else
      match ParseGroup(b[1..], b[0] as int)
      case Failed => Failed
      case Parsed(g, rest) => Parsed(Some(g), rest)
  }

  function ParseScalability(b: bytes, present: bool): Parsed<Option<Scalability>> {
    if !present then Parsed(None, b)
    else if b == [] then Failed
    else
      var spatial := b[0] as int / 0x20;
      match ParseSizes(b[1..], spatial, Bit(b[0], 0x10))
      case Failed => Failed
      case Parsed(sizes, rest) =>
        match ParseCounted(rest, Bit(b[0], 8))
        case Failed => Failed
        case Parsed(group, rest) => Parsed(Some(Scalability(spatial, sizes, group, b[0] as int % 8)), rest)
  }

  function ParseVp9(b: bytes): Parsed<Vp9Descriptor> {
    if b == [] then Failed
    else
      var flags, inter, flexible := b[0], Bit(b[0], 0x40), Bit(b[0], 0x10);
      match ParsePicture(b[1..], Bit(flags, 0x80))
      case Failed => Failed
      case Parsed(picture, rest) =>
        match ParseLayers(rest, Bit(flags, 0x20), flexible)
        case Failed => Failed
        case Parsed(layers, rest) =>
          match ParseRefs(rest, if flexible && inter then 3 else 0)
          case Failed => Failed
          case Parsed(refs, rest) =>
            match ParseScalability(rest, Bit(flags, 2))
            case Failed => Failed
            case Parsed(s, rest) =>
              Parsed(Vp9Descriptor(inter, flexible, Bit(flags, 8), Bit(flags, 4), Bit(flags, 1), picture, layers, refs, s), rest)
  }

  lemma LayersInverse(l: Option<Layers>, flexible: bool, rest: bytes)
    requires l.Some? ==> LayersOk(l.value, flexible)
    ensures ParseLayers(EncodeLayers(l) + rest, l.Some?, flexible) == Parsed(l, rest)
  {
    if l.Some? {
      ByteInverse(l.value.tl0, rest);
      assert (EncodeLayers(l) + rest)[1..] == EncodeByte(l.value.tl0) + rest;
    }
  }

  lemma LayersOnly(b: bytes, present: bool, flexible: bool)
    ensures
      var r := ParseLayers(b, present, flexible);
      r.Parsed? ==> r.value.Some? == present && (present ==> LayersOk(r.value.value, flexible)) && b == EncodeLayers(r.value) + r.rest
  {
  }

  lemma {:induction false} RefsInverse(refs: bytes, left: nat, rest: bytes)
    requires RefsOk(refs, left)
    ensures ParseRefs(refs + rest, left) == Parsed(refs, rest)
    decreases left
  {
    assert (refs + rest)[1..] == refs[1..] + rest;
    if refs[0] % 2 == 1 && left > 1 {
      RefsInverse(refs[1..], left - 1, rest);
      assert [refs[0]] + refs[1..] == refs;
    } else {
      assert refs == [refs[0]] && (refs + rest)[1..] == rest && ParseRefs(rest, 0) == Parsed([], rest);
      assert (refs + rest)[..1] == refs && [refs[0]] + [] == refs;
    }
  }

  lemma {:induction false} RefsOnly(b: bytes, left: nat)
    requires left > 0
    ensures
      var r := ParseRefs(b, left);
      r.Parsed? ==> RefsOk(r.value, left) && b == r.value + r.rest
    decreases left
  {
    if b != [] && b[0] % 2 == 1 {
      if left > 1 {
        RefsOnly(b[1..], left - 1);
      }
      assert b == [b[0]] + b[1..];
    }
  }

  lemma PartInverse(p: Picture, rest: bytes)
    requires PictureRefsOk(p)
    ensures ParsePart(EncodePart(p) + rest) == Parsed(p, rest)
  {
    var b, n := EncodePart(p) + rest, 1 + |p.refs|;
    assert b[1..n] == p.refs && b[n..] == rest;
  }

  lemma PartOnly(b: bytes)
    ensures
      var r := ParsePart(b);
      r.Parsed? ==> PictureRefsOk(r.value) && b == EncodePart(r.value) + r.rest
  {
  }

  lemma {:induction false} GroupInverse(g: seq<Picture>, rest: bytes)
    requires GroupOk(g)
    ensures ParseGroup(EncodeGroup(g) + rest, |g|) == Parsed(g, rest)
    decreases |g|
  {
    hide EncodePart, ParsePart;
    if g != [] {
      assert EncodeGroup(g) + rest == EncodePart(g[0]) + (EncodeGroup(g[1..]) + rest);
      PartInverse(g[0], EncodeGroup(g[1..]) + rest);
      GroupInverse(g[1..], rest);
      assert [g[0]] + g[1..] == g;
    } else {
      assert [] + rest == rest;
    }
  }

  lemma {:induction false} GroupOnly(b: bytes, count: nat)
    ensures
      var r := ParseGroup(b, count);
      r.Parsed? ==> |r.value| == count && GroupOk(r.value) && b == EncodeGroup(r.value) + r.rest
    decreases count
  {
    hide EncodePart, ParsePart, PictureRefsOk;
    var r := ParseGroup(b, count);
    if count > 0 && r.Parsed? {
      PartOnly(b);
      var p := ParsePart(b);
      GroupOnly(p.rest, count - 1);
      var tail := ParseGroup(p.rest, count - 1);
      assert r.value[1..] == tail.value;
      Assoc(EncodePart(p.value), EncodeGroup(tail.value), r.rest);
    } else if r.Parsed? {
      assert [] + b == b;
    }
  }

  lemma SizesInverse(o: Option<bytes>, spatial: nat, rest: bytes)
    requires o.Some? ==> |o.value| == (spatial + 1) * 4
    ensures ParseSizes(EncodeSizes(o) + rest, spatial, o.Some?) == Parsed(o, rest)
  {
  }

  lemma SizesOnly(b: bytes, spatial: nat, present: bool)
    ensures
      var r := ParseSizes(b, spatial, present);
      r.Parsed? ==>
        && r.value.Some? == present && (present ==> |r.value.value| == (spatial + 1) * 4)
        && b == EncodeSizes(r.value) + r.rest
  {
  }

  lemma CountedInverse(o: Option<seq<Picture>>, rest: bytes)
    requires o.Some? ==> |o.value| < 0x100 && GroupOk(o.value)
    ensures ParseCounted(EncodeCounted(o) + rest, o.Some?) == Parsed(o, rest)
  {
    hide ParseGroup, EncodeGroup;
    if o.Some? {
      GroupInverse(o.value, rest);
      assert (EncodeCounted(o) + rest)[1..] == EncodeGroup(o.value) + rest;
    }
  }

  lemma CountedOnly(b: bytes, present: bool)
    ensures
      var r := ParseCounted(b, present);
      r.Parsed? ==>
        && r.value.Some? == present && (present ==> |r.value.value| < 0x100 && GroupOk(r.value.value))
        && b == EncodeCounted(r.value) + r.rest
  {
    hide ParseGroup, EncodeGroup, GroupOk;
    if present && b != [] {
      GroupOnly(b[1..], b[0]);
      assert b == [b[0]] + b[1..];
    }
  }

  lemma ScalabilityByte(s: Scalability)
    requires s.spatial < 8 && s.low < 8
    ensures
      var f := ScalabilityFlags(s);
      f < 0x100 && f / 0x20 == s.spatial && Bit(f, 0x10) == s.sizes.Some? && Bit(f, 8) == s.group.Some? && f % 8 == s.low
  {
    hide Flag, Bit;
    FiveWritten(s.sizes.Some?, s.group.Some?, s.low);
    FiveBits(s.spatial, Flag(s.sizes.Some?, 0x10) + Flag(s.group.Some?, 8) + s.low);
  }

  lemma FiveWritten(y: bool, g: bool, low: nat)
    requires low < 8
    ensures
      var l := Flag(y, 0x10) + Flag(g, 8) + low;
      l < 0x20 && Bit(l, 0x10) == y && Bit(l, 8) == g && l % 8 == low
  {
  }

  lemma ScalabilityByteBack(f: uint8, s: Scalability)
    requires s.spatial == f / 0x20 && s.low == f % 8 && s.sizes.Some? == Bit(f, 0x10) && s.group.Some? == Bit(f, 8)
    ensures f == ScalabilityFlags(s)
  {
    hide Bit, Flag;
    ScalabilityBits(f);
  }

  lemma ScalabilityBits(f: uint8)
    ensures f == f / 0x20 * 0x20 + Flag(Bit(f, 0x10), 0x10) + Flag(Bit(f, 8), 8) + f % 8
  {
    hide Flag, Bit;
    var q, l := f / 0x20, f % 0x20;
    FiveBits(q, l);
    FiveFlags(l);
  }

  // The five low bits do not depend on the ones above.
  lemma FiveBits(q: nat, l: nat)
    requires q < 8 && l < 0x20
    ensures Bit(q * 0x20 + l, 0x10) == Bit(l, 0x10) && Bit(q * 0x20 + l, 8) == Bit(l, 8) && (q * 0x20 + l) % 8 == l % 8
  {
    var f := q * 0x20 + l;
    assert f / 0x10 == 2 * q + l / 0x10 && f / 8 == 4 * q + l / 8;
  }

  lemma FiveFlags(l: nat)
    requires l < 0x20
    ensures l == Flag(Bit(l, 0x10), 0x10) + Flag(Bit(l, 8), 8) + l % 8
  {
  }

  lemma ScalabilityInverse(s: Option<Scalability>, rest: bytes)
    requires s.Some? ==> ScalabilityOk(s.value)
    ensures ParseScalability(EncodeScalability(s) + rest, s.Some?) == Parsed(s, rest)
  {
    hide Bit, Flag, ParseSizes, EncodeSizes, ParseCounted, EncodeCounted, GroupOk;
    if s.Some? {
      var v, b := s.value, EncodeScalability(s) + rest;
      ScalabilityByte(v);
      var c := EncodeCounted(v.group) + rest;
      assert b[1..] == EncodeSizes(v.sizes) + c;
      SizesInverse(v.sizes, v.spatial, c);
      CountedInverse(v.group, rest);
    } else {
      assert EncodeScalability(s) + rest == rest;
    }
  }

  lemma ScalabilityOnly(b: bytes, present: bool)
    ensures
      var r := ParseScalability(b, present);
      r.Parsed? ==>
        r.value.Some? == present && (present ==> ScalabilityOk(r.value.value)) && b == EncodeScalability(r.value) + r.rest
  {
    hide Bit, Flag, ParseSizes, EncodeSizes, ParseCounted, EncodeCounted, GroupOk, ScalabilityFlags;
    var r := ParseScalability(b, present);
    if r.Parsed? && present {
      var spatial := b[0] as int / 0x20;
      var s := ParseSizes(b[1..], spatial, Bit(b[0], 0x10));
      SizesOnly(b[1..], spatial, Bit(b[0], 0x10));
      CountedOnly(s.rest, Bit(b[0], 8));
      ScalabilityByteBack(b[0], r.value.value);
      assert b == [b[0]] + b[1..];
    }
  }

  // The eight flags of the first byte: four above and four below.
  lemma LowFlags(e: bool, f: bool, g: bool, h: bool)
    ensures
      var x := Flag(e, 8) + Flag(f, 4) + Flag(g, 2) + Flag(h, 1);
      x < 0x10 && Bit(x, 8) == e && Bit(x, 4) == f && Bit(x, 2) == g && Bit(x, 1) == h
  {
  }

  lemma LowFlagsBack(x: uint8)
    requires x < 0x10
    ensures x == Flag(Bit(x, 8), 8) + Flag(Bit(x, 4), 4) + Flag(Bit(x, 2), 2) + Flag(Bit(x, 1), 1)
  {
  }

  lemma LowBits(x: uint8)
    ensures Bit(x, 8) == Bit(x % 0x10, 8) && Bit(x, 4) == Bit(x % 0x10, 4)
    ensures Bit(x, 2) == Bit(x % 0x10, 2) && Bit(x, 1) == Bit(x % 0x10, 1)
  {
    var q, l := x / 0x10, x % 0x10;
    assert x / 8 == 2 * q + l / 8 && x / 4 == 4 * q + l / 4 && x / 2 == 8 * q + l / 2;
  }

  lemma EightFlags(a: bool, b: bool, c: bool, d: bool, e: bool, f: bool, g: bool, h: bool)
    ensures
      var x := Flag(a, 0x80) + Flag(b, 0x40) + Flag(c, 0x20) + Flag(d, 0x10) + Flag(e, 8) + Flag(f, 4) + Flag(g, 2) + Flag(h, 1);
      && x < 0x100 && Bit(x, 0x80) == a && Bit(x, 0x40) == b && Bit(x, 0x20) == c && Bit(x, 0x10) == d
      && Bit(x, 8) == e && Bit(x, 4) == f && Bit(x, 2) == g && Bit(x, 1) == h
  {
    hide Bit, Flag;
    LowFlags(e, f, g, h);
    var low := Flag(e, 8) + Flag(f, 4) + Flag(g, 2) + Flag(h, 1);
    FourFlags(a, b, c, d, low);
    LowBits(Flag(a, 0x80) + Flag(b, 0x40) + Flag(c, 0x20) + Flag(d, 0x10) + low);
  }

  lemma EightFlagsBack(x: uint8)
    ensures x == Flag(Bit(x, 0x80), 0x80) + Flag(Bit(x, 0x40), 0x40) + Flag(Bit(x, 0x20), 0x20) + Flag(Bit(x, 0x10), 0x10)
                 + Flag(Bit(x, 8), 8) + Flag(Bit(x, 4), 4) + Flag(Bit(x, 2), 2) + Flag(Bit(x, 1), 1)
  {
    hide Bit, Flag;
    FourFlagsBack(x);
    LowFlagsBack(x % 0x10);
    LowBits(x);
  }

  // The parser takes every descriptor off, whatever follows it, and nothing but descriptors.
  lemma Vp9Inverse(d: Vp9Descriptor, rest: bytes)
    requires Vp9Ok(d)
    ensures ParseVp9(EncodeVp9(d) + rest) == Parsed(d, rest)
  {
    hide Bit, Flag, ParsePicture, EncodePicture, ParseLayers, EncodeLayers, ParseScalability, EncodeScalability, RefsOk, ScalabilityOk;
    EightFlags(d.picture.Some?, d.inter, d.layers.Some?, d.flexible, d.start, d.end, d.scalability.Some?, d.z);
    var b3 := EncodeScalability(d.scalability) + rest;
    var b2 := d.refs + b3;
    var b1 := EncodeLayers(d.layers) + b2;
    assert (EncodeVp9(d) + rest)[1..] == EncodePicture(d.picture) + b1;
    PictureInverse(d.picture, b1);
    LayersInverse(d.layers, d.flexible, b2);
    if d.flexible && d.inter {
      RefsInverse(d.refs, 3, b3);
    } else {
      assert b2 == b3;
    }
    ScalabilityInverse(d.scalability, rest);
  }

  lemma Vp9Only(b: bytes)
    ensures
      var r := ParseVp9(b);
      r.Parsed? ==> Vp9Ok(r.value) && b == EncodeVp9(r.value) + r.rest
  {
    hide Bit, Flag, ParsePicture, EncodePicture, ParseLayers, EncodeLayers, ParseScalability, EncodeScalability, RefsOk, ScalabilityOk;
    var r := ParseVp9(b);
    if r.Parsed? {
      var d := r.value;
      EightFlagsBack(b[0]);
      var b1 := ParsePicture(b[1..], Bit(b[0], 0x80));
      PictureOnly(b[1..], Bit(b[0], 0x80));
      var b2 := ParseLayers(b1.rest, Bit(b[0], 0x20), d.flexible);
      LayersOnly(b1.rest, Bit(b[0], 0x20), d.flexible);
      var b3 := ParseRefs(b2.rest, if d.flexible && d.inter then 3 else 0);
      if d.flexible && d.inter {
        RefsOnly(b2.rest, 3);
      }
      ScalabilityOnly(b3.rest, Bit(b[0], 2));
      Concatenated(b, EncodePicture(d.picture), EncodeLayers(d.layers), d.refs, EncodeScalability(d.scalability), r.rest);
    }
  }

  lemma Concatenated(all: bytes, a: bytes, b: bytes, c: bytes, d: bytes, rest: bytes)
    requires all != [] && all[1..] == a + (b + (c + (d + rest)))
    ensures all == [all[0]] + (a + (b + (c + d))) + rest
  {
    assert all == [all[0]] + all[1..];
    assert a + (b + (c + (d + rest))) == a + (b + (c + d)) + rest;
  }
}
