/**
 The binary format of marshalling.c and the record traversal of dictionary.c: what
 is written for a record, what is read back, and that reading inverts writing.
 */
module Marshalling {
  import opened Common
  import opened Records

  type Byte = x: int | 0 <= x < 256

  const INT_MIN := -0x8000_0000
  const INT_MAX := 0x7fff_ffff

  predicate IsInt(n: int) { INT_MIN <= n <= INT_MAX }

  /** What reading yields: a value and the unread bytes, or no defined value (a short
      read, or a pointer to no element). */
  datatype Parse<+T> = Undefined | Done(value: T, rest: seq<Byte>)

  // ----- integers -----

  /** The four bytes of an int, least significant first, in two's complement. */
  function IntBytes(n: int): (b: seq<Byte>)
    ensures |b| == 4
  {
    var u := n % 0x1_0000_0000;
    [ByteAt(u, 1), ByteAt(u, 0x100), ByteAt(u, 0x1_0000), ByteAt(u, 0x100_0000)]
  }

  function ByteAt(u: int, unit: int): Byte
    requires unit > 0
  {
    u / unit % 0x100
  }

  function Word(b0: int, b1: int, b2: int, b3: int): int {
    b0 + b1 * 0x100 + b2 * 0x1_0000 + b3 * 0x100_0000
  }

  function ParseInt(s: seq<Byte>): (p: Parse<int>)
    ensures p.Done? ==> IsInt(p.value) && |p.rest| < |s|
  {
    if |s| < 4 then Undefined
    else
      var u := Word(s[0], s[1], s[2], s[3]);
      Done(Signed(u), s[4..])
  }

  lemma BytesOfWord(u: int)
    requires 0 <= u < 0x1_0000_0000
    ensures u == Word(ByteAt(u, 1), ByteAt(u, 0x100), ByteAt(u, 0x1_0000), ByteAt(u, 0x100_0000))
  {
    var u1, u2, u3 := u / 0x100, u / 0x1_0000, u / 0x100_0000;
    assert u1 / 0x100 == u2 && u2 / 0x100 == u3 && u3 < 0x100;
    assert u == u % 0x100 + 0x100 * u1 && u1 == u1 % 0x100 + 0x100 * u2 && u2 == u2 % 0x100 + 0x100 * u3;
  }

  function Signed(u: int): int { if u > INT_MAX then u - 0x1_0000_0000 else u }

  lemma SignedWord(n: int)
    requires IsInt(n)
    ensures Signed(n % 0x1_0000_0000) == n
  {
  }

  lemma IntInverse(n: int, tail: seq<Byte>)
    requires IsInt(n)
    ensures ParseInt(IntBytes(n) + tail) == Done(n, tail)
  {
    SignedWord(n);
    BytesOfWord(n % 0x1_0000_0000);
    var s := IntBytes(n) + tail;
    assert s[0] == IntBytes(n)[0] && s[1] == IntBytes(n)[1] && s[2] == IntBytes(n)[2] && s[3] == IntBytes(n)[3];
    assert s[4..] == tail;
  }

  lemma Assoc(a: seq<Byte>, b: seq<Byte>, c: seq<Byte>, tail: seq<Byte>)
    ensures a + (b + c) + tail == a + (b + (c + tail))
  {
  }

  // ----- strings and resource records -----

  /** The characters of a C string: bytes other than NUL. */
  predicate IsText(t: string) {
    |t| <= INT_MAX && forall i | 0 <= i < |t| :: 0 < t[i] as int < 256
  }

  function TextBytes(t: string): seq<Byte>
    requires IsText(t)
  {
    seq(|t|, i requires 0 <= i < |t| => t[i] as int)
  }

  /** A buffer read as a C string: it ends at the first NUL. */
  function TextOf(b: seq<Byte>): string {
    if b == [] || b[0] == 0 then "" else [b[0] as char] + TextOf(b[1..])
  }

  lemma {:induction false} TextInverse(t: string)
    requires IsText(t)
    ensures TextOf(TextBytes(t)) == t
  {
    if t != "" {
      assert TextBytes(t)[1..] == TextBytes(t[1..]);
      TextInverse(t[1..]);
      assert t == [t[0]] + t[1..];
    }
  }

  predicate IsString(o: Option<string>) { o.Some? ==> IsText(o.value) }

  /** marshallstring, and marshallldnsrr on the text form of a resource record. */
  function StringBytes(o: Option<string>): seq<Byte>
    requires IsString(o)
  {
    if o.None? then IntBytes(-1) else IntBytes(|o.value|) + TextBytes(o.value)
  }

  function ParseString(s: seq<Byte>): (p: Parse<Option<string>>)
    ensures p.Done? ==> |p.rest| < |s|
  {
    match ParseInt(s)
    case Undefined => Undefined
    case Done(len, rest) =>
      if len < 0 then Done(None, rest)
      else if |rest| < len then Undefined
      else Done(Some(TextOf(rest[..len])), rest[len..])
  }

  lemma StringInverse(o: Option<string>, tail: seq<Byte>)
    requires IsString(o)
    ensures ParseString(StringBytes(o) + tail) == Done(o, tail)
  {
    if o.None? {
      IntInverse(-1, tail);
    } else {
      var b := TextBytes(o.value);
      assert StringBytes(o) + tail == IntBytes(|o.value|) + (b + tail);
      IntInverse(|o.value|, b + tail);
      TextInverse(o.value);
      assert (b + tail)[..|b|] == b && (b + tail)[|b|..] == tail;
    }
  }

  // ----- counted elements -----

  function Bytes<T>(enc: T --> seq<Byte>, xs: seq<T>): seq<Byte>
    requires forall x | x in xs :: enc.requires(x)
  {
    if xs == [] then [] else enc(xs[0]) + Bytes(enc, xs[1..])
  }

  /** The bytes left over are never more than there were. */
  ghost predicate Consumes<T>(parse: seq<Byte> -> Parse<T>) {
    forall s :: parse(s).Done? ==> |parse(s).rest| <= |s|
  }

  /** n elements read one after the other. */
  function ParseMany<T>(parse: seq<Byte> -> Parse<T>, n: nat, s: seq<Byte>): (p: Parse<seq<T>>)
    ensures p.Done? ==> |p.value| == n
  {
    if n == 0 then Done([], s)
    else
      match parse(s)
      case Undefined => Undefined
      case Done(x, rest) =>
        match ParseMany(parse, n - 1, rest)
        case Undefined => Undefined
        case Done(xs, rest') => Done([x] + xs, rest')
  }

  lemma ManyConsumes<T>(parse: seq<Byte> -> Parse<T>, n: nat, s: seq<Byte>)
    requires Consumes(parse)
    ensures var p := ParseMany(parse, n, s); p.Done? ==> |p.rest| <= |s|
    decreases n
  {
    if n > 0 && parse(s).Done? {
      ManyConsumes(parse, n - 1, parse(s).rest);
    }
  }

  function Map<T, U>(f: T -> U, xs: seq<T>): (ys: seq<U>)
    ensures |ys| == |xs| && forall i | 0 <= i < |xs| :: ys[i] == f(xs[i])
  {
    if xs == [] then [] else [f(xs[0])] + Map(f, xs[1..])
  }

  /** Reading what was written for x gives norm(x) and leaves the tail. */
  ghost predicate Inverts<T(!new), U>(parse: seq<Byte> -> Parse<U>, enc: T --> seq<Byte>, norm: T -> U, x: T)
    requires enc.requires(x)
  {
    forall tail :: parse(enc(x) + tail) == Done(norm(x), tail)
  }

  lemma {:induction false} ManyInverse<T(!new), U>(parse: seq<Byte> -> Parse<U>, enc: T --> seq<Byte>, norm: T -> U,
                                                   xs: seq<T>, tail: seq<Byte>)
    requires forall x | x in xs :: enc.requires(x) && Inverts(parse, enc, norm, x)
    ensures ParseMany(parse, |xs|, Bytes(enc, xs) + tail) == Done(Map(norm, xs), tail)
  {
    if xs == [] {
      assert Bytes(enc, xs) + tail == tail;
    } else {
      var x, rest := xs[0], xs[1..];
      ManyInverse(parse, enc, norm, rest, tail);
      assert Inverts(parse, enc, norm, x);
      assert Bytes(enc, xs) + tail == enc(x) + (Bytes(enc, rest) + tail);
    }
  }

  /** An array with its count; a missing one is written as -1. */
  function VectorBytes<T>(enc: T --> seq<Byte>, v: Vector<T>): seq<Byte>
    requires forall x | x in v.Elements() :: enc.requires(x)
  {
    if v.items.None? then IntBytes(-1) else IntBytes(v.count) + Bytes(enc, v.items.value)
  }

  function ParseVector<T>(parse: seq<Byte> -> Parse<T>, s: seq<Byte>): Parse<Vector<T>> {
    match ParseInt(s)
    case Undefined => Undefined
    case Done(count, rest) =>
      if count < 0 then Done(Vector(count, None), rest)
      else
        match ParseMany(parse, count, rest)
        case Undefined => Undefined
        case Done(xs, rest') => Done(Vector(count, Some(xs)), rest')
  }

  lemma VectorConsumes<T>(parse: seq<Byte> -> Parse<T>, s: seq<Byte>)
    requires Consumes(parse)
    ensures var p := ParseVector(parse, s); p.Done? ==> |p.rest| <= |s|
  {
    match ParseInt(s)
    case Undefined =>
    case Done(count, rest) =>
      if count >= 0 {
        ManyConsumes(parse, count, rest);
      }
  }

  predicate IsVector<T>(v: Vector<T>) {
    v.Consistent() && v.count <= INT_MAX
  }

  /** A missing array reads back with count -1. */
  function NormVector<T, U>(norm: T -> U, v: Vector<T>): Vector<U> {
    if v.items.None? then Vector(-1, None) else Vector(v.count, Some(Map(norm, v.items.value)))
  }

  lemma VectorInverse<T(!new), U>(parse: seq<Byte> -> Parse<U>, enc: T --> seq<Byte>, norm: T -> U,
                                  v: Vector<T>, tail: seq<Byte>)
    requires IsVector(v)
    requires forall x | x in v.Elements() :: enc.requires(x) && Inverts(parse, enc, norm, x)
    ensures ParseVector(parse, VectorBytes(enc, v) + tail) == Done(NormVector(norm, v), tail)
  {
    if v.items.None? {
      IntInverse(-1, tail);
    } else {
      var b := Bytes(enc, v.items.value);
      assert VectorBytes(enc, v) + tail == IntBytes(v.count) + (b + tail);
      IntInverse(v.count, b + tail);
      ManyInverse(parse, enc, norm, v.items.value, tail);
    }
  }

  /** marshall_OPTIONAL on an int: an array of one element, or a missing one. */
  function OptionalBytes(o: Option<int>): seq<Byte> {
    if o.None? then IntBytes(-1) else IntBytes(1) + IntBytes(o.value)
  }

  /** The first of the elements read; none is defined when the count is 0. */
  function ParseOptional<T>(parse: seq<Byte> -> Parse<T>, s: seq<Byte>): Parse<Option<T>> {
    match ParseInt(s)
    case Undefined => Undefined
    case Done(count, rest) =>
      if count < 0 then Done(None, rest)
      else if count == 0 then Undefined
      else
        match ParseMany(parse, count, rest)
        case Undefined => Undefined
        case Done(xs, rest') => Done(Some(xs[0]), rest')
  }

  lemma OptionalConsumes<T>(parse: seq<Byte> -> Parse<T>, s: seq<Byte>)
    requires Consumes(parse)
    ensures var p := ParseOptional(parse, s); p.Done? ==> |p.rest| < |s|
  {
    match ParseInt(s)
    case Undefined =>
    case Done(count, rest) =>
      if count > 0 {
        ManyConsumes(parse, count, rest);
      }
  }

  lemma OptionalOne<T>(parse: seq<Byte> -> Parse<T>, s: seq<Byte>, rest: seq<Byte>, x: T, tail: seq<Byte>)
    requires ParseInt(s) == Done(1, rest) && ParseMany(parse, 1, rest) == Done([x], tail)
    ensures ParseOptional(parse, s) == Done(Some(x), tail)
  {
  }

  predicate IsOptional(o: Option<int>) { o.Some? ==> IsInt(o.value) }

  lemma OneInt(n: int, tail: seq<Byte>)
    requires IsInt(n)
    ensures ParseMany(ParseInt, 1, IntBytes(n) + tail) == Done([n], tail)
  {
    IntInverse(n, tail);
    var none: seq<int> := [];
    assert ParseMany(ParseInt, 0, tail) == Done(none, tail) && [n] + none == [n];
  }

  lemma OptionalInverse(o: Option<int>, tail: seq<Byte>)
    requires IsOptional(o)
    ensures ParseTime(OptionalBytes(o) + tail) == Done(o, tail)
  {
    if o.None? {
      IntInverse(-1, tail);
      assert ParseTime(IntBytes(-1) + tail) == Done(o, tail);
    } else {
      var a, b := IntBytes(1), IntBytes(o.value);
      assert OptionalBytes(o) + tail == a + (b + tail);
      IntInverse(1, b + tail);
      OneInt(o.value, tail);
      OptionalOne(ParseInt, a + (b + tail), b + tail, o.value, tail);
    }
  }

  // ----- the parts of a record -----

  function NormString(o: Option<string>): Option<string> { o }
  function NormSignature(x: Signature): Signature { x }

  predicate IsSignature(x: Signature) {
    IsString(x.rr) && IsString(x.keylocator) && IsInt(x.keyflags)
  }

  function SignatureBytes(x: Signature): seq<Byte>
    requires IsSignature(x)
  {
    StringBytes(x.rr) + (StringBytes(x.keylocator) + IntBytes(x.keyflags))
  }

  function ParseSignature(s: seq<Byte>): (p: Parse<Signature>)
    ensures p.Done? ==> |p.rest| <= |s|
  {
    match ParseString(s)
    case Undefined => Undefined
    case Done(rr, s1) =>
      match ParseString(s1)
      case Undefined => Undefined
      case Done(keylocator, s2) =>
        match ParseInt(s2)
        case Undefined => Undefined
        case Done(keyflags, s3) => Done(Signature(rr, keylocator, keyflags), s3)
  }

  lemma SignatureInverse(x: Signature)
    requires IsSignature(x)
    ensures Inverts(ParseSignature, SignatureBytes, NormSignature, x)
  {
    forall tail
      ensures ParseSignature(SignatureBytes(x) + tail) == Done(x, tail)
    {
      var c := IntBytes(x.keyflags) + tail;
      var b := StringBytes(x.keylocator) + c;
      Assoc(StringBytes(x.rr), StringBytes(x.keylocator), IntBytes(x.keyflags), tail);
      StringInverse(x.rr, b);
      StringInverse(x.keylocator, c);
      IntInverse(x.keyflags, tail);
    }
  }

  predicate IsItemSet(x: ItemSet) {
    IsInt(x.rrtype) && IsVector(x.items) && forall o | o in x.items.Elements() :: IsString(o)
  }

  function ItemSetBytes(x: ItemSet): seq<Byte>
    requires IsItemSet(x)
  {
    IntBytes(x.rrtype) + VectorBytes(StringBytes, x.items)
  }

  function ParseItems(s: seq<Byte>): (p: Parse<Vector<Option<string>>>)
    ensures p.Done? ==> |p.rest| <= |s|
  {
    VectorConsumes(ParseString, s);
    ParseVector(ParseString, s)
  }

  function ParseItemSet(s: seq<Byte>): (p: Parse<ItemSet>)
    ensures p.Done? ==> |p.rest| <= |s|
  {
    match ParseInt(s)
    case Undefined => Undefined
    case Done(rrtype, s1) =>
      match ParseItems(s1)
      case Undefined => Undefined
      case Done(items, s2) => Done(ItemSet(rrtype, items), s2)
  }

  function NormItemSet(x: ItemSet): ItemSet {
    x.(items := NormVector(NormString, x.items))
  }

  lemma ItemSetInverse(x: ItemSet)
    requires IsItemSet(x)
    ensures Inverts(ParseItemSet, ItemSetBytes, NormItemSet, x)
  {
    forall o | o in x.items.Elements()
      ensures Inverts(ParseString, StringBytes, NormString, o)
    {
      forall tail ensures ParseString(StringBytes(o) + tail) == Done(NormString(o), tail) { StringInverse(o, tail); }
    }
    forall tail
      ensures ParseItemSet(ItemSetBytes(x) + tail) == Done(NormItemSet(x), tail)
    {
      var b := VectorBytes(StringBytes, x.items);
      assert ItemSetBytes(x) + tail == IntBytes(x.rrtype) + (b + tail);
      IntInverse(x.rrtype, b + tail);
      VectorInverse(ParseString, StringBytes, NormString, x.items, tail);
    }
  }

  // ----- records -----

  predicate IsRecord(r: Record) {
    && IsString(r.name) && IsInt(r.revision) && IsInt(r.marker) && IsString(r.spanhash)
    && IsVector(r.spansignatures) && (forall x | x in r.spansignatures.Elements() :: IsSignature(x))
    && IsOptional(r.validupto) && IsOptional(r.validfrom) && IsOptional(r.expiry)
    && IsVector(r.itemsets) && (forall x | x in r.itemsets.Elements() :: IsItemSet(x))
  }

  /** The scalar fields in front, and the three times. */
  datatype Front = Front(name: Option<string>, revision: int, marker: int, spanhash: Option<string>)
  datatype Times = Times(validupto: Option<int>, validfrom: Option<int>, expiry: Option<int>)

  function FrontOf(r: Record): Front { Front(r.name, r.revision, r.marker, r.spanhash) }
  function TimesOf(r: Record): Times { Times(r.validupto, r.validfrom, r.expiry) }

  predicate IsFront(f: Front) { IsString(f.name) && IsInt(f.revision) && IsInt(f.marker) && IsString(f.spanhash) }
  predicate IsTimes(t: Times) { IsOptional(t.validupto) && IsOptional(t.validfrom) && IsOptional(t.expiry) }

  function FrontBytes(f: Front): seq<Byte>
    requires IsFront(f)
  {
    StringBytes(f.name) + (IntBytes(f.revision) + (IntBytes(f.marker) + StringBytes(f.spanhash)))
  }

  function ParseFront(s: seq<Byte>): (p: Parse<Front>)
    ensures p.Done? ==> |p.rest| <= |s|
  {
    match ParseString(s)
    case Undefined => Undefined
    case Done(name, s1) =>
      match ParseInt(s1)
      case Undefined => Undefined
      case Done(revision, s2) =>
        match ParseInt(s2)
        case Undefined => Undefined
        case Done(marker, s3) =>
          match ParseString(s3)
          case Undefined => Undefined
          case Done(spanhash, s4) => Done(Front(name, revision, marker, spanhash), s4)
  }

  lemma FrontInverse(f: Front, tail: seq<Byte>)
    requires IsFront(f)
    ensures ParseFront(FrontBytes(f) + tail) == Done(f, tail)
  {
    var a, b, c, d := StringBytes(f.name), IntBytes(f.revision), IntBytes(f.marker), StringBytes(f.spanhash);
    Assoc(a, b, c + d, tail);
    assert (c + d) + tail == c + (d + tail);
    StringInverse(f.name, b + (c + (d + tail)));
    IntInverse(f.revision, c + (d + tail));
    IntInverse(f.marker, d + tail);
    StringInverse(f.spanhash, tail);
  }

  function TimesBytes(t: Times): seq<Byte> {
    OptionalBytes(t.validupto) + (OptionalBytes(t.validfrom) + OptionalBytes(t.expiry))
  }

  function ParseTime(s: seq<Byte>): (p: Parse<Option<int>>)
    ensures p.Done? ==> |p.rest| < |s|
  {
    OptionalConsumes(ParseInt, s);
    ParseOptional(ParseInt, s)
  }

  function ParseTimes(s: seq<Byte>): (p: Parse<Times>)
    ensures p.Done? ==> |p.rest| <= |s|
  {
    match ParseTime(s)
    case Undefined => Undefined
    case Done(validupto, s1) =>
      match ParseTime(s1)
      case Undefined => Undefined
      case Done(validfrom, s2) =>
        match ParseTime(s2)
        case Undefined => Undefined
        case Done(expiry, s3) => Done(Times(validupto, validfrom, expiry), s3)
  }

  lemma TimesInverse(t: Times, tail: seq<Byte>)
    requires IsTimes(t)
    ensures ParseTimes(TimesBytes(t) + tail) == Done(t, tail)
  {
    var a, b, c := OptionalBytes(t.validupto), OptionalBytes(t.validfrom), OptionalBytes(t.expiry);
    Assoc(a, b, c, tail);
    OptionalInverse(t.validupto, b + (c + tail));
    OptionalInverse(t.validfrom, c + tail);
    OptionalInverse(t.expiry, tail);
  }

  /** What marshall writes for a record, field by field. */
  function RecordBytes(r: Record): seq<Byte>
    requires IsRecord(r)
  {
    FrontBytes(FrontOf(r)) + (SignaturesBytes(r.spansignatures)
      + (TimesBytes(TimesOf(r)) + ItemSetsBytes(r.itemsets)))
  }

  function SignaturesBytes(v: Vector<Signature>): seq<Byte>
    requires forall x | x in v.Elements() :: IsSignature(x)
  {
    VectorBytes(SignatureBytes, v)
  }

  function ItemSetsBytes(v: Vector<ItemSet>): seq<Byte>
    requires forall x | x in v.Elements() :: IsItemSet(x)
  {
    VectorBytes(ItemSetBytes, v)
  }

  function ParseSignatures(s: seq<Byte>): (p: Parse<Vector<Signature>>)
    ensures p.Done? ==> |p.rest| <= |s|
  {
    VectorConsumes(ParseSignature, s);
    ParseVector(ParseSignature, s)
  }

  function ParseItemSets(s: seq<Byte>): (p: Parse<Vector<ItemSet>>)
    ensures p.Done? ==> |p.rest| <= |s|
  {
    VectorConsumes(ParseItemSet, s);
    ParseVector(ParseItemSet, s)
  }

  function ParseRecord(s: seq<Byte>): (p: Parse<Record>)
    ensures p.Done? ==> |p.rest| <= |s|
  {
    match ParseFront(s)
    case Undefined => Undefined
    case Done(f, s1) =>
      match ParseSignatures(s1)
      case Undefined => Undefined
      case Done(signatures, s2) =>
        match ParseTimes(s2)
        case Undefined => Undefined
        case Done(t, s3) =>
          match ParseItemSets(s3)
          case Undefined => Undefined
          case Done(itemsets, s4) =>
            Done(Record(f.name, f.revision, f.marker, f.spanhash, signatures,
                        t.validupto, t.validfrom, t.expiry, itemsets), s4)
  }

  /** The record read back: the same, but that missing arrays have count -1. */
  function NormRecord(r: Record): Record {
    r.(spansignatures := NormVector(NormSignature, r.spansignatures),
       itemsets := NormVector(NormItemSet, r.itemsets))
  }

  lemma SignaturesInverse(v: Vector<Signature>, tail: seq<Byte>)
    requires IsVector(v) && forall x | x in v.Elements() :: IsSignature(x)
    ensures ParseSignatures(SignaturesBytes(v) + tail) == Done(NormVector(NormSignature, v), tail)
  {
    forall x | x in v.Elements()
      ensures Inverts(ParseSignature, SignatureBytes, NormSignature, x)
    {
      SignatureInverse(x);
    }
    VectorInverse(ParseSignature, SignatureBytes, NormSignature, v, tail);
  }

  lemma ItemSetsInverse(v: Vector<ItemSet>, tail: seq<Byte>)
    requires IsVector(v) && forall x | x in v.Elements() :: IsItemSet(x)
    ensures ParseItemSets(ItemSetsBytes(v) + tail) == Done(NormVector(NormItemSet, v), tail)
  {
    forall x | x in v.Elements()
      ensures Inverts(ParseItemSet, ItemSetBytes, NormItemSet, x)
    {
      ItemSetInverse(x);
    }
    VectorInverse(ParseItemSet, ItemSetBytes, NormItemSet, v, tail);
  }

  /** Reading the bytes of a record, followed by anything, gives back the record and
      leaves exactly what follows. */
  lemma RecordInverseAt(r: Record, tail: seq<Byte>)
    requires IsRecord(r)
    ensures ParseRecord(RecordBytes(r) + tail) == Done(NormRecord(r), tail)
  {
    var a, b := FrontBytes(FrontOf(r)), SignaturesBytes(r.spansignatures);
    var c, d := TimesBytes(TimesOf(r)), ItemSetsBytes(r.itemsets);
    FourParts(a, b, c, d, tail);
    FrontInverse(FrontOf(r), b + (c + (d + tail)));
    SignaturesInverse(r.spansignatures, c + (d + tail));
    TimesInverse(TimesOf(r), d + tail);
    ItemSetsInverse(r.itemsets, tail);
  }

  /** Reading back loses nothing a reader of the record could see: only the count
      beside a missing array may change, from 0 to -1. */
  lemma NothingLost(r: Record)
    requires IsRecord(r)
    ensures var n := NormRecord(r);
      && n.(spansignatures := r.spansignatures, itemsets := r.itemsets) == r
      && n.spansignatures.Elements() == r.spansignatures.Elements()
      && |n.itemsets.Elements()| == |r.itemsets.Elements()|
      && forall i | 0 <= i < |r.itemsets.Elements()| ::
           var x, y := r.itemsets.Elements()[i], n.itemsets.Elements()[i];
           y.rrtype == x.rrtype && y.items.Elements() == x.items.Elements()
  {
    assert NormRecord(r).spansignatures.Elements() == r.spansignatures.Elements();
    forall i | 0 <= i < |r.itemsets.Elements()|
      ensures NormItemSet(r.itemsets.Elements()[i]).items.Elements() == r.itemsets.Elements()[i].items.Elements()
    {
      assert IsItemSet(r.itemsets.Elements()[i]) by {
        assert r.itemsets.Elements()[i] in r.itemsets.Elements();
      }
      SameStrings(r.itemsets.Elements()[i].items);
    }
  }

  lemma SameStrings(v: Vector<Option<string>>)
    requires v.Consistent()
    ensures NormVector(NormString, v).Elements() == v.Elements()
  {
  }

  lemma FourParts(a: seq<Byte>, b: seq<Byte>, c: seq<Byte>, d: seq<Byte>, tail: seq<Byte>)
    ensures a + (b + (c + d)) + tail == a + (b + (c + (d + tail)))
  {
  }

  // ----- the layout -----

  /** The bytes of an int are its digits to the base 256, the last one first. */
  lemma IntLayout(n: int)
    ensures IntBytes(n) == [n % 0x100, n / 0x100 % 0x100, n / 0x1_0000 % 0x100, n / 0x100_0000 % 0x100]
  {
    LowByte(n);
    SecondByte(n);
    ThirdByte(n);
    HighByte(n);
  }

  lemma LowByte(n: int)
    ensures n % 0x1_0000_0000 % 0x100 == n % 0x100
  {
  }

  lemma SecondByte(n: int)
    ensures n % 0x1_0000_0000 / 0x100 % 0x100 == n / 0x100 % 0x100
  {
    var q, u := n / 0x1_0000_0000, n % 0x1_0000_0000;
    assert n / 0x100 == q * 0x100_0000 + u / 0x100;
  }

  lemma ThirdByte(n: int)
    ensures n % 0x1_0000_0000 / 0x1_0000 % 0x100 == n / 0x1_0000 % 0x100
  {
    var q, u := n / 0x1_0000_0000, n % 0x1_0000_0000;
    assert n / 0x1_0000 == q * 0x1_0000 + u / 0x1_0000;
  }

  lemma HighByte(n: int)
    ensures n % 0x1_0000_0000 / 0x100_0000 % 0x100 == n / 0x100_0000 % 0x100
  {
    var q, u := n / 0x1_0000_0000, n % 0x1_0000_0000;
    assert n / 0x100_0000 == q * 0x100 + u / 0x100_0000;
  }

  /** A small one comes first, and NULL is four bytes 255. */
  lemma SmallInt(n: int)
    ensures IntBytes(-1) == [0xff, 0xff, 0xff, 0xff]
    ensures 0 <= n < 0x100 ==> IntBytes(n) == [n, 0, 0, 0]
  {
    IntLayout(n);
    IntLayout(-1);
  }

  /** A string is its length and its characters; NULL is four bytes 255. */
  lemma StringLayout(o: Option<string>)
    requires IsString(o)
    ensures o.None? ==> StringBytes(o) == [0xff, 0xff, 0xff, 0xff]
    ensures o.Some? ==>
      && |StringBytes(o)| == 4 + |o.value|
      && StringBytes(o)[..4] == IntBytes(|o.value|)
      && forall i | 0 <= i < |o.value| :: StringBytes(o)[4 + i] == o.value[i] as int
  {
    SmallInt(-1);
  }

  /** Element i of an array comes right behind the elements before it; a missing array and a
      missing int are four bytes 255, an int that is there follows the count 1. */
  lemma ArrayLayout<T>(enc: T --> seq<Byte>, v: Vector<T>)
    requires forall x | x in v.Elements() :: enc.requires(x)
    ensures v.items.None? ==> VectorBytes(enc, v) == [0xff, 0xff, 0xff, 0xff]
    ensures v.items.Some? ==>
      && VectorBytes(enc, v) == IntBytes(v.count) + Bytes(enc, v.items.value)
      && Bytes(enc, v.items.value[..0]) == []
      && forall i | 0 <= i < |v.items.value| ::
           Bytes(enc, v.items.value[..i + 1]) == Bytes(enc, v.items.value[..i]) + enc(v.items.value[i])
  {
    SmallInt(-1);
    if v.items.Some? {
      forall i | 0 <= i < |v.items.value|
        ensures Bytes(enc, v.items.value[..i + 1]) == Bytes(enc, v.items.value[..i]) + enc(v.items.value[i])
      {
        BytesNext(enc, v.items.value, i);
      }
    }
  }

  lemma OptionalLayout(o: Option<int>)
    ensures OptionalBytes(o) == if o.None? then [0xff, 0xff, 0xff, 0xff] else [1, 0, 0, 0] + IntBytes(o.value)
  {
    SmallInt(-1);
    SmallInt(1);
  }

  /** A record is its fields in this order, each as it is written alone. */
  lemma RecordLayout(r: Record)
    requires IsRecord(r)
    ensures RecordBytes(r) ==
      StringBytes(r.name) + IntBytes(r.revision) + IntBytes(r.marker) + StringBytes(r.spanhash)
      + VectorBytes(SignatureBytes, r.spansignatures)
      + OptionalBytes(r.validupto) + OptionalBytes(r.validfrom) + OptionalBytes(r.expiry)
      + VectorBytes(ItemSetBytes, r.itemsets)
  {
    var a, b, c, d := StringBytes(r.name), IntBytes(r.revision), IntBytes(r.marker), StringBytes(r.spanhash);
    var e, i := VectorBytes(SignatureBytes, r.spansignatures), VectorBytes(ItemSetBytes, r.itemsets);
    var f, g, h := OptionalBytes(r.validupto), OptionalBytes(r.validfrom), OptionalBytes(r.expiry);
    Chained(a, b, c, d);
    Regrouped(a + b + c + d, e, f, g, h, i);
  }

  lemma Regrouped(a: seq<Byte>, e: seq<Byte>, f: seq<Byte>, g: seq<Byte>, h: seq<Byte>, i: seq<Byte>)
    ensures a + (e + ((f + (g + h)) + i)) == a + e + f + g + h + i
  {
  }

  /** So are a signature, a record set, and a record behind its pointer. */
  lemma PartsLayout(x: Signature, y: ItemSet, r: Record)
    requires IsSignature(x) && IsItemSet(y) && IsRecord(r)
    ensures SignatureBytes(x) == StringBytes(x.rr) + StringBytes(x.keylocator) + IntBytes(x.keyflags)
    ensures ItemSetBytes(y) == IntBytes(y.rrtype) + VectorBytes(StringBytes, y.items)
    ensures PointerBytes(Some(r)) == [1, 0, 0, 0] + RecordBytes(r)
    ensures PointerBytes(None) == [0xff, 0xff, 0xff, 0xff]
  {
    SmallInt(1);
    SmallInt(-1);
  }

  /** A record with another value in every field. */
  function Sample(): Record {
    Record(Some("a"), 3, 1, Some("h"), Vector(1, Some([Signature(Some("s"), Some("k"), 7)])),
           Some(2), Some(5), Some(9), Vector(1, Some([ItemSet(16, Vector(1, Some([Some("r")])))])))
  }

  lemma OneLetter(c: char)
    requires 0 < c as int < 256
    ensures IsString(Some([c])) && StringBytes(Some([c])) == [1, 0, 0, 0, c as int]
  {
    SmallInt(1);
    assert TextBytes([c]) == [c as int];
  }

  lemma OneElement<T>(enc: T --> seq<Byte>, x: T)
    requires enc.requires(x)
    ensures VectorBytes(enc, Vector(1, Some([x]))) == [1, 0, 0, 0] + enc(x)
  {
    SmallInt(1);
    assert [x][1..] == [] && Bytes(enc, [x]) == enc(x) + [] == enc(x);
  }

  lemma SampleSignatures(x: Signature)
    requires x == Signature(Some("s"), Some("k"), 7)
    ensures IsSignature(x)
    ensures VectorBytes(SignatureBytes, Vector(1, Some([x])))
         == [1, 0, 0, 0] + ([1, 0, 0, 0, 115] + ([1, 0, 0, 0, 107] + [7, 0, 0, 0]))
  {
    assert "s" == ['s'] && "k" == ['k'];
    OneLetter('s');
    OneLetter('k');
    SmallInt(7);
    assert IsSignature(x);
    OneElement(SignatureBytes, x);
  }

  lemma SampleItemSets(y: ItemSet)
    requires y == ItemSet(16, Vector(1, Some([Some("r")])))
    ensures IsItemSet(y)
    ensures VectorBytes(ItemSetBytes, Vector(1, Some([y])))
         == [1, 0, 0, 0] + ([16, 0, 0, 0] + ([1, 0, 0, 0] + [1, 0, 0, 0, 114]))
  {
    assert "r" == ['r'];
    OneLetter('r');
    SmallInt(16);
    assert IsString(Some("r")) && IsItemSet(y);
    OneElement(StringBytes, Some("r"));
    OneElement(ItemSetBytes, y);
  }

  /** Its bytes. */
  lemma SampleBytes()
    ensures IsRecord(Sample())
    ensures RecordBytes(Sample()) ==
      [1, 0, 0, 0, 97] + [3, 0, 0, 0] + [1, 0, 0, 0] + [1, 0, 0, 0, 104]
      + ([1, 0, 0, 0] + ([1, 0, 0, 0, 115] + ([1, 0, 0, 0, 107] + [7, 0, 0, 0])))
      + ([1, 0, 0, 0] + [2, 0, 0, 0]) + ([1, 0, 0, 0] + [5, 0, 0, 0]) + ([1, 0, 0, 0] + [9, 0, 0, 0])
      + ([1, 0, 0, 0] + ([16, 0, 0, 0] + ([1, 0, 0, 0] + [1, 0, 0, 0, 114])))
  {
    assert "a" == ['a'] && "h" == ['h'];
    OneLetter('a');
    OneLetter('h');
    SmallInt(3);
    SmallInt(1);
    SmallInt(2);
    SmallInt(5);
    SmallInt(9);
    SampleSignatures(Signature(Some("s"), Some("k"), 7));
    SampleItemSets(ItemSet(16, Vector(1, Some([Some("r")]))));
    RecordLayout(Sample());
  }

  // ----- a record, or the end of a list of records -----

  predicate IsPointer(o: Option<Record>) { o.Some? ==> IsRecord(o.value) }

  /** names_recordmarshall: a record, or -1 for NULL. */
  function PointerBytes(o: Option<Record>): seq<Byte>
    requires IsPointer(o)
  {
    if o.None? then IntBytes(-1) else IntBytes(1) + RecordBytes(o.value)
  }

  function ParsePointer(s: seq<Byte>): (p: Parse<Option<Record>>)
    ensures p.Done? ==> |p.rest| < |s|
  {
    OptionalConsumes(ParseRecord, s);
    ParseOptional(ParseRecord, s)
  }

  lemma OneRecord(r: Record, tail: seq<Byte>)
    requires IsRecord(r)
    ensures ParseMany(ParseRecord, 1, RecordBytes(r) + tail) == Done([NormRecord(r)], tail)
  {
    RecordInverseAt(r, tail);
    var none: seq<Record> := [];
    assert ParseMany(ParseRecord, 0, tail) == Done(none, tail) && [NormRecord(r)] + none == [NormRecord(r)];
  }

  lemma PointerInverse(o: Option<Record>, tail: seq<Byte>)
    requires IsPointer(o)
    ensures ParsePointer(PointerBytes(o) + tail)
         == Done(if o.None? then None else Some(NormRecord(o.value)), tail)
  {
    if o.None? {
      IntInverse(-1, tail);
    } else {
      var a, b := IntBytes(1), RecordBytes(o.value);
      assert PointerBytes(o) + tail == a + (b + tail);
      IntInverse(1, b + tail);
      OneRecord(o.value, tail);
      OptionalOne(ParseRecord, a + (b + tail), b + tail, NormRecord(o.value), tail);
    }
  }

  /** What names_viewpersist writes for the records of the index: nothing at all when
      there are none, else the records and a NULL. */
  function SnapshotBytes(rs: seq<Record>): seq<Byte>
    requires forall r | r in rs :: IsRecord(r)
  {
    if rs == [] then [] else ListBytes(rs)
  }

  function ListBytes(rs: seq<Record>): seq<Byte>
    requires forall r | r in rs :: IsRecord(r)
  {
    if rs == [] then PointerBytes(None) else PointerBytes(Some(rs[0])) + ListBytes(rs[1..])
  }

  /** What names_viewrestore reads: records up to the first NULL. */
  function ParseList(s: seq<Byte>): Parse<seq<Record>>
    decreases |s|
  {
    match ParsePointer(s)
    case Undefined => Undefined
    case Done(o, rest) =>
      if o.None? then Done([], rest)
      else
        match ParseList(rest)
        case Undefined => Undefined
        case Done(rs, rest') => Done([o.value] + rs, rest')
  }

  lemma {:induction false} ListInverse(rs: seq<Record>, tail: seq<Byte>)
    requires forall r | r in rs :: IsRecord(r)
    ensures ParseList(ListBytes(rs) + tail) == Done(Map(NormRecord, rs), tail)
  {
    if rs == [] {
      PointerInverse(None, tail);
    } else {
      var r, rest := rs[0], ListBytes(rs[1..]) + tail;
      ListInverse(rs[1..], tail);
      assert ListBytes(rs) + tail == PointerBytes(Some(r)) + rest;
      PointerInverse(Some(r), rest);
    }
  }

  /** A persisted index restores to the same records, whatever follows in the store,
      exactly when it is not empty. */
  lemma RestoreAfterPersist(rs: seq<Record>)
    requires forall r | r in rs :: IsRecord(r)
    ensures (forall tail :: ParseList(SnapshotBytes(rs) + tail) == Done(Map(NormRecord, rs), tail)) <==> rs != []
  {
    if rs == [] {
      assert ParseList(SnapshotBytes(rs) + []) == Undefined;
    } else {
      forall tail
        ensures ParseList(SnapshotBytes(rs) + tail) == Done(Map(NormRecord, rs), tail)
      {
        ListInverse(rs, tail);
      }
    }
  }

  // ----- the store as a stream -----

  /** What a read of a value returned and left, against its specification. */
  ghost predicate Took<T>(p: Parse<T>, o: Option<T>, rest: seq<Byte>) {
    match p
    case Undefined => o.None?
    case Done(v, r) => o == Some(v) && rest == r
  }

  /** Elements read so far, in front of what is still to be read. */
  function Prepend<T>(xs: seq<T>, p: Parse<seq<T>>): Parse<seq<T>> {
    match p
    case Undefined => Undefined
    case Done(ys, r) => Done(xs + ys, r)
  }

  lemma ManyNext<T>(parse: seq<Byte> -> Parse<T>, n: nat, s: seq<Byte>, xs: seq<T>)
    requires n > 0
    ensures Prepend(xs, ParseMany(parse, n, s)) ==
      match parse(s) case Undefined => Undefined case Done(x, r) => Prepend(xs + [x], ParseMany(parse, n - 1, r))
  {
    if parse(s).Done? && ParseMany(parse, n - 1, parse(s).rest).Done? {
      var x, ys := parse(s).value, ParseMany(parse, n - 1, parse(s).rest).value;
      assert xs + ([x] + ys) == xs + [x] + ys;
    }
  }

  /** With xs read, and n elements still to come, the whole reading gives goal. */
  ghost predicate Reading<T>(parse: seq<Byte> -> Parse<T>, n: nat, s: seq<Byte>, xs: seq<T>, goal: Parse<seq<T>>) {
    Prepend(xs, ParseMany(parse, n, s)) == goal
  }

  lemma ReadNone<T>(parse: seq<Byte> -> Parse<T>, n: nat, s: seq<Byte>)
    ensures Reading(parse, n, s, [], ParseMany(parse, n, s))
  {
    if ParseMany(parse, n, s).Done? {
      assert [] + ParseMany(parse, n, s).value == ParseMany(parse, n, s).value;
    }
  }

  lemma ReadOne<T>(parse: seq<Byte> -> Parse<T>, n: nat, m: nat, s: seq<Byte>, xs: seq<T>, goal: Parse<seq<T>>,
                   x: Option<T>, rest: seq<Byte>)
    requires n == m + 1 && Reading(parse, n, s, xs, goal) && Took(parse(s), x, rest)
    ensures x.None? ==> goal == Undefined
    ensures x.Some? ==> Reading(parse, m, rest, xs + [x.value], goal)
  {
    ManyNext(parse, n, s, xs);
  }

  lemma ReadAll<T>(parse: seq<Byte> -> Parse<T>, s: seq<Byte>, xs: seq<T>, goal: Parse<seq<T>>)
    requires Reading(parse, 0, s, xs, goal)
    ensures goal == Done(xs, s)
  {
    assert xs + [] == xs;
  }

  lemma {:induction false} BytesNext<T>(enc: T --> seq<Byte>, xs: seq<T>, i: nat)
    requires i < |xs| && forall x | x in xs :: enc.requires(x)
    ensures Bytes(enc, xs[..i + 1]) == Bytes(enc, xs[..i]) + enc(xs[i])
  {
    if i == 0 {
      assert xs[..1] == [xs[0]] && Bytes(enc, xs[..1][1..]) == [];
      assert enc(xs[0]) + [] == enc(xs[0]);
    } else {
      BytesNext(enc, xs[1..], i - 1);
      assert xs[..i + 1][1..] == xs[1..][..i] && xs[..i][1..] == xs[1..][..i - 1];
    }
  }

  /** The first i elements have been written behind base. */
  ghost predicate Writing<T>(enc: T --> seq<Byte>, xs: seq<T>, i: nat, base: seq<Byte>, data: seq<Byte>)
    requires i <= |xs| && forall x | x in xs :: enc.requires(x)
  {
    data == base + Bytes(enc, xs[..i])
  }

  lemma WriteOne<T>(enc: T --> seq<Byte>, xs: seq<T>, i: nat, base: seq<Byte>, data: seq<Byte>)
    requires i < |xs| && forall x | x in xs :: enc.requires(x)
    requires Writing(enc, xs, i, base, data)
    ensures Writing(enc, xs, i + 1, base, data + enc(xs[i]))
  {
    BytesNext(enc, xs, i);
    assert base + Bytes(enc, xs[..i]) + enc(xs[i]) == base + (Bytes(enc, xs[..i]) + enc(xs[i]));
  }

  lemma WriteAll<T>(enc: T --> seq<Byte>, v: Vector<T>, base: seq<Byte>, data: seq<Byte>)
    requires v.items.Some? && v.count == |v.items.value|
    requires forall x | x in v.Elements() :: enc.requires(x)
    requires Writing(enc, v.items.value, |v.items.value|, base + IntBytes(v.count), data)
    ensures data == base + VectorBytes(enc, v)
  {
    var xs := v.items.value;
    assert xs[..|xs|] == xs;
    assert base + IntBytes(v.count) + Bytes(enc, xs) == base + (IntBytes(v.count) + Bytes(enc, xs));
  }

  lemma ListNext(rs: seq<Record>, i: nat, data: seq<Byte>)
    requires i < |rs| && forall r | r in rs :: IsRecord(r)
    ensures data + ListBytes(rs[i..]) == data + PointerBytes(Some(rs[i])) + ListBytes(rs[i + 1..])
  {
    var rest := rs[i..];
    assert rest[0] == rs[i] && rest[1..] == rs[i + 1..];
    ListFirst(rest, rs[i], rs[i + 1..]);
    Behind2(data, PointerBytes(Some(rs[i])), ListBytes(rs[i + 1..]));
  }

  lemma ListFirst(rs: seq<Record>, r: Record, rest: seq<Record>)
    requires rs != [] && rs[0] == r && rs[1..] == rest && forall x | x in rs :: IsRecord(x)
    ensures ListBytes(rs) == PointerBytes(Some(r)) + ListBytes(rest)
  {
  }

  lemma Behind2(d: seq<Byte>, a: seq<Byte>, b: seq<Byte>)
    ensures d + (a + b) == d + a + b
  {
  }

  lemma ListNone(s: seq<Byte>)
    ensures Prepend([], ParseList(s)) == ParseList(s)
  {
    if ParseList(s).Done? {
      assert [] + ParseList(s).value == ParseList(s).value;
    }
  }

  /** One more record read from a list, or its end. */
  lemma ListRead(s: seq<Byte>, xs: seq<Record>, x: Option<Option<Record>>, rest: seq<Byte>)
    requires Took(ParsePointer(s), x, rest)
    ensures x.None? ==> ParseList(s) == Undefined
    ensures x.Some? ==> |rest| < |s|
    ensures x.Some? && x.value.None? ==> Prepend(xs, ParseList(s)) == Done(xs, rest)
    ensures x.Some? && x.value.Some? ==>
      Prepend(xs, ParseList(s)) == Prepend(xs + [x.value.value], ParseList(rest))
  {
    var p := ParsePointer(s);
    assert xs + [] == xs;
    ListUnfold(s);
    if p.Done? && p.value.Some? && ParseList(rest).Done? {
      var y, ys := p.value.value, ParseList(rest).value;
      assert xs + ([y] + ys) == xs + [y] + ys;
    }
  }

  lemma ListUnfold(s: seq<Byte>)
    ensures ParseList(s) ==
      match ParsePointer(s)
      case Undefined => Undefined
      case Done(o, rest) => if o.None? then Done([], rest) else Prepend([o.value], ParseList(rest))
  {
  }

  lemma PointerSome(r: Record, d: seq<Byte>)
    requires IsRecord(r)
    ensures d + IntBytes(1) + RecordBytes(r) == d + PointerBytes(Some(r))
  {
    var a, b := IntBytes(1), RecordBytes(r);
    assert d + a + b == d + (a + b);
  }

  lemma Chained(d: seq<Byte>, a: seq<Byte>, b: seq<Byte>, c: seq<Byte>)
    ensures d + a + b + c == d + (a + (b + c))
  {
  }

  lemma Behind(d: seq<Byte>, a: seq<Byte>, b: seq<Byte>, c: seq<Byte>, e: seq<Byte>)
    ensures d + a + b + c + e == d + (a + (b + (c + e)))
  {
  }

  class Handle {
    var data: seq<Byte>
    var pos: nat

    constructor (d: seq<Byte>)
      ensures data == d && pos == 0
    {
      data, pos := d, 0;
    }

    function Rest(): seq<Byte>
      reads this
    {
      if pos <= |data| then data[pos..] else []
    }

    /** marshallinteger, writing */
    method WriteInt(n: int)
      modifies `data
      ensures data == old(data) + IntBytes(n)
    {
      data := data + IntBytes(n);
    }

    /** marshallinteger, reading; a short read fails the assertion of the source. */
    method ReadInt() returns (o: Option<int>)
      modifies `pos
      ensures Took(ParseInt(old(Rest())), o, Rest())
    {
      match ParseInt(Rest()) {
        case Undefined => o := None;
        case Done(n, rest) => o := Some(n); pos := pos + 4;
      }
    }

    /** marshallstring and marshallldnsrr, writing */
    method WriteString(t: Option<string>)
      requires IsString(t)
      modifies `data
      ensures data == old(data) + StringBytes(t)
    {
      if t.Some? {
        WriteInt(|t.value|);
        data := data + TextBytes(t.value);
        assert old(data) + IntBytes(|t.value|) + TextBytes(t.value) == old(data) + StringBytes(t);
      } else {
        WriteInt(-1);
      }
    }

    /** marshallstring and marshallldnsrr, reading */
    method ReadString() returns (o: Option<Option<string>>)
      modifies `pos
      ensures Took(ParseString(old(Rest())), o, Rest())
    {
      var len := ReadInt();
      if len.None? {
        return None;
      }
      if len.value < 0 {
        return Some(None);
      }
      if |Rest()| < len.value {
        return None;
      }
      o := Some(Some(TextOf(Rest()[..len.value])));
      pos := pos + len.value;
    }

    /** marshalling of an optional int, writing */
    method WriteOptional(t: Option<int>)
      modifies `data
      ensures data == old(data) + OptionalBytes(t)
    {
      if t.Some? {
        WriteInt(1);
        WriteInt(t.value);
        assert old(data) + IntBytes(1) + IntBytes(t.value) == old(data) + OptionalBytes(t);
      } else {
        WriteInt(-1);
      }
    }

    /** The loop that reads a given number of ints. */
    method ReadInts(n: nat, ghost goal: Parse<seq<int>>) returns (o: Option<seq<int>>)
      requires Reading(ParseInt, n, Rest(), [], goal)
      modifies `pos
      ensures Took(goal, o, Rest())
    {
      var i, xs := 0, [];
      ghost var left := n;
      while i < n
        invariant 0 <= i <= n && left == n - i
        invariant Reading(ParseInt, left, Rest(), xs, goal)
      {
        ghost var was := Rest();
        var x := ReadInt();
        ghost var next := left - 1;
        ReadOne(ParseInt, left, next, was, xs, goal, x, Rest());
        if x.None? {
          return None;
        }
        xs := xs + [x.value];
        i, left := i + 1, next;
      }
      ReadAll(ParseInt, Rest(), xs, goal);
      o := Some(xs);
    }

    /** marshalling of an optional int, reading */
    method ReadOptional() returns (o: Option<Option<int>>)
      modifies `pos
      ensures Took(ParseTime(old(Rest())), o, Rest())
    {
      var count := ReadInt();
      if count.None? {
        return None;
      }
      if count.value < 0 {
        return Some(None);
      }
      ReadNone(ParseInt, count.value, Rest());
      var xs := ReadInts(count.value, ParseMany(ParseInt, count.value, Rest()));
      o := if xs.None? || count.value == 0 then None else Some(Some(xs.value[0]));
    }

    // ----- the parts of a record -----

    method WriteSignature(x: Signature)
      requires IsSignature(x)
      modifies `data
      ensures data == old(data) + SignatureBytes(x)
    {
      WriteString(x.rr);
      WriteString(x.keylocator);
      WriteInt(x.keyflags);
      Chained(old(data), StringBytes(x.rr), StringBytes(x.keylocator), IntBytes(x.keyflags));
    }

    method ReadSignature() returns (o: Option<Signature>)
      modifies `pos
      ensures Took(ParseSignature(old(Rest())), o, Rest())
    {
      var rr := ReadString();
      if rr.None? {
        return None;
      }
      var keylocator := ReadString();
      if keylocator.None? {
        return None;
      }
      var keyflags := ReadInt();
      o := if keyflags.None? then None else Some(Signature(rr.value, keylocator.value, keyflags.value));
    }

    method NextSignature(ghost n: nat, ghost m: nat, ghost xs: seq<Signature>, ghost goal: Parse<seq<Signature>>)
      returns (x: Option<Signature>)
      requires n == m + 1 && Reading(ParseSignature, n, Rest(), xs, goal)
      modifies `pos
      ensures x.None? ==> goal == Undefined
      ensures x.Some? ==> Reading(ParseSignature, m, Rest(), xs + [x.value], goal)
    {
      ghost var was := Rest();
      x := ReadSignature();
      ReadOne(ParseSignature, n, m, was, xs, goal, x, Rest());
    }

    /** The loop that reads a given number of signatures. */
    method ReadSignatureList(n: nat, ghost goal: Parse<seq<Signature>>) returns (o: Option<seq<Signature>>)
      requires Reading(ParseSignature, n, Rest(), [], goal)
      modifies `pos
      ensures Took(goal, o, Rest())
    {
      var i, xs := 0, [];
      ghost var left := n;
      while i < n
        invariant 0 <= i <= n && left == n - i
        invariant Reading(ParseSignature, left, Rest(), xs, goal)
      {
        ghost var next := left - 1;
        var x := NextSignature(left, next, xs, goal);
        if x.None? {
          return None;
        }
        xs := xs + [x.value];
        i, left := i + 1, next;
      }
      ReadAll(ParseSignature, Rest(), xs, goal);
      o := Some(xs);
    }

    method ReadSignatures() returns (o: Option<Vector<Signature>>)
      modifies `pos
      ensures Took(ParseSignatures(old(Rest())), o, Rest())
    {
      var count := ReadInt();
      if count.None? {
        return None;
      }
      if count.value < 0 {
        return Some(Vector(count.value, None));
      }
      ReadNone(ParseSignature, count.value, Rest());
      var xs := ReadSignatureList(count.value, ParseMany(ParseSignature, count.value, Rest()));
      o := if xs.None? then None else Some(Vector(count.value, xs));
    }

    /** the span signatures, writing */
    method WriteSignatures(v: Vector<Signature>)
      requires IsVector(v) && forall x | x in v.Elements() :: IsSignature(x)
      modifies `data
      ensures data == old(data) + SignaturesBytes(v)
    {
      if v.items.None? {
        WriteInt(-1);
        return;
      }
      WriteInt(v.count);
      var i := 0;
      while i < v.count
        invariant 0 <= i <= v.count
        invariant Writing(SignatureBytes, v.items.value, i, old(data) + IntBytes(v.count), data)
      {
        WriteOne(SignatureBytes, v.items.value, i, old(data) + IntBytes(v.count), data);
        WriteSignature(v.items.value[i]);
        i := i + 1;
      }
      WriteAll(SignatureBytes, v, old(data), data);
    }

    /** The loop that reads a given number of resource records. */
    method ReadStringList(n: nat, ghost goal: Parse<seq<Option<string>>>) returns (o: Option<seq<Option<string>>>)
      requires Reading(ParseString, n, Rest(), [], goal)
      modifies `pos
      ensures Took(goal, o, Rest())
    {
      var i, xs := 0, [];
      ghost var left := n;
      while i < n
        invariant 0 <= i <= n && left == n - i
        invariant Reading(ParseString, left, Rest(), xs, goal)
      {
        ghost var was := Rest();
        var x := ReadString();
        ghost var next := left - 1;
        ReadOne(ParseString, left, next, was, xs, goal, x, Rest());
        if x.None? {
          return None;
        }
        xs := xs + [x.value];
        i, left := i + 1, next;
      }
      ReadAll(ParseString, Rest(), xs, goal);
      o := Some(xs);
    }

    method ReadItems() returns (o: Option<Vector<Option<string>>>)
      modifies `pos
      ensures Took(ParseItems(old(Rest())), o, Rest())
    {
      var count := ReadInt();
      if count.None? {
        return None;
      }
      if count.value < 0 {
        return Some(Vector(count.value, None));
      }
      ReadNone(ParseString, count.value, Rest());
      var xs := ReadStringList(count.value, ParseMany(ParseString, count.value, Rest()));
      o := if xs.None? then None else Some(Vector(count.value, xs));
    }

    /** the items of a record set, writing */
    method WriteItems(v: Vector<Option<string>>)
      requires IsVector(v) && forall x | x in v.Elements() :: IsString(x)
      modifies `data
      ensures data == old(data) + VectorBytes(StringBytes, v)
    {
      if v.items.None? {
        WriteInt(-1);
        return;
      }
      WriteInt(v.count);
      var i := 0;
      while i < v.count
        invariant 0 <= i <= v.count
        invariant Writing(StringBytes, v.items.value, i, old(data) + IntBytes(v.count), data)
      {
        WriteOne(StringBytes, v.items.value, i, old(data) + IntBytes(v.count), data);
        WriteString(v.items.value[i]);
        i := i + 1;
      }
      WriteAll(StringBytes, v, old(data), data);
    }

    method WriteItemSet(x: ItemSet)
      requires IsItemSet(x)
      modifies `data
      ensures data == old(data) + ItemSetBytes(x)
    {
      WriteInt(x.rrtype);
      WriteItems(x.items);
      assert old(data) + IntBytes(x.rrtype) + VectorBytes(StringBytes, x.items) == old(data) + ItemSetBytes(x);
    }

    method ReadItemSet() returns (o: Option<ItemSet>)
      modifies `pos
      ensures Took(ParseItemSet(old(Rest())), o, Rest())
    {
      var rrtype := ReadInt();
      if rrtype.None? {
        return None;
      }
      var items := ReadItems();
      o := if items.None? then None else Some(ItemSet(rrtype.value, items.value));
    }

    /** One round of the loop over record sets. */
    method NextItemSet(ghost n: nat, ghost m: nat, ghost xs: seq<ItemSet>, ghost goal: Parse<seq<ItemSet>>)
      returns (x: Option<ItemSet>)
      requires n == m + 1 && Reading(ParseItemSet, n, Rest(), xs, goal)
      modifies `pos
      ensures x.None? ==> goal == Undefined
      ensures x.Some? ==> Reading(ParseItemSet, m, Rest(), xs + [x.value], goal)
    {
      ghost var was := Rest();
      x := ReadItemSet();
      ReadOne(ParseItemSet, n, m, was, xs, goal, x, Rest());
    }

    /** The loop that reads a given number of record sets. */
    method ReadItemSetList(n: nat, ghost goal: Parse<seq<ItemSet>>) returns (o: Option<seq<ItemSet>>)
      requires Reading(ParseItemSet, n, Rest(), [], goal)
      modifies `pos
      ensures Took(goal, o, Rest())
    {
      var i, xs := 0, [];
      ghost var left := n;
      while i < n
        invariant 0 <= i <= n && left == n - i
        invariant Reading(ParseItemSet, left, Rest(), xs, goal)
      {
        ghost var next := left - 1;
        var x := NextItemSet(left, next, xs, goal);
        if x.None? {
          return None;
        }
        xs := xs + [x.value];
        i, left := i + 1, next;
      }
      ReadAll(ParseItemSet, Rest(), xs, goal);
      o := Some(xs);
    }

    method ReadItemSets() returns (o: Option<Vector<ItemSet>>)
      modifies `pos
      ensures Took(ParseItemSets(old(Rest())), o, Rest())
    {
      var count := ReadInt();
      if count.None? {
        return None;
      }
      if count.value < 0 {
        return Some(Vector(count.value, None));
      }
      ReadNone(ParseItemSet, count.value, Rest());
      var xs := ReadItemSetList(count.value, ParseMany(ParseItemSet, count.value, Rest()));
      o := if xs.None? then None else Some(Vector(count.value, xs));
    }

    /** the record sets, writing */
    method WriteItemSets(v: Vector<ItemSet>)
      requires IsVector(v) && forall x | x in v.Elements() :: IsItemSet(x)
      modifies `data
      ensures data == old(data) + ItemSetsBytes(v)
    {
      if v.items.None? {
        WriteInt(-1);
        return;
      }
      WriteInt(v.count);
      var i := 0;
      while i < v.count
        invariant 0 <= i <= v.count
        invariant Writing(ItemSetBytes, v.items.value, i, old(data) + IntBytes(v.count), data)
      {
        WriteOne(ItemSetBytes, v.items.value, i, old(data) + IntBytes(v.count), data);
        WriteItemSet(v.items.value[i]);
        i := i + 1;
      }
      WriteAll(ItemSetBytes, v, old(data), data);
    }

    method WriteFront(f: Front)
      requires IsFront(f)
      modifies `data
      ensures data == old(data) + FrontBytes(f)
    {
      WriteString(f.name);
      WriteInt(f.revision);
      WriteInt(f.marker);
      WriteString(f.spanhash);
      Behind(old(data), StringBytes(f.name), IntBytes(f.revision), IntBytes(f.marker), StringBytes(f.spanhash));
    }

    method ReadFront() returns (o: Option<Front>)
      modifies `pos
      ensures Took(ParseFront(old(Rest())), o, Rest())
    {
      var name := ReadString();
      if name.None? {
        return None;
      }
      var revision := ReadInt();
      if revision.None? {
        return None;
      }
      var marker := ReadInt();
      if marker.None? {
        return None;
      }
      var spanhash := ReadString();
      o := if spanhash.None? then None
           else Some(Front(name.value, revision.value, marker.value, spanhash.value));
    }

    method WriteTimes(t: Times)
      modifies `data
      ensures data == old(data) + TimesBytes(t)
    {
      WriteOptional(t.validupto);
      WriteOptional(t.validfrom);
      WriteOptional(t.expiry);
      Chained(old(data), OptionalBytes(t.validupto), OptionalBytes(t.validfrom), OptionalBytes(t.expiry));
    }

    method ReadTimes() returns (o: Option<Times>)
      modifies `pos
      ensures Took(ParseTimes(old(Rest())), o, Rest())
    {
      var validupto := ReadOptional();
      if validupto.None? {
        return None;
      }
      var validfrom := ReadOptional();
      if validfrom.None? {
        return None;
      }
      var expiry := ReadOptional();
      o := if expiry.None? then None else Some(Times(validupto.value, validfrom.value, expiry.value));
    }

    /** marshall, writing */
    method WriteRecord(r: Record)
      requires IsRecord(r)
      modifies `data
      ensures data == old(data) + RecordBytes(r)
    {
      WriteFront(FrontOf(r));
      WriteSignatures(r.spansignatures);
      WriteTimes(TimesOf(r));
      WriteItemSets(r.itemsets);
      Behind(old(data), FrontBytes(FrontOf(r)), SignaturesBytes(r.spansignatures), TimesBytes(TimesOf(r)),
             ItemSetsBytes(r.itemsets));
    }

    /** marshall, reading */
    method ReadRecord() returns (o: Option<Record>)
      modifies `pos
      ensures Took(ParseRecord(old(Rest())), o, Rest())
    {
      var f := ReadFront();
      if f.None? {
        return None;
      }
      var signatures := ReadSignatures();
      if signatures.None? {
        return None;
      }
      var t := ReadTimes();
      if t.None? {
        return None;
      }
      var itemsets := ReadItemSets();
      o := if itemsets.None? then None
           else Some(Record(f.value.name, f.value.revision, f.value.marker, f.value.spanhash, signatures.value,
                            t.value.validupto, t.value.validfrom, t.value.expiry, itemsets.value));
    }

    method NextRecord(ghost n: nat, ghost m: nat, ghost xs: seq<Record>, ghost goal: Parse<seq<Record>>)
      returns (x: Option<Record>)
      requires n == m + 1 && Reading(ParseRecord, n, Rest(), xs, goal)
      modifies `pos
      ensures x.None? ==> goal == Undefined
      ensures x.Some? ==> Reading(ParseRecord, m, Rest(), xs + [x.value], goal)
    {
      ghost var was := Rest();
      x := ReadRecord();
      ReadOne(ParseRecord, n, m, was, xs, goal, x, Rest());
    }

    /** The loop that reads a given number of records. */
    method ReadRecordList(n: nat, ghost goal: Parse<seq<Record>>) returns (o: Option<seq<Record>>)
      requires Reading(ParseRecord, n, Rest(), [], goal)
      modifies `pos
      ensures Took(goal, o, Rest())
    {
      var i, xs := 0, [];
      ghost var left := n;
      while i < n
        invariant 0 <= i <= n && left == n - i
        invariant Reading(ParseRecord, left, Rest(), xs, goal)
      {
        ghost var next := left - 1;
        var x := NextRecord(left, next, xs, goal);
        if x.None? {
          return None;
        }
        xs := xs + [x.value];
        i, left := i + 1, next;
      }
      ReadAll(ParseRecord, Rest(), xs, goal);
      o := Some(xs);
    }

    /** names_recordmarshall, writing; None stands for NULL. */
    method WritePointer(r: Option<Record>)
      requires IsPointer(r)
      modifies `data
      ensures data == old(data) + PointerBytes(r)
    {
      if r.None? {
        WriteInt(-1);
      } else {
        WriteInt(1);
        WriteRecord(r.value);
        PointerSome(r.value, old(data));
      }
    }

    /** names_recordmarshall, reading */
    method ReadPointer() returns (o: Option<Option<Record>>)
      modifies `pos
      ensures Took(ParsePointer(old(Rest())), o, Rest())
    {
      var count := ReadInt();
      if count.None? {
        return None;
      }
      if count.value < 0 {
        return Some(None);
      }
      ReadNone(ParseRecord, count.value, Rest());
      var xs := ReadRecordList(count.value, ParseMany(ParseRecord, count.value, Rest()));
      o := if xs.None? || count.value == 0 then None else Some(Some(xs.value[0]));
    }

    /** The writing loop of names_viewpersist over the records of the index, and of
        persistfn over the records of a change log. */
    method WriteList(rs: seq<Record>)
      requires forall r | r in rs :: IsRecord(r)
      modifies `data
      ensures data == old(data) + ListBytes(rs)
    {
      var i := 0;
      assert rs[0..] == rs;
      while i < |rs|
        invariant 0 <= i <= |rs|
        invariant data + ListBytes(rs[i..]) == old(data) + ListBytes(rs)
      {
        ListNext(rs, i, data);
        WritePointer(Some(rs[i]));
        i := i + 1;
      }
      assert rs[i..] == [];
      WritePointer(None);
    }

    /** names_viewpersist: an empty index writes nothing. */
    method WriteSnapshot(rs: seq<Record>)
      requires forall r | r in rs :: IsRecord(r)
      modifies `data
      ensures data == old(data) + SnapshotBytes(rs)
    {
      if rs != [] {
        WriteList(rs);
      }
    }

    /** names_viewrestore: the records inserted in the base index, in order. */
    method ReadList() returns (o: Option<seq<Record>>)
      modifies `pos
      ensures Took(ParseList(old(Rest())), o, Rest())
    {
      var xs := [];
      ghost var goal := ParseList(Rest());
      ListNone(Rest());
      while true
        invariant Prepend(xs, ParseList(Rest())) == goal
        decreases |Rest()|
      {
        ghost var was := Rest();
        var x := ReadPointer();
        ListRead(was, xs, x, Rest());
        if x.None? {
          return None;
        }
        if x.value.None? {
          return Some(xs);
        }
        xs := xs + [x.value.value];
      }
    }
  }

  /** names_viewpersist followed by anything else written to the store, and then
      names_viewrestore: the records of the index come back, and the rest of the store is
      left unread. */
  method PersistThenRestore(rs: seq<Record>, later: seq<Byte>) returns (o: Option<seq<Record>>, rest: seq<Byte>)
    requires forall r | r in rs :: IsRecord(r)
    ensures rs != [] ==> o == Some(Map(NormRecord, rs)) && rest == later
    ensures rs == [] && later == [] ==> o == None
  {
    var h := new Handle([]);
    h.WriteSnapshot(rs);
    h.data := h.data + later;
    Ahead([], SnapshotBytes(rs), later);
    SnapshotRestored(rs, later);
    o := h.ReadList();
    rest := h.Rest();
  }

  lemma SnapshotRestored(rs: seq<Record>, later: seq<Byte>)
    requires forall r | r in rs :: IsRecord(r)
    ensures var p := ParseList(SnapshotBytes(rs) + later);
      (rs != [] ==> p == Done(Map(NormRecord, rs), later)) && (rs == [] && later == [] ==> p == Undefined)
  {
    if rs != [] {
      ListInverse(rs, later);
    }
  }

  lemma Ahead(a: seq<Byte>, b: seq<Byte>, c: seq<Byte>)
    ensures (a + b + c)[|a|..] == b + c && [] + b + c == b + c && (b + c)[0..] == b + c
  {
  }

  /** One record, or NULL, written and read back in the same stream: what is behind it is
      left, whether it was written before or after. */
  method WriteThenRead(h: Handle, r: Option<Record>, later: seq<Byte>) returns (o: Option<Option<Record>>)
    requires IsPointer(r) && h.pos == |h.data|
    modifies h
    ensures o == Some(if r.None? then None else Some(NormRecord(r.value)))
    ensures h.data == old(h.data) + PointerBytes(r) + later && h.Rest() == later
  {
    ghost var before := h.data;
    h.WritePointer(r);
    h.data := h.data + later;
    Ahead(before, PointerBytes(r), later);
    PointerInverse(r, later);
    o := h.ReadPointer();
  }
}
