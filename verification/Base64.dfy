/**
 b64_pton.c: the base64 decoder, against the canonical encoding of sections 4 and
 3.5 of RFC 4648.
 */
module Base64 {
  import opened Common
  import opened Bits

  type Byte = x: int | 0 <= x < 256
  type Sextet = x: int | 0 <= x < 64

  // ----- the alphabet -----

  const ALPHABET := "ABCDEFGHIJKLMNOPQRSTUVWXYZ" + "abcdefghijklmnopqrstuvwxyz" + "0123456789" + "+/"

  /** Digit v of the alphabet. */
  function Digit(v: Sextet): char {
    if v < 26 then 'A' + v as char
    else if v < 52 then 'a' + (v - 26) as char
    else if v < 62 then '0' + (v - 52) as char
    else if v == 62 then '+' else '/'
  }

  lemma AlphabetIsDigits(i: Sextet)
    ensures |ALPHABET| == 64 && ALPHABET[i] == Digit(i)
  {
  }

  /** What a character means in a base64 text. */
  datatype Symbol = Dig(v: Sextet) | Pad | Bad

  function SymbolOf(c: char): (s: Symbol)
    ensures s != Bad ==> CharOf(s) == c
  {
    if 'A' <= c <= 'Z' then Dig(c as int - 'A' as int)
    else if 'a' <= c <= 'z' then Dig(c as int - 'a' as int + 26)
    else if '0' <= c <= '9' then Dig(c as int - '0' as int + 52)
    else if c == '+' then Dig(62) else if c == '/' then Dig(63)
    else if c == '=' then Pad else Bad
  }

  function CharOf(s: Symbol): char
    requires s != Bad
  {
    if s == Pad then '=' else Digit(s.v)
  }

  lemma SymbolOfChar(s: Symbol)
    requires s != Bad
    ensures SymbolOf(CharOf(s)) == s
  {
  }

  function Symbols(t: string): (s: seq<Symbol>)
    ensures |s| == |t|
  {
    seq(|t|, i requires 0 <= i < |t| => SymbolOf(t[i]))
  }

  predicate Clean(s: seq<Symbol>) {
    forall i | 0 <= i < |s| :: s[i] != Bad
  }

  function Render(s: seq<Symbol>): string
    requires Clean(s)
  {
    seq(|s|, i requires 0 <= i < |s| => CharOf(s[i]))
  }

  /** Text and symbols correspond one to one, when no character is bad. */
  lemma SymbolsRender(t: string, s: seq<Symbol>)
    requires Clean(s)
    ensures Symbols(t) == s <==> t == Render(s)
  {
    if Symbols(t) == s {
      forall i | 0 <= i < |t|
        ensures t[i] == Render(s)[i]
      {
        assert SymbolOf(t[i]) == s[i];
      }
    }
    if t == Render(s) {
      forall i | 0 <= i < |t|
        ensures Symbols(t)[i] == s[i]
      {
        SymbolOfChar(s[i]);
      }
    }
  }

  // ----- three bytes as four digit values -----

  function Byte0(v0: Sextet, v1: Sextet): Byte { v0 * 4 + v1 / 16 }
  function Byte1(v1: Sextet, v2: Sextet): Byte { v1 % 16 * 16 + v2 / 4 }
  function Byte2(v2: Sextet, v3: Sextet): Byte { v2 % 4 * 64 + v3 }

  function Sextet0(b0: Byte): Sextet { b0 / 4 }
  function Sextet1(b0: Byte, b1: Byte): Sextet { b0 % 4 * 16 + b1 / 16 }
  function Sextet2(b1: Byte, b2: Byte): Sextet { b1 % 16 * 4 + b2 / 64 }
  function Sextet3(b2: Byte): Sextet { b2 % 64 }

  lemma PackUnpack(b0: Byte, b1: Byte, b2: Byte)
    ensures Byte0(Sextet0(b0), Sextet1(b0, b1)) == b0
    ensures Byte1(Sextet1(b0, b1), Sextet2(b1, b2)) == b1
    ensures Byte2(Sextet2(b1, b2), Sextet3(b2)) == b2
  {
  }

  /** The bits that fill up a last group are zero. */
  lemma PackUnpackLast(b0: Byte, b1: Byte)
    ensures Byte0(Sextet0(b0), Sextet1(b0, 0)) == b0 && Sextet1(b0, 0) % 16 == 0
    ensures Byte0(Sextet0(b0), Sextet1(b0, b1)) == b0
    ensures Byte1(Sextet1(b0, b1), Sextet2(b1, 0)) == b1 && Sextet2(b1, 0) % 4 == 0
  {
  }

  lemma UnpackPack(v0: Sextet, v1: Sextet, v2: Sextet, v3: Sextet)
    ensures Sextet0(Byte0(v0, v1)) == v0
    ensures Sextet1(Byte0(v0, v1), Byte1(v1, v2)) == v1
    ensures Sextet2(Byte1(v1, v2), Byte2(v2, v3)) == v2
    ensures Sextet3(Byte2(v2, v3)) == v3
    ensures v1 % 16 == 0 ==> Sextet1(Byte0(v0, v1), 0) == v1
    ensures v2 % 4 == 0 ==> Sextet2(Byte1(v1, v2), 0) == v2
  {
  }

  // ----- the encoding -----

  function EncodeGroup(b0: Byte, b1: Byte, b2: Byte): seq<Symbol> {
    [Dig(Sextet0(b0)), Dig(Sextet1(b0, b1)), Dig(Sextet2(b1, b2)), Dig(Sextet3(b2))]
  }

  /** RFC 4648 section 4: three bytes become four digits; a last group of one or two
      bytes is completed with zero bits and padding. */
  function Encode(b: seq<Byte>): seq<Symbol> {
    if b == [] then []
    else if |b| == 1 then [Dig(Sextet0(b[0])), Dig(Sextet1(b[0], 0)), Pad, Pad]
    else if |b| == 2 then [Dig(Sextet0(b[0])), Dig(Sextet1(b[0], b[1])), Dig(Sextet2(b[1], 0)), Pad]
    else EncodeGroup(b[0], b[1], b[2]) + Encode(b[3..])
  }

  predicate WholeGroup(t: seq<Symbol>) {
    |t| >= 4 && t[0].Dig? && t[1].Dig? && t[2].Dig? && t[3].Dig?
  }

  /** The three bytes of a whole group. */
  function Group(t: seq<Symbol>): seq<Byte>
    requires WholeGroup(t)
  {
    [Byte0(t[0].v, t[1].v), Byte1(t[1].v, t[2].v), Byte2(t[2].v, t[3].v)]
  }

  /** The bytes of a last group with padding; RFC 4648 section 3.5: the bits that
      belong to no byte must be zero. */
  function LastGroup(t: seq<Symbol>): Option<seq<Byte>> {
    if |t| != 4 || !t[0].Dig? || !t[1].Dig? || t[3] != Pad then None
    else if t[2] == Pad then
      if t[1].v % 16 == 0 then Some([Byte0(t[0].v, t[1].v)]) else None
    else if t[2].Dig? && t[2].v % 4 == 0 then
      Some([Byte0(t[0].v, t[1].v), Byte1(t[1].v, t[2].v)])
    else None
  }

  function Decode(t: seq<Symbol>): Option<seq<Byte>> {
    if t == [] then Some([])
    else if WholeGroup(t) then
      match Decode(t[4..])
      case None => None
      case Some(rest) => Some(Group(t) + rest)
    else LastGroup(t)
  }

  lemma WholeForth(b0: Byte, b1: Byte, b2: Byte, rest: seq<Symbol>)
    ensures var t := EncodeGroup(b0, b1, b2) + rest;
      WholeGroup(t) && Group(t) == [b0, b1, b2] && t[4..] == rest
  {
    PackUnpack(b0, b1, b2);
  }

  lemma LastForth(b0: Byte, b1: Byte)
    ensures Decode([Dig(Sextet0(b0)), Dig(Sextet1(b0, 0)), Pad, Pad]) == Some([b0])
    ensures Decode([Dig(Sextet0(b0)), Dig(Sextet1(b0, b1)), Dig(Sextet2(b1, 0)), Pad]) == Some([b0, b1])
  {
    PackUnpackLast(b0, b1);
  }

  lemma DecodeWhole(b0: Byte, b1: Byte, b2: Byte, u: seq<Symbol>, rest: seq<Byte>)
    requires Decode(u) == Some(rest)
    ensures Decode(EncodeGroup(b0, b1, b2) + u) == Some([b0, b1, b2] + rest)
  {
    WholeForth(b0, b1, b2, u);
  }

  /** Decoding inverts encoding. */
  lemma {:induction false} DecodeEncode(b: seq<Byte>)
    ensures Decode(Encode(b)) == Some(b)
  {
    if |b| >= 3 {
      var t := Encode(b);
      DecodeEncode(b[3..]);
      DecodeWhole(b[0], b[1], b[2], Encode(b[3..]), b[3..]);
      assert [b[0], b[1], b[2]] + b[3..] == b;
    } else if |b| == 2 {
      LastForth(b[0], b[1]);
      assert b == [b[0], b[1]];
    } else if |b| == 1 {
      LastForth(b[0], b[0]);
      assert b == [b[0]];
    }
  }

  lemma WholeBack(t: seq<Symbol>)
    requires WholeGroup(t)
    ensures EncodeGroup(Group(t)[0], Group(t)[1], Group(t)[2]) == t[..4]
  {
    UnpackPack(t[0].v, t[1].v, t[2].v, t[3].v);
  }

  lemma LastBack(t: seq<Symbol>)
    requires LastGroup(t).Some?
    ensures Encode(LastGroup(t).value) == t
  {
    UnpackPack(t[0].v, t[1].v, if t[2].Dig? then t[2].v else 0, 0);
    assert t == [t[0], t[1], t[2], t[3]];
  }

  /** Encoding inverts decoding: only canonical texts are accepted. */
  lemma {:induction false} EncodeDecode(t: seq<Symbol>)
    requires Decode(t).Some?
    ensures Encode(Decode(t).value) == t
  {
    if WholeGroup(t) {
      EncodeDecode(t[4..]);
      WholeBack(t);
      var rest := Decode(t[4..]).value;
      assert (Group(t) + rest)[3..] == rest;
      assert t == t[..4] + t[4..];
    } else if t != [] {
      LastBack(t);
    }
  }

  lemma {:induction false} EncodeClean(b: seq<Byte>)
    ensures Clean(Encode(b))
  {
    if |b| >= 3 {
      EncodeClean(b[3..]);
    }
  }

  /** The canonical text of a byte string. */
  function EncodeText(b: seq<Byte>): string {
    EncodeClean(b);
    Render(Encode(b))
  }

  /** A text decodes to b exactly when it is the canonical encoding of b. */
  lemma Canonical(t: string, b: seq<Byte>)
    ensures Decode(Symbols(t)) == Some(b) <==> t == EncodeText(b)
  {
    EncodeClean(b);
    DecodeEncode(b);
    if Decode(Symbols(t)).Some? {
      EncodeDecode(Symbols(t));
    }
    SymbolsRender(t, Encode(b));
  }

  /** The number with these digits to the given base. */
  function Bits24(d3: int, base: int, d2: int, d1: int, d0: int): int {
    ((d3 * base + d2) * base + d1) * base + d0
  }

  /** The k-th three bytes and the k-th four digits are the same 24 bits, the first byte and the
      first digit being the highest. */
  lemma {:induction false} EncodeBits(b: seq<Byte>, k: nat)
    requires 3 * k + 3 <= |b|
    ensures 4 * k + 4 <= |Encode(b)|
    ensures var e := Encode(b)[4 * k..4 * k + 4];
      && e[0].Dig? && e[1].Dig? && e[2].Dig? && e[3].Dig?
      && Bits24(e[0].v, 0x40, e[1].v, e[2].v, e[3].v) == Bits24(0, 0x100, b[3 * k], b[3 * k + 1], b[3 * k + 2])
  {
    if k == 0 {
      SameBits(b[0], b[1], b[2]);
    } else {
      EncodeBits(b[3..], k - 1);
      assert Encode(b)[4 * k..4 * k + 4] == Encode(b[3..])[4 * (k - 1)..4 * (k - 1) + 4];
    }
  }

  lemma SameBits(b0: Byte, b1: Byte, b2: Byte)
    ensures Bits24(Sextet0(b0), 0x40, Sextet1(b0, b1), Sextet2(b1, b2), Sextet3(b2)) == Bits24(0, 0x100, b0, b1, b2)
  {
  }

  /** RFC 4648, section 10: "foob", "fooba" and "foobar" are encoded like this. */
  lemma TestVectors()
    ensures EncodeText([102, 111, 111, 98]) == "Zm9vYg=="
    ensures EncodeText([102, 111, 111, 98, 97]) == "Zm9vYmE="
    ensures EncodeText([102, 111, 111, 98, 97, 114]) == "Zm9vYmFy"
  {
    var foo := [Dig(25), Dig(38), Dig(61), Dig(47)];
    assert Encode([102, 111, 111, 98]) == foo + [Dig(24), Dig(32), Pad, Pad] by {
      assert [102, 111, 111, 98][3..] == [98];
    }
    assert Encode([102, 111, 111, 98, 97]) == foo + [Dig(24), Dig(38), Dig(4), Pad] by {
      assert [102, 111, 111, 98, 97][3..] == [98, 97];
    }
    assert Encode([102, 111, 111, 98, 97, 114]) == foo + [Dig(24), Dig(38), Dig(5), Dig(50)] by {
      assert [102, 111, 111, 98, 97, 114][3..] == [98, 97, 114];
      assert [98, 97, 114][3..] == [];
    }
  }

  // ----- decoding digit by digit -----

  predicate AllDigits(t: seq<Symbol>) {
    forall i | 0 <= i < |t| :: t[i].Dig?
  }

  /** Whole groups of digits, and the bytes they stand for. */
  predicate Whole(w: seq<Symbol>) {
    w == [] || (WholeGroup(w) && Whole(w[4..]))
  }

  function Bytes(w: seq<Symbol>): seq<Byte>
    requires Whole(w)
  {
    if w == [] then [] else Group(w) + Bytes(w[4..])
  }

  lemma {:induction false} BytesLength(w: seq<Symbol>)
    requires Whole(w)
    ensures |Bytes(w)| % 3 == 0
  {
    if w != [] {
      BytesLength(w[4..]);
      RoomSum(3, |Bytes(w[4..])|);
    }
  }

  lemma RoomSum(n: nat, m: nat)
    requires n % 3 == 0
    ensures (n + m) % 3 == m % 3
  {
  }

  lemma {:induction false} BytesAppend(w: seq<Symbol>, g: seq<Symbol>)
    requires Whole(w) && WholeGroup(g) && |g| == 4
    ensures Whole(w + g) && Bytes(w + g) == Bytes(w) + Group(g)
  {
    if w == [] {
      assert w + g == g && g[4..] == [];
    } else {
      BytesAppend(w[4..], g);
      assert (w + g)[4..] == w[4..] + g;
      assert Group(w + g) == Group(w);
    }
  }

  /** Whole groups decode on their own. */
  lemma {:induction false} DecodePrefix(w: seq<Symbol>, u: seq<Symbol>)
    requires Whole(w)
    ensures Decode(w + u) == match Decode(u) case None => None case Some(r) => Some(Bytes(w) + r)
  {
    if w == [] {
      assert w + u == u;
      if Decode(u).Some? {
        assert Bytes(w) + Decode(u).value == Decode(u).value;
      }
    } else {
      DecodePrefix(w[4..], u);
      assert (w + u)[4..] == w[4..] + u;
      assert Group(w + u) == Group(w);
      if Decode(u).Some? {
        var r := Decode(u).value;
        assert Group(w) + (Bytes(w[4..]) + r) == Bytes(w) + r;
      }
    }
  }

  /** The bytes completed by the digits of an unfinished group. */
  function OpenBytes(o: seq<Symbol>): seq<Byte>
    requires AllDigits(o) && |o| < 4
  {
    if |o| == 3 then [Byte0(o[0].v, o[1].v), Byte1(o[1].v, o[2].v)]
    else if |o| == 2 then [Byte0(o[0].v, o[1].v)]
    else []
  }

  /** The byte begun but not completed after n digits of a group, the last being v. */
  function Begun(n: nat, v: Sextet): Byte {
    if n == 1 then v * 4 else if n == 2 then v % 16 * 16 else v % 4 * 64
  }

  /** What an unfinished group decodes to when it is followed by no further digit. */
  function Ending(o: seq<Symbol>, u: seq<Symbol>): Option<seq<Byte>>
    requires AllDigits(o) && |o| < 4
  {
    if o == [] && u == [] then Some([])
    else if |o| == 2 && u == [Pad, Pad] && Begun(2, o[1].v) == 0 then Some(OpenBytes(o))
    else if |o| == 3 && u == [Pad] && Begun(3, o[2].v) == 0 then Some(OpenBytes(o))
    else None
  }

  lemma DecodeEnding(o: seq<Symbol>, u: seq<Symbol>)
    requires AllDigits(o) && |o| < 4 && (u == [] || !u[0].Dig?)
    ensures Decode(o + u) == Ending(o, u)
  {
    assert !WholeGroup(o + u);
    if |o| == 2 && |u| == 2 {
      assert u == [u[0], u[1]];
    } else if |o| == 3 && |u| == 1 {
      assert u == [u[0]];
    }
  }

  /** The room the decoder needs for n bytes: one more when the last group is partial. */
  function Room(n: nat): nat {
    if n % 3 == 0 then n else n + 1
  }

  /** Every text that decodes and begins with these digits needs this much room. */
  lemma RoomNeeded(w: seq<Symbol>, o: seq<Symbol>, u: seq<Symbol>)
    requires Whole(w) && AllDigits(o) && 0 < |o| < 4 && Decode(w + o + u).Some?
    ensures Room(|Decode(w + o + u).value|) >= |Bytes(w)| + if |o| == 3 then 3 else 2
  {
    DecodePrefix(w, o + u);
    assert w + o + u == w + (o + u);
    BytesLength(w);
    AtLeast(o, u);
    RoomAtLeast(|Bytes(w)|, |Decode(o + u).value|);
  }

  lemma RoomAtLeast(n: nat, m: nat)
    requires n % 3 == 0 && m > 0
    ensures Room(n + m) >= n + if m == 1 then 2 else m
    ensures m == 2 ==> Room(n + m) == n + 3
  {
    RoomSum(n, m);
  }

  lemma AtLeast(o: seq<Symbol>, u: seq<Symbol>)
    requires AllDigits(o) && 0 < |o| < 4 && Decode(o + u).Some?
    ensures |Decode(o + u).value| >= if |o| == 3 then 2 else 1
  {
    assert forall i | 0 <= i < |o| :: (o + u)[i] == o[i];
  }

  // ----- the length only -----

  /** The number of bytes of a well shaped text, whatever its stray bits. */
  function LengthOf(t: seq<Symbol>): Option<nat> {
    if t == [] then Some(0)
    else if WholeGroup(t) then
      match LengthOf(t[4..])
      case None => None
      case Some(n) => Some(n + 3)
    else if |t| != 4 || !t[0].Dig? || !t[1].Dig? || t[3] != Pad then None
    else if t[2] == Pad then Some(1)
    else if t[2].Dig? then Some(2)
    else None
  }

  /** The last group has nonzero bits that belong to no byte. */
  predicate StrayBits(t: seq<Symbol>) {
    |t| >= 4 && t[|t| - 1] == Pad &&
    if t[|t| - 2] == Pad then t[|t| - 3].Dig? && t[|t| - 3].v % 16 != 0
    else t[|t| - 2].Dig? && t[|t| - 2].v % 4 != 0
  }

  /** The two decoders agree but for stray bits. */
  lemma {:induction false} LengthAndDecode(t: seq<Symbol>)
    ensures Decode(t).Some? <==> LengthOf(t).Some? && !StrayBits(t)
    ensures Decode(t).Some? ==> LengthOf(t) == Some(|Decode(t).value|)
  {
    if WholeGroup(t) {
      LengthAndDecode(t[4..]);
      if t[4..] != [] && LengthOf(t[4..]).Some? {
        LengthShape(t[4..]);
      }
    }
  }

  lemma {:induction false} LengthShape(t: seq<Symbol>)
    requires LengthOf(t).Some? && t != []
    ensures |t| >= 4
  {
  }

  lemma {:induction false} LengthPrefix(w: seq<Symbol>, u: seq<Symbol>)
    requires Whole(w)
    ensures LengthOf(w + u) == match LengthOf(u) case None => None case Some(n) => Some(|Bytes(w)| + n)
  {
    if w == [] {
      assert w + u == u;
    } else {
      LengthPrefix(w[4..], u);
      assert (w + u)[4..] == w[4..] + u;
    }
  }

  function LengthEnding(o: seq<Symbol>, u: seq<Symbol>): Option<nat>
    requires AllDigits(o) && |o| < 4
  {
    if (o == [] && u == []) || (|o| == 2 && u == [Pad, Pad]) || (|o| == 3 && u == [Pad])
    then Some(|OpenBytes(o)|) else None
  }

  lemma LengthAtEnding(o: seq<Symbol>, u: seq<Symbol>)
    requires AllDigits(o) && |o| < 4 && (u == [] || !u[0].Dig?)
    ensures LengthOf(o + u) == LengthEnding(o, u)
  {
    assert !WholeGroup(o + u);
    if |o| == 2 && |u| == 2 {
      assert u == [u[0], u[1]];
    } else if |o| == 3 && |u| == 1 {
      assert u == [u[0]];
    }
  }

  // ----- the source text -----

  predicate IsSpace(c: char) {
    c == ' ' || '\t' <= c <= '\r'
  }

  /** The text without its whitespace. */
  function Strip(s: string): string {
    if s == "" then "" else Kept(s[0]) + Strip(s[1..])
  }

  lemma {:induction false} StripConcat(s: string, t: string)
    ensures Strip(s + t) == Strip(s) + Strip(t)
  {
    if s == "" {
      assert s + t == t;
    } else {
      StripConcat(s[1..], t);
      assert (s + t)[1..] == s[1..] + t;
      Chained(Kept(s[0]), Strip(s[1..]), Strip(t));
    }
  }

  lemma Chained(a: string, b: string, c: string)
    ensures a + (b + c) == a + b + c
  {
  }

  function Kept(c: char): string {
    if IsSpace(c) then "" else [c]
  }

  /** What the next character adds to the part already read. */
  lemma StripNext(s: string, i: nat)
    requires i < |s|
    ensures Strip(s[..i + 1]) == Strip(s[..i]) + Kept(s[i])
    ensures Strip(s[i..]) == Kept(s[i]) + Strip(s[i + 1..])
  {
    var a, c := s[..i], [s[i]];
    StripConcat(a, c);
    assert s[..i + 1] == a + c && s[i..][1..] == s[i + 1..] && c[1..] == "";
    assert Strip(c) == Kept(s[i]) + Strip(c[1..]);
  }

  lemma StripSplit(s: string, i: nat)
    requires i <= |s|
    ensures Strip(s) == Strip(s[..i]) + Strip(s[i..])
  {
    var a, b := s[..i], s[i..];
    assert s == a + b;
    StripConcat(a, b);
  }

  /** The source is a C string of ASCII characters. */
  predicate Ascii(s: string) {
    forall i | 0 <= i < |s| :: 0 < s[i] as int < 128
  }

  /** src[i], with the terminating NUL. */
  function At(src: string, i: nat): char {
    if i < |src| then src[i] else '\0'
  }

  // ----- the reverse map -----

  const SPECIAL := 0xf0
  const END := 0xfd
  const SPACE := 0xfe
  const INVALID := 0xff

  function Classify(c: char): Byte {
    if c == '\0' || c == '=' then END
    else if IsSpace(c) then SPACE
    else match SymbolOf(c)
      case Dig(v) => v
      case _ => INVALID
  }

  ghost predicate MapOk(rmap: array<Byte>)
    reads rmap
  {
    rmap.Length == 256 && forall i | 0 <= i < 128 :: rmap[i] == Classify(i as char)
  }

  /** b64_initialize_rmap */
  method InitializeMap() returns (rmap: array<Byte>)
    ensures fresh(rmap) && MapOk(rmap)
  {
    rmap := new Byte[256];
    rmap[0] := END;
    var i := 1;
    while i < 256
      invariant 1 <= i <= 256 && rmap[0] == END
      invariant forall k | 0 < k < i :: 
        rmap[k] == (if IsSpace(k as char) then SPACE else if k as char == '=' then END else INVALID)
    {
      var ch := i as char;
      if IsSpace(ch) {
        rmap[i] := SPACE;
      } else if ch == '=' {
        rmap[i] := END;
      } else {
        rmap[i] := INVALID;
      }
      i := i + 1;
    }
    i := 0;
    while i < |ALPHABET|
      invariant 0 <= i <= |ALPHABET| == 64
      invariant forall k | 0 <= k < 128 :: 
        rmap[k] == (var c := SymbolOf(k as char); if c.Dig? && c.v >= i then INVALID else Classify(k as char))
    {
      AlphabetIsDigits(i);
      SymbolOfChar(Dig(i));
      rmap[ALPHABET[i] as int] := i;
      i := i + 1;
    }
  }

  // ----- the decoder -----

  /** After the digits w + o: the bytes completed are in the target, and so is the
      one begun. */
  ghost predicate Decoding(target: array<Byte>, targsize: nat, tarindex: nat, state: nat, w: seq<Symbol>, o: seq<Symbol>)
    reads target
  {
    && targsize <= target.Length
    && Whole(w) && AllDigits(o) && |o| == state < 4
    && tarindex <= targsize
    && target[..tarindex] == Bytes(w) + OpenBytes(o)
    && (state > 0 ==> tarindex < targsize && target[tarindex] == Begun(state, o[state - 1].v))
  }

  lemma Powers()
    ensures Pow2(2) == 4 && Pow2(4) == 16 && Pow2(6) == 64
  {
    assert Pow2(3) == 8;
  }

  /** target[tarindex] |= low, where the low bits are still zero; then the next byte is begun. */
  method Complete(target: array<Byte>, tarindex: nat, begun: Byte, low: nat, ghost k: nat)
    requires tarindex < target.Length && target[tarindex] == begun
    requires begun % Pow2(k) == 0 && low < Pow2(k) && begun + low < 256
    modifies target
    ensures target[..] == old(target[..])[tarindex := begun + low]
  {
    OrDisjoint(begun, low, k);
    target[tarindex] := Or(target[tarindex], low);
  }

  /** Cases 0 to 3 of the decoding switch, when there is room. */
  method First(target: array<Byte>, targsize: nat, tarindex: nat, ofs: Sextet, ghost w: seq<Symbol>, ghost c: Symbol)
    requires Decoding(target, targsize, tarindex, 0, w, []) && c == Dig(ofs) && tarindex < targsize
    modifies target
    ensures Decoding(target, targsize, tarindex, 1, w, [c])
    ensures target[targsize..] == old(target[targsize..])
  {
    target[tarindex] := ofs * 4 % 256;
  }

  lemma SecondDigit(v: Sextet, ofs: Sextet)
    ensures Begun(1, v) % 4 == 0 && ofs / 16 < 4 && Begun(1, v) + ofs / 16 == Byte0(v, ofs) < 256
    ensures ofs % 16 * 16 % 256 == Begun(2, ofs)
  {
  }

  lemma TwoOpen(o: seq<Symbol>, c: Symbol)
    requires |o| == 1 && AllDigits(o) && c.Dig?
    ensures AllDigits(o + [c]) && OpenBytes(o + [c]) == [Byte0(o[0].v, c.v)] && OpenBytes(o) == []
  {
  }

  method Second(target: array<Byte>, targsize: nat, tarindex: nat, ofs: Sextet, ghost w: seq<Symbol>, ghost o: seq<Symbol>, ghost c: Symbol)
    requires Decoding(target, targsize, tarindex, 1, w, o) && c == Dig(ofs) && tarindex + 1 < targsize
    modifies target
    ensures Decoding(target, targsize, tarindex + 1, 2, w, o + [c])
    ensures target[targsize..] == old(target[targsize..])
  {
    Powers();
    AndMask(ofs, 4);
    SecondDigit(o[0].v, ofs);
    TwoOpen(o, c);
    Complete(target, tarindex, target[tarindex], ofs / 16, 2);
    target[tarindex + 1] := And(ofs, 0x0f) * 16 % 256;
  }

  lemma ThirdDigit(v: Sextet, ofs: Sextet)
    ensures Begun(2, v) % 16 == 0 && ofs / 4 < 16 && Begun(2, v) + ofs / 4 == Byte1(v, ofs) < 256
    ensures ofs % 4 * 64 % 256 == Begun(3, ofs)
  {
  }

  lemma ThreeOpen(o: seq<Symbol>, c: Symbol)
    requires |o| == 2 && AllDigits(o) && c.Dig?
    ensures AllDigits(o + [c])
    ensures OpenBytes(o + [c]) == OpenBytes(o) + [Byte1(o[1].v, c.v)]
  {
  }

  method Third(target: array<Byte>, targsize: nat, tarindex: nat, ofs: Sextet, ghost w: seq<Symbol>, ghost o: seq<Symbol>, ghost c: Symbol)
    requires Decoding(target, targsize, tarindex, 2, w, o) && c == Dig(ofs) && tarindex + 1 < targsize
    modifies target
    ensures Decoding(target, targsize, tarindex + 1, 3, w, o + [c])
    ensures target[targsize..] == old(target[targsize..])
  {
    Powers();
    AndMask(ofs, 2);
    ThirdDigit(o[1].v, ofs);
    ThreeOpen(o, c);
    Complete(target, tarindex, target[tarindex], ofs / 4, 4);
    target[tarindex + 1] := And(ofs, 0x03) * 64 % 256;
  }

  method Fourth(target: array<Byte>, targsize: nat, tarindex: nat, ofs: Sextet, ghost w: seq<Symbol>, ghost o: seq<Symbol>, ghost c: Symbol)
    requires Decoding(target, targsize, tarindex, 3, w, o) && c == Dig(ofs)
    modifies target
    ensures Decoding(target, targsize, tarindex + 1, 0, w + (o + [c]), [])
    ensures target[targsize..] == old(target[targsize..])
  {
    Powers();
    BytesAppend(w, o + [c]);
    Complete(target, tarindex, target[tarindex], ofs, 6);
  }

  /** The body of the decoding switch. */
  method PutDigit(target: array<Byte>, targsize: nat, state: nat, tarindex: nat, ofs: Sextet,
                  ghost w: seq<Symbol>, ghost o: seq<Symbol>, ghost c: Symbol, ghost u: seq<Symbol>)
    returns (ok: bool, state': nat, tarindex': nat, ghost w': seq<Symbol>, ghost o': seq<Symbol>)
    requires Decoding(target, targsize, tarindex, state, w, o)
    requires c == Dig(ofs)
    modifies target
    ensures ok ==> Decoding(target, targsize, tarindex', state', w', o') && w' + o' == w + o + [c]
    ensures !ok ==> Decode(w + o + [c] + u).Some? ==> Room(|Decode(w + o + [c] + u).value|) > targsize
    ensures target[targsize..] == old(target[targsize..])
  {
    ok, state', tarindex', w', o' := true, (state + 1) % 4, tarindex, w, o + [c];
    if state == 0 {
      if tarindex >= targsize {
        ok := false;
      } else {
        First(target, targsize, tarindex, ofs, w, c);
      }
    } else if state == 1 {
      if tarindex + 1 >= targsize {
        ok := false;
      } else {
        Second(target, targsize, tarindex, ofs, w, o, c);
        tarindex' := tarindex + 1;
      }
    } else if state == 2 {
      if tarindex + 1 >= targsize {
        ok := false;
      } else {
        Third(target, targsize, tarindex, ofs, w, o, c);
        tarindex' := tarindex + 1;
      }
    } else {
      // The room check of this case never fires: the byte was begun within the room.
      assert tarindex < targsize;
      Fourth(target, targsize, tarindex, ofs, w, o, c);
      tarindex' := tarindex + 1;
      w', o' := w + (o + [c]), [];
    }
    if !ok && Decode(w + o + [c] + u).Some? {
      assert w + (o + [c]) + u == w + o + [c] + u;
      RoomNeeded(w, o + [c], u);
    }
  }

  lemma SymbolsConcat(s: string, t: string)
    ensures Symbols(s + t) == Symbols(s) + Symbols(t)
  {
  }

  /** The symbols of a text, without its whitespace. */
  function Parsed(s: string): seq<Symbol> {
    Symbols(Strip(s))
  }

  function Mark(c: char): seq<Symbol> {
    Symbols(Kept(c))
  }

  lemma ParsedNext(s: string, i: nat)
    requires i < |s|
    ensures Parsed(s[..i + 1]) == Parsed(s[..i]) + Mark(s[i])
    ensures Parsed(s[i..]) == Mark(s[i]) + Parsed(s[i + 1..])
  {
    StripNext(s, i);
    SymbolsConcat(Strip(s[..i]), Kept(s[i]));
    SymbolsConcat(Kept(s[i]), Strip(s[i + 1..]));
  }

  lemma ParsedSplit(s: string, i: nat)
    requires i <= |s|
    ensures Parsed(s) == Parsed(s[..i]) + Parsed(s[i..])
  {
    StripSplit(s, i);
    SymbolsConcat(Strip(s[..i]), Strip(s[i..]));
  }

  /** The trailing loops: skip whitespace, up to another character or the end. */
  method SkipSpaces(src: string, start: nat, rmap: array<Byte>) returns (pos: nat)
    requires Ascii(src) && MapOk(rmap) && start <= |src|
    ensures start <= pos <= |src|
    ensures pos < |src| ==> !IsSpace(src[pos])
    ensures Parsed(src[pos..]) == Parsed(src[start..])
  {
    pos := start;
    while At(src, pos) != '\0'
      invariant start <= pos <= |src|
      invariant Parsed(src[pos..]) == Parsed(src[start..])
      decreases |src| - pos
    {
      if rmap[At(src, pos) as int] != SPACE {
        break;
      }
      ParsedNext(src, pos);
      pos := pos + 1;
    }
  }

  /** The first symbol at a character that is no whitespace. */
  lemma ParsedHead(src: string, pos: nat)
    requires pos <= |src| && (pos < |src| ==> !IsSpace(src[pos]))
    ensures Parsed(src[pos..]) == if pos == |src| then [] else [SymbolOf(src[pos])] + Parsed(src[pos + 1..])
  {
    if pos < |src| {
      ParsedNext(src, pos);
      assert Mark(src[pos]) == [SymbolOf(src[pos])];
    }
  }

  lemma Cons(c: Symbol, v: seq<Symbol>, w: seq<Symbol>)
    ensures [c] + v == [Pad] + w <==> c == Pad && v == w
  {
    assert ([c] + v)[1..] == v && ([Pad] + w)[1..] == w;
  }

  /** Is a character followed by nothing but whitespace? */
  method AtLast(src: string, start: nat, rmap: array<Byte>) returns (good: bool)
    requires Ascii(src) && MapOk(rmap) && start < |src| && !IsSpace(src[start])
    ensures good <==> Parsed(src[start..]) == [SymbolOf(src[start])]
  {
    ParsedHead(src, start);
    var pos := SkipSpaces(src, start + 1, rmap);
    ParsedHead(src, pos);
    good := At(src, pos) == '\0';
  }

  /** From the first padding character on: is the padding complete, with nothing but
      whitespace after it? */
  method CheckPadding(src: string, start: nat, state: nat, rmap: array<Byte>) returns (good: bool)
    requires Ascii(src) && MapOk(rmap) && start < |src| && src[start] == '=' && state < 4
    ensures good <==>
      (state == 2 && Parsed(src[start..]) == [Pad] + [Pad]) || (state == 3 && Parsed(src[start..]) == [Pad])
  {
    ParsedHead(src, start);
    ghost var u, v := Parsed(src[start..]), Parsed(src[start + 1..]);
    Cons(Pad, v, [Pad]);
    Cons(Pad, v, []);
    if state == 0 || state == 1 {
      good := false;
    } else if state == 2 {
      var pos := SkipSpaces(src, start + 1, rmap);
      ParsedHead(src, pos);
      if At(src, pos) != '=' {
        good := false;
        if pos < |src| {
          Cons(SymbolOf(src[pos]), Parsed(src[pos + 1..]), []);
          assert [Pad] + [] == [Pad];
        }
      } else {
        good := AtLast(src, pos, rmap);
      }
    } else {
      good := AtLast(src, start, rmap);
    }
  }

  /** Whole groups w, an unfinished group o, and u after the digits: what it decodes to. */
  lemma DecodedParts(w: seq<Symbol>, o: seq<Symbol>, u: seq<Symbol>)
    requires Whole(w) && AllDigits(o) && |o| < 4 && (u == [] || !u[0].Dig?)
    ensures Decode(w + o + u) == match Ending(o, u) case None => None case Some(r) => Some(Bytes(w) + r)
  {
    DecodeEnding(o, u);
    DecodePrefix(w, o + u);
    Regroup(w, o, u);
  }

  lemma LengthParts(w: seq<Symbol>, o: seq<Symbol>, u: seq<Symbol>)
    requires Whole(w) && AllDigits(o) && |o| < 4 && (u == [] || !u[0].Dig?)
    ensures LengthOf(w + o + u) == match LengthEnding(o, u) case None => None case Some(n) => Some(|Bytes(w)| + n)
  {
    LengthAtEnding(o, u);
    LengthPrefix(w, o + u);
    Regroup(w, o, u);
  }

  lemma NoneOpen(w: seq<Symbol>)
    ensures w + [] == w
  {
  }

  lemma TwoPads()
    ensures [Pad] + [Pad] == [Pad, Pad]
  {
  }

  lemma Regroup(w: seq<Symbol>, o: seq<Symbol>, u: seq<Symbol>)
    ensures w + o + u == w + (o + u)
  {
  }

  /** One more character of the source, after the symbols seen. */
  lemma Read(src: string, pos: nat, seen: seq<Symbol>)
    requires pos < |src| && seen == Parsed(src[..pos])
    ensures IsSpace(src[pos]) ==> Parsed(src[..pos + 1]) == seen
    ensures !IsSpace(src[pos]) ==>
      && Parsed(src[..pos + 1]) == seen + [SymbolOf(src[pos])]
      && Parsed(src) == seen + [SymbolOf(src[pos])] + Parsed(src[pos + 1..])
  {
    ParsedNext(src, pos);
    ParsedSplit(src, pos);
    if !IsSpace(src[pos]) {
      ParsedHead(src, pos);
    }
  }

  lemma ReadEnd(src: string, pos: nat, seen: seq<Symbol>)
    requires pos <= |src| && seen == Parsed(src[..pos]) && (pos < |src| ==> !IsSpace(src[pos]))
    ensures Parsed(src) == seen + Parsed(src[pos..])
    ensures Parsed(src[pos..]) == [] <==> pos == |src|
    ensures pos < |src| ==> Parsed(src[pos..])[0] == SymbolOf(src[pos])
  {
    ParsedSplit(src, pos);
    ParsedHead(src, pos);
  }

  /** What b64_pton_do returns and stores. */
  ghost predicate Decoded(t: seq<Symbol>, n: int, target: seq<Byte>, targsize: nat) {
    var d := Decode(t);
    if d.Some? && Room(|d.value|) <= targsize then n == |d.value| <= |target| && target[..n] == d.value
    else n == -1
  }

  /** After the last digit: the verdict on the whole text. */
  lemma Verdict(target: array<Byte>, targsize: nat, tarindex: nat, state: nat, w: seq<Symbol>, o: seq<Symbol>, u: seq<Symbol>)
    requires Decoding(target, targsize, tarindex, state, w, o) && (u == [] || !u[0].Dig?)
    ensures var good := (state == 0 && u == []) ||
        (((state == 2 && u == [Pad, Pad]) || (state == 3 && u == [Pad])) && target[tarindex] == 0);
      Decoded(w + o + u, if good then tarindex else -1, target[..], targsize)
  {
    DecodedParts(w, o, u);
    BytesLength(w);
    assert target[..tarindex] == target[..][..tarindex];
    if state == 0 {
      assert Bytes(w) + OpenBytes(o) == Bytes(w);
    }
  }

  /** b64_pton_do: decode into the first `targsize` bytes of the target. */
  method PtonDo(src: string, target: array<Byte>, targsize: nat, rmap: array<Byte>) returns (n: int)
    requires Ascii(src) && MapOk(rmap) && rmap != target && targsize <= target.Length
    modifies target
    ensures Decoded(Parsed(src), n, target[..], targsize)
    ensures target[targsize..] == old(target[targsize..])
  {
    var state: nat, tarindex: nat, pos: nat := 0, 0, 0;
    ghost var w: seq<Symbol>, o: seq<Symbol> := [], [];
    while true
      invariant pos <= |src| && w + o == Parsed(src[..pos])
      invariant Decoding(target, targsize, tarindex, state, w, o)
      invariant target[targsize..] == old(target[targsize..])
      decreases |src| - pos
    {
      var ch := At(src, pos);
      var ofs := rmap[ch as int];
      if ofs >= SPECIAL {
        if ofs == SPACE {
          Read(src, pos, w + o);
          pos := pos + 1;
          continue;
        }
        if ofs == END {
          break;
        }
        ReadEnd(src, pos, w + o);
        DecodedParts(w, o, Parsed(src[pos..]));
        return -1;
      }
      Read(src, pos, w + o);
      ghost var c, u := SymbolOf(ch), Parsed(src[pos + 1..]);
      var ok;
      ok, state, tarindex, w, o := PutDigit(target, targsize, state, tarindex, ofs, w, o, c, u);
      if !ok {
        return -1;
      }
      pos := pos + 1;
    }
    ReadEnd(src, pos, w + o);
    Verdict(target, targsize, tarindex, state, w, o, Parsed(src[pos..]));
    if At(src, pos) == '=' {
      var good := CheckPadding(src, pos, state, rmap);
      assert [Pad] + [Pad] == [Pad, Pad];
      if !good || target[tarindex] != 0 {
        return -1;
      }
    } else if state != 0 {
      return -1;
    }
    n := tarindex;
  }

  /** tarindex and state count the bytes of the digits seen. */
  ghost predicate Counting(tarindex: nat, state: nat, w: seq<Symbol>, o: seq<Symbol>) {
    Whole(w) && AllDigits(o) && |o| == state < 4 && tarindex == |Bytes(w)| + |OpenBytes(o)|
  }

  /** The body of the counting switch. */
  method CountDigit(state: nat, tarindex: nat, ghost w: seq<Symbol>, ghost o: seq<Symbol>, ghost c: Symbol)
    returns (state': nat, tarindex': nat, ghost w': seq<Symbol>, ghost o': seq<Symbol>)
    requires Counting(tarindex, state, w, o) && c.Dig?
    ensures Counting(tarindex', state', w', o') && w' + o' == w + o + [c]
  {
    state', tarindex', w', o' := state, tarindex, w, o + [c];
    Regroup(w, o, [c]);
    if state == 0 {
      state' := 1;
    } else if state == 1 {
      tarindex' := tarindex + 1;
      state' := 2;
    } else if state == 2 {
      tarindex' := tarindex + 1;
      state' := 3;
    } else {
      tarindex' := tarindex + 1;
      state' := 0;
      BytesAppend(w, o');
      NoneOpen(w + o');
      w', o' := w + o', [];
    }
  }

  /** The loop over the digits: it ends at the first character that is neither a digit
      nor whitespace. */
  method CountDigits(src: string, rmap: array<Byte>)
    returns (pos: nat, state: nat, tarindex: nat, ghost w: seq<Symbol>, ghost o: seq<Symbol>)
    requires Ascii(src) && MapOk(rmap)
    ensures Counting(tarindex, state, w, o)
    ensures pos <= |src| && w + o == Parsed(src[..pos]) && rmap[At(src, pos) as int] >= SPECIAL
    ensures rmap[At(src, pos) as int] != SPACE
  {
    state, tarindex, pos := 0, 0, 0;
    w, o := [], [];
    while true
      invariant pos <= |src| && w + o == Parsed(src[..pos])
      invariant Counting(tarindex, state, w, o)
      decreases |src| - pos
    {
      var ch := At(src, pos);
      var ofs := rmap[ch as int];
      if ofs >= SPECIAL {
        if ofs != SPACE {
          return;
        }
        Read(src, pos, w + o);
      } else {
        Read(src, pos, w + o);
        state, tarindex, w, o := CountDigit(state, tarindex, w, o, SymbolOf(ch));
      }
      pos := pos + 1;
    }
  }

  /** b64_pton_len: the number of bytes, without decoding. */
  method PtonLen(src: string, rmap: array<Byte>) returns (n: int)
    requires Ascii(src) && MapOk(rmap)
    ensures n == match LengthOf(Parsed(src)) case None => -1 case Some(k) => k
  {
    var pos, state, tarindex;
    ghost var w, o;
    pos, state, tarindex, w, o := CountDigits(src, rmap);
    ReadEnd(src, pos, w + o);
    LengthParts(w, o, Parsed(src[pos..]));
    if rmap[At(src, pos) as int] != END {
      return -1;
    }
    if At(src, pos) == '=' {
      var good := CheckPadding(src, pos, state, rmap);
      TwoPads();
      if !good {
        return -1;
      }
    } else if state != 0 {
      return -1;
    }
    n := tarindex;
  }

  /** b64_pton: decode into the target, or only count when there is none. */
  method Pton(src: string, target: array?<Byte>, targsize: nat) returns (n: int)
    requires Ascii(src) && (target != null ==> targsize <= target.Length)
    modifies if target == null then {} else {target}
    ensures target != null ==> Decoded(Parsed(src), n, target[..], targsize) && target[targsize..] == old(target[targsize..])
    ensures target == null ==> n == match LengthOf(Parsed(src)) case None => -1 case Some(k) => k
  {
    var rmap := InitializeMap();
    if target != null {
      n := PtonDo(src, target, targsize, rmap);
    } else {
      n := PtonLen(src, rmap);
    }
  }

  // ----- what callers rely on -----

  /** With enough room for b, the decoder returns b exactly for the texts that are,
      but for whitespace, the canonical encoding of b. */
  lemma AcceptsCanonicalOnly(src: string, n: int, target: seq<Byte>, targsize: nat, b: seq<Byte>)
    requires Decoded(Parsed(src), n, target, targsize) && Room(|b|) <= targsize
    ensures n == |b| && n <= |target| && target[..n] == b <==> Strip(src) == EncodeText(b)
  {
    Canonical(Strip(src), b);
    var d := Decode(Parsed(src));
    if n >= 0 {
      EncodeClean(d.value);
      EncodeDecode(Parsed(src));
    }
  }

  /** The length the counting decoder reports for a text is the length the real one
      returns, given room for it, unless the text has stray bits. */
  lemma LengthPredictsDecode(src: string, n: int, target: seq<Byte>, targsize: nat)
    requires Decoded(Parsed(src), n, target, targsize)
    ensures n >= 0 ==> LengthOf(Parsed(src)) == Some(n)
    ensures LengthOf(Parsed(src)).Some? && Room(LengthOf(Parsed(src)).value) <= targsize ==>
      n == if StrayBits(Parsed(src)) then -1 else LengthOf(Parsed(src)).value
  {
    LengthAndDecode(Parsed(src));
  }
}
