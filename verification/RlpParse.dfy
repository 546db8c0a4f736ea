/** Reading an encoding back: the canonical parser, and that it is the inverse of the encoder. */
module RlpParse {
  import opened Options
  import opened RlpSpec

  datatype Kind = KByte | KString | KList

  /**
    What the first bytes say: the kind of the value, the length of its header, and of its payload. A single byte is
    all header.
   */
  datatype Head = Head(kind: Kind, tag: nat, size: nat)

  /** The size field of a long header, which must need its length and start with a non-zero byte. */
  function ReadSize(b: seq<Byte>, slen: nat): Option<nat>
    requires 0 < slen <= 8
  {
    if slen > |b| || b[0] == 0 || Value(b[..slen]) < 56 then None else Some(Value(b[..slen]))
  }

  function LongHead(kind: Kind, b: seq<Byte>, slen: nat): Option<Head>
    requires 0 < slen <= 8 && b != []
  {
    match ReadSize(b[1..], slen)
    case None => None
    case Some(size) => Some(Head(kind, 1 + slen, size))
  }

  function ReadHead(b: seq<Byte>): (h: Option<Head>)
    ensures h.Some? ==> 0 < h.value.tag <= |b| && h.value.tag <= 9
  {
    if b == [] then None
    else if b[0] < 0x80 then Some(Head(KByte, 1, 0))
    else if b[0] < 0xB8 then Some(Head(KString, 1, b[0] - 0x80))
    else if b[0] < 0xC0 then LongHead(KString, b, b[0] - 0xB7)
    else if b[0] < 0xF8 then Some(Head(KList, 1, b[0] - 0xC0))
    else LongHead(KList, b, b[0] - 0xF7)
  }

  /** The header that says the same. */
  function HeadBytes(h: Head, first: Byte): seq<Byte>
    requires h.size < Pow256(8)
  {
    match h.kind
    case KByte => [first]
    case KString => StrHeader(h.size)
    case KList => ListHeader(h.size)
  }

  /** A header that is read is the one the encoder would write. */
  lemma {:induction false} HeadCanonical(b: seq<Byte>)
    requires ReadHead(b).Some?
    ensures var h := ReadHead(b).value; h.size < Pow256(8) && b[..h.tag] == HeadBytes(h, b[0])
  {
    var h := ReadHead(b).value;
    assert Pow256(8) > 256 by {
      BigEndianLength(256, 8);
      assert BigEndian(256) == BigEndian(1) + [0];
      assert BigEndian(1) == [1];
    }
    if 0xB8 <= b[0] < 0xC0 || 0xF8 <= b[0] {
      LongCanonical(b, h.tag - 1, h.size);
    }
  }

  lemma {:induction false} LongCanonical(b: seq<Byte>, slen: nat, size: nat)
    requires b != [] && 0 < slen <= 8 && ReadSize(b[1..], slen) == Some(size)
    ensures 56 <= size < Pow256(8) && BigEndian(size) == b[1..1 + slen]
  {
    var f := b[1..][..slen];
    assert f == b[1..1 + slen];
    BigEndianOfValue(f);
    BigEndianLength(size, 8);
  }

  /** The header the encoder writes is read back. */
  lemma {:induction false} HeaderRead(small: int, large: int, size: nat, rest: seq<Byte>)
    requires ((small == 0x80 && large == 0xB7) || (small == 0xC0 && large == 0xF7)) && size < Pow256(8)
    ensures ReadHead(Header(small, large, size) + rest)
         == Some(Head(if small == 0x80 then KString else KList, |Header(small, large, size)|, size))
  {
    if size >= 56 {
      var be := BigEndian(size);
      BigEndianLength(size, 8);
      BigEndianLength(size, 0);
      var b := Header(small, large, size) + rest;
      assert b[1..][..|be|] == be && b[1..][0] == be[0];
      ValueOfBigEndian(size);
    }
  }

  // ---------------------------------------------------------------- values

  /** The first value in `b`, and how many bytes it takes. */
  function Parse(b: seq<Byte>): (r: Option<(Item, nat)>)
    ensures r.Some? ==> 0 < r.value.1 <= |b|
    decreases |b|, 0
  {
    match ReadHead(b)
    case None => None
    case Some(h) =>
      if h.tag + h.size > |b| then None else
        var content := b[h.tag..h.tag + h.size];
        match h.kind
        case KByte => Some((Str([b[0]]), 1))
        case KString => if h.size == 1 && content[0] < 128 then None else Some((Str(content), h.tag + h.size))
        case KList =>
          match ParseAll(content)
          case None => None
          case Some(xs) => Some((List(xs), h.tag + h.size))
  }

  /** The values that `b` consists of. */
  function ParseAll(b: seq<Byte>): Option<seq<Item>>
    decreases |b|, 1
  {
    if b == [] then Some([]) else
      match Parse(b)
      case None => None
      case Some((x, n)) =>
        match ParseAll(b[n..])
        case None => None
        case Some(xs) => Some([x] + xs)
  }

  /** Whatever is parsed is the encoding of what was found. */
  lemma {:induction false} ParseSound(b: seq<Byte>)
    requires Parse(b).Some?
    ensures var (x, n) := Parse(b).value; Fits(x) && Encode(x) == b[..n]
    decreases |b|, 0
  {
    hide Header, ParseAll, EncodeAll, AllFit;
    HeadCanonical(b);
    var h := ReadHead(b).value;
    var content := b[h.tag..h.tag + h.size];
    assert b[..h.tag + h.size] == b[..h.tag] + content;
    if h.kind == KList { ParseAllSound(content); }
  }

  lemma {:induction false} ParseAllSound(b: seq<Byte>)
    requires ParseAll(b).Some?
    ensures AllFit(ParseAll(b).value) && EncodeAll(ParseAll(b).value) == b
    decreases |b|, 1
  {
    hide Parse, Encode, Fits;
    if b == [] {
    } else {
      var (x, n) := Parse(b).value;
      ParseSound(b);
      ParseAllSound(b[n..]);
      var xs := ParseAll(b[n..]).value;
      assert ([x] + xs)[1..] == xs;
      assert b == b[..n] + b[n..];
    }
  }

  /** The encoding of an item is parsed, whatever follows it. */
  lemma {:induction false} ParseComplete(x: Item, rest: seq<Byte>)
    requires Fits(x)
    ensures Parse(Encode(x) + rest) == Some((x, |Encode(x)|))
    decreases x, 0
  {
    match x
    case Str(s) => StrComplete(s, rest);
    case List(xs) =>
      ParseAllComplete(xs);
      ListComplete(xs, EncodeAll(xs), rest);
  }

  lemma {:induction false} StrComplete(s: seq<Byte>, rest: seq<Byte>)
    requires |s| < Pow256(8)
    ensures Parse(EncodeStr(s) + rest) == Some((Str(s), |EncodeStr(s)|))
  {
    if |s| == 1 && s[0] <= 0x7F {
      hide Header, ParseAll;
      assert (EncodeStr(s) + rest)[0] == s[0] && s == [s[0]];
    } else {
      HeadedStrComplete(s, StrHeader(|s|), rest);
    }
  }

  lemma {:induction false} HeadedStrComplete(s: seq<Byte>, h: seq<Byte>, rest: seq<Byte>)
    requires |s| < Pow256(8) && !(|s| == 1 && s[0] <= 0x7F) && h == StrHeader(|s|)
    ensures Parse(h + s + rest) == Some((Str(s), |h + s|))
  {
    hide Header, ParseAll, ReadHead, Pow256;
    HeaderRead(0x80, 0xB7, |s|, s + rest);
    var b := h + s + rest;
    assert b == h + (s + rest) && b[|h|..|h| + |s|] == s;
  }

  lemma {:induction false} ListComplete(xs: seq<Item>, p: seq<Byte>, rest: seq<Byte>)
    requires |p| < Pow256(8) && ParseAll(p) == Some(xs)
    ensures Parse(ListHeader(|p|) + p + rest) == Some((List(xs), |ListHeader(|p|) + p|))
  {
    hide ParseAll, Header;
    var h := ListHeader(|p|);
    var b := h + p + rest;
    HeaderRead(0xC0, 0xF7, |p|, p + rest);
    assert b == h + (p + rest) && b[|h|..|h| + |p|] == p;
  }

  lemma {:induction false} ParseAllComplete(xs: seq<Item>)
    requires AllFit(xs)
    ensures ParseAll(EncodeAll(xs)) == Some(xs)
    decreases xs, 1
  {
    if xs == [] {
    } else {
      var b, e := EncodeAll(xs), Encode(xs[0]);
      ParseComplete(xs[0], EncodeAll(xs[1..]));
      assert b == e + EncodeAll(xs[1..]) && b[|e|..] == EncodeAll(xs[1..]);
      ParseAllComplete(xs[1..]);
      assert xs == [xs[0]] + xs[1..];
    }
  }

  /** Decoding is the inverse of encoding on exactly the canonical encodings. */
  lemma {:induction false} CanonicalBijection(b: seq<Byte>, x: Item)
    ensures Parse(b) == Some((x, |b|)) <==> Fits(x) && Encode(x) == b
  {
    if Parse(b) == Some((x, |b|)) {
      ParseSound(b);
      assert b[..|b|] == b;
    }
    if Fits(x) && Encode(x) == b {
      ParseComplete(x, []);
      assert b + [] == b;
    }
  }

  /** No encoding is a proper prefix of another. */
  lemma {:induction false} PrefixFree(x: Item, y: Item, a: seq<Byte>, b: seq<Byte>)
    requires Fits(x) && Fits(y) && Encode(x) + a == Encode(y) + b
    ensures x == y && a == b
  {
    ParseComplete(x, a);
    ParseComplete(y, b);
    var e, f := Encode(x), Encode(y);
    assert (e + a)[|e|..] == a && (f + b)[|f|..] == b;
  }
}
