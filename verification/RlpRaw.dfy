/** Cutting encoded bytes at value boundaries without decoding them. */
module RlpRaw {
  import opened Options
  import opened RlpSpec
  import opened RlpParse

  datatype RawError = UnexpectedEOF | CanonSize | ValueTooLarge

  datatype Result<T> = Ok(value: T) | Err(error: RawError)

  /** Kind, length of the tag and of the content; a single byte has no tag. */
  datatype RawKind = RawKind(kind: Kind, tagSize: nat, contentSize: nat)

  /** `readSize`. */
  function RawSize(b: seq<Byte>, slen: nat): Result<nat>
    requires 0 < slen <= 8
  {
    if slen > |b| then Err(UnexpectedEOF) else
      var s := Value(b[..slen]);
      if s < 56 || b[0] == 0 then Err(CanonSize) else Ok(s)
  }

  /** `readKind` up to the check against the length of the input. */
  function KindAhead(buf: seq<Byte>): Result<RawKind> {
    if |buf| == 0 then Err(UnexpectedEOF) else
      var b := buf[0];
      if b < 0x80 then Ok(RawKind(KByte, 0, 1))
      else if b < 0xB8 then
        (if b == 0x81 && |buf| > 1 && buf[1] < 128 then Err(CanonSize) else Ok(RawKind(KString, 1, b - 0x80)))
      else if b < 0xC0 then LongKind(KString, buf, b - 0xB7)
      else if b < 0xF8 then Ok(RawKind(KList, 1, b - 0xC0))
      else LongKind(KList, buf, b - 0xF7)
  }

  function LongKind(kind: Kind, buf: seq<Byte>, slen: nat): Result<RawKind>
    requires 0 < slen <= 8 && buf != []
  {
    match RawSize(buf[1..], slen)
    case Err(e) => Err(e)
    case Ok(size) => Ok(RawKind(kind, 1 + slen, size))
  }

  /** `readKind`. */
  function ReadKind(buf: seq<Byte>): (r: Result<RawKind>)
    ensures r.Ok? ==> 0 < r.value.tagSize + r.value.contentSize <= |buf|
  {
    match KindAhead(buf)
    case Err(e) => Err(e)
    case Ok(k) => if k.tagSize + k.contentSize > |buf| then Err(ValueTooLarge) else Ok(k)
  }

  /** `Split`: kind, content and rest. */
  function Split(b: seq<Byte>): Result<(Kind, seq<Byte>, seq<Byte>)> {
    match ReadKind(b)
    case Err(e) => Err(e)
    case Ok(k) => Ok((k.kind, b[k.tagSize..k.tagSize + k.contentSize], b[k.tagSize + k.contentSize..]))
  }

  function ContentOf(x: Item): seq<Byte>
    requires Fits(x)
  {
    match x
    case Str(b) => b
    case List(xs) => EncodeAll(xs)
  }

  function KindOf(x: Item): Kind {
    match x
    case Str(b) => if |b| == 1 && b[0] <= 0x7F then KByte else KString
    case List(_) => KList
  }

  /** The first value of any input that starts with an encoding is split off as that encoding says. */
  lemma {:induction false} SplitEncoding(x: Item, rest: seq<Byte>)
    requires Fits(x)
    ensures Split(Encode(x) + rest) == Ok((KindOf(x), ContentOf(x), rest))
  {
    hide Header, Pow256, EncodeAll;
    var c := ContentOf(x);
    assert Encode(x) == Wrapped(KindOf(x), c);
    WrappedSplit(Encode(x) + rest, KindOf(x), c, rest);
  }

  lemma {:induction false} SplitAt(b: seq<Byte>, h: seq<Byte>, c: seq<Byte>, rest: seq<Byte>, kind: Kind)
    requires b == h + (c + rest) && ReadHead(b) == Some(Head(kind, |h|, |c|)) && kind != KByte
    requires !(kind == KString && |c| == 1 && c[0] < 128)
    ensures Split(b) == Ok((kind, c, rest))
  {
    AheadAgrees(b);
    assert b[|h|..|h| + |c|] == c && b[|h| + |c|..] == rest;
    if kind == KString && |c| == 1 { assert b[|h|] == c[0]; }
  }

  /** Both readers of headers agree, but for the single bytes that should not have a header. */
  lemma {:induction false} AheadAgrees(b: seq<Byte>)
    requires ReadHead(b).Some? && ReadHead(b).value.kind != KByte
    ensures var h := ReadHead(b).value;
      if h.kind == KString && h.size == 1 && |b| > 1 && b[1] < 128 then KindAhead(b) == Err(CanonSize)
      else KindAhead(b) == Ok(RawKind(h.kind, h.tag, h.size))
  {
  }

  /** Content that has to have that kind of value around it. */
  predicate Canonical(kind: Kind, c: seq<Byte>) {
    match kind
    case KByte => |c| == 1 && c[0] < 0x80
    case KString => !(|c| == 1 && c[0] < 0x80)
    case KList => true
  }

  function Wrapped(kind: Kind, c: seq<Byte>): seq<Byte>
    requires |c| < Pow256(8)
  {
    match kind
    case KByte => c
    case KString => StrHeader(|c|) + c
    case KList => ListHeader(|c|) + c
  }

  /**
    A value is split off with that kind, content and rest if and only if the input is the content in the one header it
    can have, and the rest.
   */
  lemma {:induction false} SplitExactly(b: seq<Byte>, kind: Kind, c: seq<Byte>, rest: seq<Byte>)
    ensures Split(b) == Ok((kind, c, rest)) <==>
            |c| < Pow256(8) && Canonical(kind, c) && b == Wrapped(kind, c) + rest
  {
    if Split(b) == Ok((kind, c, rest)) { SplitWrapped(b); }
    if |c| < Pow256(8) && Canonical(kind, c) && b == Wrapped(kind, c) + rest { WrappedSplit(b, kind, c, rest); }
  }

  lemma {:induction false} SplitWrapped(b: seq<Byte>)
    requires Split(b).Ok?
    ensures var (kind, c, rest) := Split(b).value;
      |c| < Pow256(8) && Canonical(kind, c) && b == Wrapped(kind, c) + rest
  {
    var k := ReadKind(b).value;
    var (kind, c, rest) := Split(b).value;
    var n := k.tagSize + k.contentSize;
    HeadAgrees(b);
    HeadCanonical(b);
    hide ReadHead, Header, KindAhead, Pow256;
    assert b == b[..k.tagSize] + c + rest;
    if kind == KByte { PowerBig(); }
  }

  lemma {:induction false} PowerBig()
    ensures Pow256(8) > 1
  {
    assert Pow256(1) == 256;
    BigEndianLength(1, 8);
    BigEndianLength(1, 1);
  }

  /** What is accepted here has the header the stream reads. */
  lemma {:induction false} HeadAgrees(b: seq<Byte>)
    requires ReadKind(b).Ok?
    ensures var k := ReadKind(b).value;
      ReadHead(b) == Some(if k.kind == KByte then Head(KByte, 1, 0) else Head(k.kind, k.tagSize, k.contentSize))
    ensures var k := ReadKind(b).value; Canonical(k.kind, b[k.tagSize..k.tagSize + k.contentSize])
    ensures ReadKind(b).value.kind == KByte ==> ReadKind(b).value == RawKind(KByte, 0, 1)
  {
    hide Value;
  }

  lemma {:induction false} WrappedSplit(b: seq<Byte>, kind: Kind, c: seq<Byte>, rest: seq<Byte>)
    requires |c| < Pow256(8) && Canonical(kind, c) && b == Wrapped(kind, c) + rest
    ensures Split(b) == Ok((kind, c, rest))
  {
    hide Header, Pow256;
    if kind == KByte {
      assert b[0] == c[0] && b[..1] == c && b[1..] == rest;
    } else {
      var h := if kind == KString then StrHeader(|c|) else ListHeader(|c|);
      HeaderRead(if kind == KString then 0x80 else 0xC0, if kind == KString then 0xB7 else 0xF7, |c|, c + rest);
      assert b == h + (c + rest);
      SplitAt(b, h, c, rest, kind);
    }
  }

  /** The pieces `CountValues` finds. */
  function Pieces(b: seq<Byte>): Option<seq<seq<Byte>>> {
    if b == [] then Some([]) else
      match ReadKind(b)
      case Err(_) => None
      case Ok(k) =>
        var n := k.tagSize + k.contentSize;
        match Pieces(b[n..])
        case None => None
        case Some(ps) => Some([b[..n]] + ps)
  }

  /** `CountValues`. */
  method CountValues(b: seq<Byte>) returns (r: Option<nat>)
    ensures Pieces(b).None? <==> r.None?
    ensures r.Some? ==> r.value == |Pieces(b).value|
  {
    var i, rest := 0, b;
    while |rest| > 0
      invariant Pieces(b).Some? <==> Pieces(rest).Some?
      invariant Pieces(b).Some? ==> |Pieces(b).value| == i + |Pieces(rest).value|
      decreases |rest|
    {
      var k := ReadKind(rest);
      if k.Err? {
        return None;
      }
      rest := rest[k.value.tagSize + k.value.contentSize..];
      i := i + 1;
    }
    return Some(i);
  }

  function Encodings(xs: seq<Item>): (es: seq<seq<Byte>>)
    requires AllFit(xs)
    ensures |es| == |xs| && forall i :: 0 <= i < |xs| ==> es[i] == Encode(xs[i])
  {
    seq(|xs|, i requires 0 <= i < |xs| => Encode(xs[i]))
  }

  /** A first value that ends where the rest starts is the first piece. */
  lemma {:induction false} PiecesCons(e: seq<Byte>, tail: seq<Byte>)
    requires Split(e + tail).Ok? && Split(e + tail).value.2 == tail && Pieces(tail).Some?
    ensures Pieces(e + tail) == Some([e] + Pieces(tail).value)
  {
    hide KindAhead;
    var b := e + tail;
    var k := ReadKind(b).value;
    var n := k.tagSize + k.contentSize;
    assert |b[n..]| == |tail|;
    assert n == |e| && b[..n] == e && b[n..] == tail;
  }

  lemma {:induction false} PiecesNone()
    ensures Pieces([]) == Some([])
  {
  }

  /** A concatenation of encodings is cut exactly between them. */
  lemma {:induction false} PiecesOfEncodings(xs: seq<Item>)
    requires AllFit(xs)
    ensures Pieces(EncodeAll(xs)) == Some(Encodings(xs))
  {
    hide Encode, Header, Fits, Pieces, Split;
    if xs == [] {
      PiecesNone();
    } else {
      var e, tail := Encode(xs[0]), EncodeAll(xs[1..]);
      assert EncodeAll(xs) == e + tail;
      SplitEncoding(xs[0], tail);
      PiecesOfEncodings(xs[1..]);
      PiecesCons(e, tail);
      assert Encodings(xs) == [e] + Encodings(xs[1..]);
    }
  }

  /** Where decoding succeeds, so does splitting, and at the same place. */
  lemma {:induction false} SplitAgreesWithParse(b: seq<Byte>)
    requires Parse(b).Some?
    ensures Split(b).Ok? && Split(b).value.2 == b[Parse(b).value.1..]
  {
    var (x, n) := Parse(b).value;
    ParseSound(b);
    assert b == Encode(x) + b[n..];
    SplitEncoding(x, b[n..]);
  }
}
