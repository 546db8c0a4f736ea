/** The encoder: an output buffer whose list headers are filled in when their lists end, and the ways to read it out. */
module RlpEncode {
  import opened Options
  import opened RlpSpec
  import opened RlpFlat
  import opened RlpTyped

  /** `intsize`: how many bytes a number needs, at least one. */
  method IntSize(n: nat) returns (size: nat)
    ensures size == if n == 0 then 1 else |BigEndian(n)|
  {
    size := 1;
    var i: nat := n / 256;
    while i != 0
      invariant (if n == 0 then 1 else |BigEndian(n)|) == size + |BigEndian(i)|
    {
      i := i / 256;
      size := size + 1;
    }
  }

  /** The last `k` base-256 digits. */
  function Digits(i: nat, k: nat): (b: seq<Byte>)
    ensures |b| == k
  {
    if k == 0 then [] else Digits(i / 256, k - 1) + [i % 256]
  }

  /** `putint`: as many digits as the magnitude asks for. */
  function PutInt(i: nat): (b: seq<Byte>)
    requires i < Pow256(8)
  {
    if i < 0x100 then Digits(i, 1)
    else if i < 0x1_0000 then Digits(i, 2)
    else if i < 0x100_0000 then Digits(i, 3)
    else if i < 0x1_0000_0000 then Digits(i, 4)
    else if i < 0x100_0000_0000 then Digits(i, 5)
    else if i < 0x1_0000_0000_0000 then Digits(i, 6)
    else if i < 0x100_0000_0000_0000 then Digits(i, 7)
    else Digits(i, 8)
  }

  lemma {:induction false} DigitsAreBigEndian(i: nat, k: nat)
    requires k > 0 && Pow256(k - 1) <= i < Pow256(k)
    ensures Digits(i, k) == BigEndian(i)
  {
    if k > 1 {
      DigitsAreBigEndian(i / 256, k - 1);
    } else {
      assert i / 256 == 0;
    }
  }

  lemma {:induction false} Powers()
    ensures Pow256(0) == 1 && Pow256(1) == 0x100 && Pow256(2) == 0x1_0000 && Pow256(3) == 0x100_0000
      && Pow256(4) == 0x1_0000_0000
    ensures Pow256(5) == 0x100_0000_0000 && Pow256(6) == 0x1_0000_0000_0000 && Pow256(7) == 0x100_0000_0000_0000
  {
    assert Pow256(2) == 256 * Pow256(1) && Pow256(3) == 256 * Pow256(2) && Pow256(4) == 256 * Pow256(3);
    assert Pow256(5) == 256 * Pow256(4) && Pow256(6) == 256 * Pow256(5) && Pow256(7) == 256 * Pow256(6);
  }

  /** `putint` writes the minimal big endian bytes. */
  lemma {:induction false} PutIntBigEndian(i: nat)
    requires 0 < i < Pow256(8)
    ensures PutInt(i) == BigEndian(i)
  {
    Powers();
    DigitsAreBigEndian(i, |PutInt(i)|);
  }

  /** From 128 on, a number is not written as a bare byte. */
  lemma {:induction false} TwoBytes(i: nat)
    requires i >= 128
    ensures |BigEndian(i)| > 1 || BigEndian(i)[0] > 0x7F
  {
    if i < 256 { assert BigEndian(i) == BigEndian(0) + [i]; }
  }

  /** `putint` into a buffer from `off` on. It panics when the buffer ends before the digits do. */
  method PutIntAt(b: array<Byte>, off: nat, i: nat) returns (size: Option<nat>)
    requires i < Pow256(8) && off <= b.Length
    modifies b
    ensures size == None <==> off + |PutInt(i)| > b.Length
    ensures size.Some? ==> size.value == |PutInt(i)| && b[..] == old(b[..off]) + PutInt(i) + old(b[off + |PutInt(i)|..])
  {
    hide PutInt;
    var d := PutInt(i);
    for k := 0 to |d|
      invariant off + k <= b.Length && b[..off] == old(b[..off]) && b[off..off + k] == d[..k]
        && b[off + k..] == old(b[off + k..])
    {
      if off + k >= b.Length {
        return None;
      }
      b[off + k] := d[k];
      assert b[off..off + k + 1] == b[off..off + k] + [d[k]] && b[off + k + 1..] == b[off + k..][1..]
        && old(b[off + k + 1..]) == old(b[off + k..])[1..];
    }
    assert d[..|d|] == d;
    assert b[..] == b[..off] + b[off..off + |d|] + b[off + |d|..];
    return Some(|d|);
  }

  /** `puthead`, which takes at most the nine bytes its callers provide. */
  function PutHead(small: int, large: int, size: nat): (h: seq<Byte>)
    requires ((small == 0x80 && large == 0xB7) || (small == 0xC0 && large == 0xF7)) && size < Pow256(8)
    ensures |h| <= 9
  {
    if size < 56 then [small + size] else
      PutIntBigEndian(size);
      BigEndianLength(size, 8);
      [large + |PutInt(size)|] + PutInt(size)
  }

  lemma {:induction false} PutHeadIsHeader(small: int, large: int, size: nat)
    requires ((small == 0x80 && large == 0xB7) || (small == 0xC0 && large == 0xF7)) && size < Pow256(8)
    ensures PutHead(small, large, size) == Header(small, large, size)
  {
    if size >= 56 { PutIntBigEndian(size); }
  }

  /** How many digits `putint` writes. */
  lemma {:induction false} PutIntSize(i: nat, k: nat)
    requires 0 < i < Pow256(8)
    ensures |PutInt(i)| <= k <==> i < Pow256(k)
    ensures 0 < |PutInt(i)| <= 8
  {
    PutIntBigEndian(i);
    BigEndianLength(i, k);
    BigEndianLength(i, 8);
    BigEndianLength(i, 0);
  }

  lemma {:induction false} Sizes()
    ensures Pow256(7) < Pow256(8) && Pow256(8) > 0x100_0000_0000_0000
  {
    Powers();
    assert Pow256(8) == 256 * Pow256(7);
  }

  /** The type of an element or a field. */
  function PartType(t: Type, i: nat): Type
    requires t.TSlice? || (t.TStruct? && i < |t.fields|)
  {
    if t.TSlice? then t.elem else t.fields[i]
  }

  ghost predicate PartWritable(t: Type, v: Val, i: nat) {
    && v.VSeq? && i < |v.vs| && (t.TSlice? || (t.TStruct? && i < |t.fields|))
    && ValidType(PartType(t, i)) && HasType(PartType(t, i), v.vs[i]) && Writable(PartType(t, i), v.vs[i])
  }

  lemma {:induction false} PartsWritable(t: Type, v: Val)
    requires (t.TSlice? || t.TStruct?) && ValidType(t) && HasType(t, v)
    ensures v.VSeq? && (Writable(t, v) <==> forall i :: 0 <= i < |v.vs| ==> PartWritable(t, v, i))
  {
    if t.TSlice? {
      assert Writable(t, v) ==> forall i :: 0 <= i < |v.vs| ==> Writable(t.elem, v.vs[i]);
      if forall i :: 0 <= i < |v.vs| ==> PartWritable(t, v, i) {
        forall i | 0 <= i < |v.vs| ensures Writable(t.elem, v.vs[i]) { assert PartWritable(t, v, i); }
      }
    } else {
      assert Writable(t, v) ==> forall i :: 0 <= i < |t.fields| ==> Writable(t.fields[i], v.vs[i]);
      if forall i :: 0 <= i < |v.vs| ==> PartWritable(t, v, i) {
        forall i | 0 <= i < |t.fields| ensures Writable(t.fields[i], v.vs[i]) { assert PartWritable(t, v, i); }
      }
    }
  }

  lemma {:induction false} PartCount(t: Type, v: Val)
    requires (t.TSlice? || t.TStruct?) && HasType(t, v)
    ensures v.VSeq? && ToItem(t, v).List? && |ToItem(t, v).items| == |v.vs|
  {
  }

  lemma {:induction false} NoneWritten(xs: seq<Item>, off: nat)
    ensures AllFit(xs[..0]) && StrsAll(xs[..0]) == [] && HeadsAll(xs[..0], off) == [] && EncodeAll(xs[..0]) == []
  {
  }

  class EncBuf {
    var str: seq<Byte>
    var lheads: seq<ListHead>
    var lhsize: int
    /** Nine bytes, in which headers and numbers are put together. */
    const sizebuf: array<Byte>

    constructor ()
      ensures str == [] && lheads == [] && lhsize == 0 && fresh(sizebuf) && Ready()
    {
      str, lheads, lhsize := [], [], 0;
      sizebuf := new Byte[9];
    }

    predicate Ready() {
      sizebuf.Length == 9
    }

    /** `encodeStringHeader`. */
    method EncodeStringHeader(size: nat)
      requires Ready() && size < Pow256(8)
      modifies this`str, sizebuf
      ensures str == old(str) + StrHeader(size)
    {
      hide PutInt, BigEndian, Pow256;
      if size < 56 {
        str := str + [0x80 + size];
      } else {
        PutIntSize(size, 8);
        PutIntBigEndian(size);
        var sizesize := PutIntAt(sizebuf, 1, size);
        ghost var d := PutInt(size);
        assert sizebuf[1..1 + |d|] == d;
        sizebuf[0] := 0xB7 + sizesize.value;
        assert sizebuf[..1 + |d|] == [0xB7 + |d|] + d;
        str := str + sizebuf[..sizesize.value + 1];
      }
    }

    /** `encodeString`. */
    method EncodeString(b: seq<Byte>)
      requires Ready() && |b| < Pow256(8)
      modifies this`str, sizebuf
      ensures str == old(str) + EncodeStr(b)
    {
      hide StrHeader;
      if |b| == 1 && b[0] <= 0x7F {
        str := str + [b[0]];
        assert b == [b[0]];
      } else {
        EncodeStringHeader(|b|);
        str := str + b;
      }
    }

    /** `writeUint`: as the string of its big endian bytes. */
    method WriteUint(i: nat)
      requires Ready() && i < Pow256(8)
      modifies this`str, sizebuf
      ensures |BigEndian(i)| <= 8 < Pow256(8) && str == old(str) + EncodeStr(BigEndian(i))
    {
      BigEndianLength(i, 8);
      Sizes();
      if i == 0 {
        str := str + [0x80];
      } else if i < 128 {
        str := str + [i];
        assert i / 256 == 0 && BigEndian(i) == BigEndian(0) + [i];
      } else {
        PutIntSize(i, 8);
        PutIntBigEndian(i);
        TwoBytes(i);
        hide PutInt, BigEndian, Pow256;
        var s := PutIntAt(sizebuf, 1, i);
        ghost var d := PutInt(i);
        assert sizebuf[1..1 + |d|] == d;
        sizebuf[0] := 0x80 + s.value;
        assert sizebuf[..1 + |d|] == [0x80 + |d|] + d;
        str := str + sizebuf[..s.value + 1];
      }
    }

    /**
      `writeInt`: as the string of its sign byte and magnitude. Size, sign and magnitude are put together in the nine
      bytes,
      so that it panics if and only if the magnitude takes more than seven.
     */
    method WriteInt(i: int) returns (ok: bool)
      requires Ready() && Abs(i) < Pow256(8)
      modifies this`str, sizebuf
      ensures ok <==> Abs(i) < Pow256(7)
      ensures ok ==> |IntBytes(i)| <= 8 < Pow256(8) && str == old(str) + EncodeStr(IntBytes(i))
    {
      hide PutInt, Pow256, BigEndian;
      Sizes();
      if i == 0 {
        str := str + [0x80];
        return true;
      }
      var sign, abs := i > 0, if i > 0 then i else -i;
      PutIntSize(abs, 7);
      PutIntBigEndian(abs);
      var s := PutIntAt(sizebuf, 2, abs);
      if s == None {
        return false;
      }
      ghost var d := PutInt(abs);
      assert sizebuf[2..2 + |d|] == d;
      sizebuf[0] := 0x80 + 1 + s.value;
      sizebuf[1] := if sign then 0x01 else 0x80;
      assert sizebuf[..2 + |d|] == [0x80 + 1 + |d|] + ([if sign then 0x01 else 0x80] + d);
      assert IntBytes(i) == [if sign then 0x01 else 0x80] + d;
      str := str + sizebuf[..s.value + 2];
      return true;
    }

    /** `list`: remembers where the header goes and how many header bytes there are already. */
    method ListStart() returns (lh: nat)
      requires lhsize >= 0
      modifies this`lheads
      ensures lh == |old(lheads)| && lheads == old(lheads) + [ListHead(|str|, lhsize)]
    {
      lh := |lheads|;
      lheads := lheads + [ListHead(|str|, lhsize)];
    }

    /** `listEnd`: the payload is everything since. */
    method ListEnd(lh: nat)
      requires lh < |lheads| && lheads[lh].offset + lheads[lh].size <= |str| + lhsize < Pow256(8)
      modifies this`lheads, this`lhsize
      ensures var n: nat := |str| + old(lhsize) - old(lheads[lh]).offset - old(lheads[lh]).size;
        && lheads == old(lheads)[lh := old(lheads[lh]).(size := n)]
        && n < Pow256(8) && lhsize == old(lhsize) + |ListHeader(n)|
    {
      var n: nat := Size() - lheads[lh].offset - lheads[lh].size;
      lheads := lheads[lh := lheads[lh].(size := n)];
      if n < 56 {
        lhsize := lhsize + 1;
      } else {
        var s := IntSize(n);
        lhsize := lhsize + 1 + s;
      }
    }

    /** `size`. */
    function Size(): int
      reads this
    {
      |str| + lhsize
    }

    /**
      The writer for an item of any nesting: afterwards the buffer holds its string data and headers, and the sizes
      are exact.
     */
    method Write(x: Item)
      requires Ready() && Fits(x) && 0 <= lhsize && |str| + lhsize + |Encode(x)| < Pow256(8)
      modifies this, sizebuf
      ensures str == old(str) + Strs(x) && lheads == old(lheads) + Heads(x, |old(str)|)
      ensures lhsize == old(lhsize) + |Encode(x)| - |Strs(x)| && 0 <= lhsize
      decreases x, 1
    {
      hide Header, EncodeStr;
      match x
      case Str(b) =>
        EncodeString(b);
        assert lheads + [] == lheads;
      case List(xs) =>
        hide StrsAll, HeadsAll, EncodeAll;
        var lh := ListStart();
        WriteAll(xs, x);
        ListEnd(lh);
    }

    /** The elements of a list, one by one. */
    method WriteAll(xs: seq<Item>, x: Item)
      requires Ready() && x == List(xs) && AllFit(xs) && 0 <= lhsize && |str| + lhsize + |EncodeAll(xs)| < Pow256(8)
      modifies this, sizebuf
      ensures str == old(str) + StrsAll(xs) && lheads == old(lheads) + HeadsAll(xs, |old(str)|)
      ensures lhsize == old(lhsize) + |EncodeAll(xs)| - |StrsAll(xs)| && 0 <= lhsize
      decreases x, 0
    {
      hide Header, Encode, Strs, Heads, Fits;
      for i := 0 to |xs|
        invariant AllFit(xs[..i])
        invariant str == old(str) + StrsAll(xs[..i]) && lheads == old(lheads) + HeadsAll(xs[..i], |old(str)|)
        invariant lhsize == old(lhsize) + |EncodeAll(xs[..i])| - |StrsAll(xs[..i])| && 0 <= lhsize
      {
        WriteNext(xs, i, |old(str)|);
        Write(xs[i]);
      }
      assert xs[..|xs|] == xs;
    }

    /** The buffer has grown by item `x`. */
    twostate predicate Grew(x: Item)
      requires Fits(x)
      reads this
    {
      && str == old(str) + Strs(x) && lheads == old(lheads) + Heads(x, |old(str)|)
      && lhsize == old(lhsize) + |Encode(x)| - |Strs(x)| && 0 <= lhsize
    }

    /** The writer of a type: the item that the value is written as, unless an integer does not fit the nine bytes. */
    method WriteTyped(t: Type, v: Val, ghost x: Item) returns (ok: bool)
      requires Ready() && ValidType(t) && HasType(t, v) && x == ToItem(t, v)
      requires Fits(x) && 0 <= lhsize && |str| + lhsize + |Encode(x)| < Pow256(8)
      modifies this, sizebuf
      ensures ok <==> Writable(t, v)
      ensures ok ==> Grew(x)
      decreases t, 3
    {
      hide Header, EncodeStr, EncodeAll, StrsAll, HeadsAll, BigEndian, IntBytes;
      ok := true;
      match t
      case TUint(w) =>
        PowersGrow(w, 8);
        WriteUint(v.n);
        assert lheads + [] == lheads;
      case TInt(w) =>
        PowersGrow(w, 8);
        ok := WriteInt(v.i);
        assert lheads + [] == lheads;
      case TBool =>
        WriteBool(v.b);
      case TBytes =>
        EncodeString(v.bytes);
        assert lheads + [] == lheads;
      case TByteArray(_) =>
        EncodeString(v.bytes);
        assert lheads + [] == lheads;
      case TBigInt =>
        WriteBigInt(v);
      case TSlice(e) =>
        ok := WriteList(t, v, x.items);
      case TStruct(fs) =>
        ok := WriteList(t, v, x.items);
      case TPointer(e) =>
        if v == VNil {
          WriteNil(e);
        } else {
          ok := WriteTyped(e, v.v, x);
        }
      case TOptional(e) =>
        if v == VNil {
          WriteNil(e);
        } else {
          ok := WriteTyped(e, v.v, x);
        }
    }

    /** `writeBool`. */
    method WriteBool(b: bool)
      requires lhsize >= 0
      modifies this`str
      ensures Fits(Str(if b then [0x01] else [])) && Grew(Str(if b then [0x01] else []))
    {
      Sizes();
      str := str + [if b then 0x01 else 0x80];
      assert lheads + [] == lheads;
    }

    /** `writeBigIntPtr`. */
    method WriteBigInt(v: Val)
      requires Ready() && HasType(TBigInt, v) && lhsize >= 0 && Fits(ToItem(TBigInt, v))
      modifies this`str, sizebuf
      ensures Grew(ToItem(TBigInt, v))
    {
      assert lheads + [] == lheads;
      if v == VNil || v.n == 0 {
        str := str + [0x80];
      } else {
        EncodeString(BigEndian(v.n));
      }
    }

    /** What `makePtrWriter` does for a nil pointer to the type. */
    method WriteNil(t: Type)
      requires lhsize >= 0 && |str| + lhsize + 1 < Pow256(8)
      modifies this
      ensures Fits(NilItem(t)) && Grew(NilItem(t))
      decreases t
    {
      Sizes();
      match t
      case TSlice(_) =>
        var lh := ListStart();
        ListEnd(lh);
      case TStruct(_) =>
        var lh := ListStart();
        ListEnd(lh);
      case TPointer(e) =>
        WriteNil(e);
      case TOptional(e) =>
        WriteNil(e);
      case _ =>
        str := str + [0x80];
        assert lheads + [] == lheads;
    }

    /** `makeSliceWriter` and `makeStructWriter`: a list of the elements, or of the fields. */
    method WriteList(t: Type, v: Val, ghost xs: seq<Item>) returns (ok: bool)
      requires Ready() && (t.TSlice? || t.TStruct?) && ValidType(t) && HasType(t, v) && List(xs) == ToItem(t, v)
      requires Fits(List(xs)) && 0 <= lhsize && |str| + lhsize + |Encode(List(xs))| < Pow256(8)
      modifies this, sizebuf
      ensures ok <==> Writable(t, v)
      ensures ok ==> Grew(List(xs))
      decreases t, 2
    {
      hide Header, StrsAll, HeadsAll, EncodeAll, ToItem;
      var lh := ListStart();
      ok := WriteEach(t, v, xs);
      if ok {
        ListEnd(lh);
      }
    }

    /** The elements or fields, one by one. */
    method WriteEach(t: Type, v: Val, ghost xs: seq<Item>) returns (ok: bool)
      requires Ready() && (t.TSlice? || t.TStruct?) && ValidType(t) && HasType(t, v) && List(xs) == ToItem(t, v)
      requires AllFit(xs) && 0 <= lhsize && |str| + lhsize + |EncodeAll(xs)| < Pow256(8)
      modifies this, sizebuf
      ensures ok <==> Writable(t, v)
      ensures ok ==> str == old(str) + StrsAll(xs) && lheads == old(lheads) + HeadsAll(xs, |old(str)|)
      ensures ok ==> lhsize == old(lhsize) + |EncodeAll(xs)| - |StrsAll(xs)| && 0 <= lhsize
      decreases t, 1
    {
      hide Header, Strs, Heads, Encode, Fits, StrsAll, HeadsAll, EncodeAll, ToItem, HasType, ValidType, Writable;
      PartsWritable(t, v);
      assert |xs| == |v.vs| by { PartCount(t, v); }
      NoneWritten(xs, |str|);
      for i := 0 to |v.vs|
        invariant AllFit(xs[..i]) && forall k :: 0 <= k < i ==> PartWritable(t, v, k)
        invariant str == old(str) + StrsAll(xs[..i]) && lheads == old(lheads) + HeadsAll(xs[..i], |old(str)|)
        invariant lhsize == old(lhsize) + |EncodeAll(xs[..i])| - |StrsAll(xs[..i])| && 0 <= lhsize
      {
        WriteNext(xs, i, |old(str)|);
        ok := WritePart(t, v, xs, i);
        if !ok {
          return false;
        }
      }
      assert xs[..|xs|] == xs;
      return true;
    }

    method WritePart(t: Type, v: Val, ghost xs: seq<Item>, i: nat) returns (ok: bool)
      requires Ready() && (t.TSlice? || t.TStruct?) && ValidType(t) && HasType(t, v) && List(xs) == ToItem(t, v)
        && i < |v.vs|
      requires Fits(xs[i]) && 0 <= lhsize && |str| + lhsize + |Encode(xs[i])| < Pow256(8)
      modifies this, sizebuf
      ensures ok <==> PartWritable(t, v, i)
      ensures ok ==> Grew(xs[i])
      decreases t, 0
    {
      hide Encode, Strs, Heads, Fits;
      ok := WriteTyped(PartType(t, i), v.vs[i], xs[i]);
    }

    /** The buffer holds item `x` and nothing else. */
    ghost predicate Holds(x: Item)
      reads this
    {
      Fits(x) && str == Strs(x) && lheads == Heads(x, 0) && lhsize == |Encode(x)| - |Strs(x)|
    }

    /** `toBytes`: the output is as long as the size says, and is the encoding. */
    method ToBytes(ghost x: Item) returns (out: array<Byte>)
      requires Holds(x)
      ensures fresh(out) && out.Length == Size() && out[..] == Encode(x)
    {
      hide Encode, EncodeAll, Strs, Heads, Header, PutHead, Flat, Fits, Pow256, Ahead, Ordered;
      FlatEncode(x);
      AheadAll(str, lheads);
      out := new Byte[Size()];
      var strpos, pos := 0, 0;
      for i := 0 to |lheads|
        invariant 0 <= strpos <= (if i < |lheads| then lheads[i].offset else |str|) && 0 <= pos <= out.Length
        invariant Ordered(lheads, |str|) && out[..pos] + Ahead(str, lheads, i, strpos) == Encode(x)
      {
        var head := lheads[i];
        AheadNext(str, lheads, i, strpos);
        PutHeadIsHeader(0xC0, 0xF7, head.size);
        var data, enc := str[strpos..head.offset], PutHead(0xC0, 0xF7, head.size);
        ghost var rest := Ahead(str, lheads, i + 1, head.offset);
        assert Ahead(str, lheads, i, strpos) == data + enc + rest;
        pos := CopyBoth(out, pos, data, enc, rest, Encode(x));
        strpos := head.offset;
      }
      AheadEnd(str, lheads, strpos);
      pos := CopyTo(out, pos, str[strpos..], [], Encode(x));
    }

    /** `toWriter`: what is written, one piece after the other. */
    method ToWriter(ghost x: Item) returns (out: seq<Byte>)
      requires Holds(x)
      ensures out == Encode(x)
    {
      hide Encode, EncodeAll, Strs, Heads, Header, PutHead, Flat, Fits, Pow256, Ahead;
      FlatEncode(x);
      AheadAll(str, lheads);
      out := [];
      var strpos := 0;
      for i := 0 to |lheads|
        invariant 0 <= strpos <= (if i < |lheads| then lheads[i].offset else |str|)
        invariant Ordered(lheads, |str|) && out + Ahead(str, lheads, i, strpos) == Encode(x)
      {
        var head := lheads[i];
        AheadNext(str, lheads, i, strpos);
        ghost var rest := Ahead(str, lheads, i + 1, head.offset);
        Regroup(out, str[strpos..head.offset], PutHead(0xC0, 0xF7, head.size), rest);
        assert head.offset == strpos ==> str[strpos..head.offset] == [];
        if head.offset - strpos > 0 {
          out := out + str[strpos..head.offset];
          strpos := head.offset;
        }
        PutHeadIsHeader(0xC0, 0xF7, head.size);
        out := out + PutHead(0xC0, 0xF7, head.size);
      }
      AheadEnd(str, lheads, strpos);
      assert strpos == |str| ==> str[strpos..] == [];
      if strpos < |str| {
        out := out + str[strpos..];
      }
    }
  }

  /** `EncodeToBytes`. */
  method EncodeToBytes(x: Item) returns (out: array<Byte>)
    requires Fits(x) && |Encode(x)| < Pow256(8)
    ensures fresh(out) && out[..] == Encode(x)
  {
    var eb := new EncBuf();
    eb.Write(x);
    assert [] + Strs(x) == Strs(x) && [] + Heads(x, 0) == Heads(x, 0);
    out := eb.ToBytes(x);
  }

  /** `EncodeToBytes` of a typed value: the bytes of its item, or an index out of range. */
  method EncodeTyped(t: Type, v: Val) returns (out: Option<array<Byte>>)
    requires ValidType(t) && HasType(t, v) && Fits(ToItem(t, v)) && |Encode(ToItem(t, v))| < Pow256(8)
    ensures out == None <==> !Writable(t, v)
    ensures out.Some? ==> fresh(out.value) && out.value[..] == Encode(ToItem(t, v))
  {
    ghost var x := ToItem(t, v);
    var eb := new EncBuf();
    var ok := eb.WriteTyped(t, v, x);
    if !ok {
      return None;
    }
    assert [] + Strs(x) == Strs(x) && [] + Heads(x, 0) == Heads(x, 0);
    var bytes := eb.ToBytes(x);
    return Some(bytes);
  }

  /** A signed integer of 64 bits from 2^56 on is not written. */
  method TooLongForBuffer() returns (ok: bool)
    ensures HasType(TInt(8), VInt(0x100_0000_0000_0000)) && !ok
  {
    Powers();
    assert Pow256(8) == 256 * Pow256(7);
    var eb := new EncBuf();
    ok := eb.WriteInt(0x100_0000_0000_0000);
  }

  /** `EncodeToReader`: the size told is the number of bytes there are to read. */
  method EncodeToReader(x: Item) returns (size: int, r: EncReader)
    requires Fits(x) && |Encode(x)| < Pow256(8)
    ensures fresh(r) && fresh(r.buf) && r.Inv(x) && r.Rest(x) == Encode(x) && size == |Encode(x)|
  {
    var eb := new EncBuf();
    eb.Write(x);
    assert [] + Strs(x) == Strs(x) && [] + Heads(x, 0) == Heads(x, 0);
    size := eb.Size();
    r := new EncReader(eb, x);
  }

  lemma {:induction false} Regroup(out: seq<Byte>, data: seq<Byte>, enc: seq<Byte>, rest: seq<Byte>)
    ensures out + (data + enc + rest) == out + data + enc + rest
  {
  }

  /** Put bytes into the output where it has got to. `all` is what it will be. */
  method CopyTo(out: array<Byte>, pos: nat, data: seq<Byte>, ghost rest: seq<Byte>, ghost all: seq<Byte>)
    returns (pos': nat)
    requires pos <= out.Length && out[..pos] + (data + rest) == all && |all| == out.Length
    modifies out
    ensures pos' == pos + |data| <= out.Length && out[..pos'] + rest == all
  {
    pos' := pos + |data|;
    assert |out[..pos]| == pos;
    forall i | 0 <= i < |data| {
      out[pos + i] := data[i];
    }
    assert out[..pos'] == old(out[..pos]) + data;
  }

  /** String data and the header after it. */
  method CopyBoth(out: array<Byte>, pos: nat, data: seq<Byte>, enc: seq<Byte>, ghost rest: seq<Byte>,
                  ghost all: seq<Byte>)
    returns (pos': nat)
    requires pos <= out.Length && out[..pos] + (data + enc + rest) == all && |all| == out.Length
    modifies out
    ensures pos' <= out.Length && out[..pos'] + rest == all
  {
    assert data + enc + rest == data + (enc + rest);
    pos' := CopyTo(out, pos, data, enc + rest, all);
    pos' := CopyTo(out, pos', enc, rest, all);
  }

  /** `encReader`: hands the encoding out in pieces of any size. */
  class EncReader {
    const buf: EncBuf
    /** The buffer has been given back. */
    var closed: bool
    var lhpos: nat
    var strpos: nat
    var piece: Option<seq<Byte>>

    constructor (buf: EncBuf, ghost x: Item)
      requires buf.Holds(x)
      ensures this.buf == buf && Inv(x) && Rest(x) == Encode(x)
    {
      this.buf := buf;
      closed, lhpos, strpos, piece := false, 0, 0, None;
      new;
      FlatEncode(x);
      AheadAll(buf.str, buf.lheads);
    }

    ghost predicate Inv(x: Item)
      reads this, buf
    {
      && buf.Holds(x) && Ordered(buf.lheads, |buf.str|)
      && lhpos <= |buf.lheads| && strpos <= (if lhpos < |buf.lheads| then buf.lheads[lhpos].offset else |buf.str|)
      && (piece.Some? ==> piece.value != [])
      && (closed ==> piece == None && lhpos == |buf.lheads| && strpos == |buf.str|)
    }

    /** What is still to be read. */
    ghost function Rest(x: Item): seq<Byte>
      requires Inv(x)
      reads this, buf
    {
      (if piece.Some? then piece.value else []) + Ahead(buf.str, buf.lheads, lhpos, strpos)
    }

    /** `next`: the next piece, `None` at the end. */
    method Next(ghost x: Item) returns (p: Option<seq<Byte>>)
      requires Inv(x)
      modifies this`lhpos, this`strpos
      ensures buf.Holds(x) && Ordered(buf.lheads, |buf.str|)
      ensures lhpos <= |buf.lheads| && strpos <= (if lhpos < |buf.lheads| then buf.lheads[lhpos].offset else |buf.str|)
      ensures p.Some? ==> p.value != [] && !closed
      ensures p == None ==> old(Rest(x)) == [] && lhpos == |buf.lheads| && strpos == |buf.str|
      ensures (if p.Some? then p.value else []) + Ahead(buf.str, buf.lheads, lhpos, strpos) == old(Rest(x))
    {
      hide EncBuf.Holds, Encode, EncodeAll, Strs, Heads, Header, PutHead, Flat, Fits, Ahead;
      if lhpos == |buf.lheads| { AheadEnd(buf.str, buf.lheads, strpos); }
      if closed {
        return None;
      }
      if piece.Some? {
        return piece;
      }
      if lhpos < |buf.lheads| {
        var head := buf.lheads[lhpos];
        AheadNext(buf.str, buf.lheads, lhpos, strpos);
        var sizebefore := head.offset - strpos;
        if sizebefore > 0 {
          p := Some(buf.str[strpos..head.offset]);
          strpos := strpos + sizebefore;
          AheadNext(buf.str, buf.lheads, lhpos, strpos);
          assert buf.str[strpos..head.offset] == [];
          return;
        }
        PutHeadIsHeader(0xC0, 0xF7, head.size);
        assert buf.str[strpos..head.offset] == [];
        lhpos := lhpos + 1;
        return Some(PutHead(0xC0, 0xF7, head.size));
      }
      if strpos < |buf.str| {
        p := Some(buf.str[strpos..]);
        strpos := |buf.str|;
        AheadEnd(buf.str, buf.lheads, strpos);
        return;
      }
      return None;
    }

    /** One round of `Read`, with `room` bytes left in the buffer. */
    method Pull(room: nat, ghost x: Item) returns (b: seq<Byte>, full: bool, eof: bool)
      requires Inv(x)
      modifies this`closed, this`lhpos, this`strpos, this`piece
      ensures Inv(x) && b + Rest(x) == old(Rest(x)) && |b| <= room
      ensures eof ==> b == [] && !full && closed && old(Rest(x)) == []
      ensures full ==> |b| == room && Rest(x) != []
      ensures !eof && !full ==> b != []
    {
      hide EncBuf.Holds, Encode, EncodeAll, Strs, Heads, Header, Fits, Ahead, Ordered;
      var p := Next(x);
      piece := p;
      if p == None {
        closed := true;
        return [], false, true;
      }
      var nn := if |p.value| <= room then |p.value| else room;
      if nn < |p.value| {
        piece := Some(p.value[nn..]);
        assert p.value == p.value[..nn] + p.value[nn..];
        return p.value[..nn], true, false;
      }
      piece := None;
      return p.value, false, false;
    }

    /**
      `Read` into a buffer of `size` bytes: exactly the next bytes, as many as fit, and the end is told when
      nothing is left.
     */
    method Read(size: nat, ghost x: Item) returns (b: seq<Byte>, eof: bool)
      requires Inv(x)
      modifies this`closed, this`lhpos, this`strpos, this`piece
      ensures Inv(x) && b + Rest(x) == old(Rest(x))
      ensures |b| == if |old(Rest(x))| <= size then |old(Rest(x))| else size
      ensures eof <==> |old(Rest(x))| <= size
      ensures eof ==> closed
    {
      hide EncBuf.Holds, EncReader.Inv, Rest;
      b := [];
      while true
        invariant Inv(x) && |b| <= size && b + Rest(x) == old(Rest(x))
        decreases |Rest(x)|
      {
        ghost var rest := Rest(x);
        var p, full, end := Pull(size - |b|, x);
        assert b + rest == (b + p) + Rest(x);
        b := b + p;
        if full || end {
          return b, end;
        }
      }
    }
  }

  /** Taking one more element. */
  lemma {:induction false} WriteNext(xs: seq<Item>, i: nat, off: nat)
    requires AllFit(xs) && i < |xs|
    ensures AllFit(xs[..i]) && AllFit(xs[..i + 1]) && Fits(xs[i])
    ensures StrsAll(xs[..i + 1]) == StrsAll(xs[..i]) + Strs(xs[i])
    ensures HeadsAll(xs[..i + 1], off) == HeadsAll(xs[..i], off) + Heads(xs[i], off + |StrsAll(xs[..i])|)
    ensures EncodeAll(xs[..i + 1]) == EncodeAll(xs[..i]) + Encode(xs[i])
    ensures |EncodeAll(xs[..i + 1])| <= |EncodeAll(xs)|
  {
    hide Encode, Strs, Heads, Fits;
    var ys := xs[..i];
    assert xs[..i + 1] == ys + [xs[i]] && (ys + [xs[i]])[..i] == ys;
    EncodeSnoc(ys, xs[i]);
    EncodePrefix(xs, i + 1);
  }

  lemma {:induction false} EncodePrefix(xs: seq<Item>, i: nat)
    requires AllFit(xs) && i <= |xs|
    ensures AllFit(xs[..i]) && |EncodeAll(xs[..i])| <= |EncodeAll(xs)|
  {
    if i == 0 {
    } else {
      assert xs[..i][1..] == xs[1..][..i - 1];
      EncodePrefix(xs[1..], i - 1);
    }
  }
}
