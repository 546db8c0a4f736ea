/** Exactly which bytes are written for some values, and which items are read as a value. */
module RlpExact {
  import opened Options
  import opened RlpSpec
  import opened RlpParse
  import opened RlpTyped
  import RlpEncode

  // ---------------------------------------------------------------- reading

  /** Nothing in the item is read leniently: no bare byte as a signed integer, and no empty value as a nil pointer. */
  ghost predicate Plain(t: Type, x: Item)
    decreases t
  {
    match t
    case TInt(_) => x.Str? ==> |x.bytes| != 1
    case TSlice(e) => x.List? ==> forall i :: 0 <= i < |x.items| ==> Plain(e, x.items[i])
    case TStruct(fs) => x.List? ==> forall i :: 0 <= i < |fs| && i < |x.items| ==> Plain(fs[i], x.items[i])
    case TPointer(e) => Plain(e, x)
    case TOptional(e) => !IsEmpty(x) && Plain(e, x)
    case _ => true
  }

  /** The item is what the value is written as, and that restores it. */
  ghost predicate Writes(t: Type, x: Item, v: Val)
    requires ValidType(t)
  {
    HasType(t, v) && Restorable(t, v) && ToItem(t, v) == x
  }

  /** Apart from the lenient cases, an item is read as a value if and only if that value is written as this item. */
  lemma {:induction false} ReadExactly(t: Type, x: Item, v: Val)
    requires ValidType(t) && Plain(t, x)
    ensures FromItem(t, x) == Some(v) <==> Writes(t, x, v)
    decreases t, 1
  {
    if FromItem(t, x) == Some(v) { ReadIsWritten(t, x); }
    if Writes(t, x, v) { RoundTrip(t, v); }
  }

  lemma {:induction false} ReadIsWritten(t: Type, x: Item)
    requires ValidType(t) && Plain(t, x) && FromItem(t, x).Some?
    ensures Writes(t, x, FromItem(t, x).value)
    decreases t, 0
  {
    match t
    case TSlice(e) => SliceRead(e, x);
    case TStruct(fs) => StructRead(fs, x);
    case TPointer(e) => ReadIsWritten(e, x);
    case TOptional(e) => ReadIsWritten(e, x);
    case _ => ScalarRead(t, x);
  }

  lemma {:induction false} ScalarRead(t: Type, x: Item)
    requires ValidType(t) && !t.TSlice? && !t.TStruct? && !t.TPointer? && !t.TOptional?
    requires Plain(t, x) && FromItem(t, x).Some?
    ensures Writes(t, x, FromItem(t, x).value)
  {
    hide Pow256, BigEndian, Value, UintOf, IntOf, IntBytes;
    match t
    case TUint(w) => UintRead(x.bytes, w);
    case TInt(w) => IntRead(x.bytes, w);
    case TBigInt => BigEndianOfValue(x.bytes);
    case _ =>
  }

  lemma {:induction false} UintRead(b: seq<Byte>, w: nat)
    requires UintOf(b, w).Some?
    ensures UintOf(b, w).value < Pow256(w) && BigEndian(UintOf(b, w).value) == b
  {
    BigEndianOfValue(b);
    BigEndianLength(Value(b), w);
  }

  lemma {:induction false} IntRead(b: seq<Byte>, w: nat)
    requires w > 0 && |b| != 1 && IntOf(b, w).Some?
    ensures var i := IntOf(b, w).value; IntBytes(i) == b && Abs(i) < Pow256(w - 1) && 0 - Pow256(w) <= 2 * i < Pow256(w)
  {
    if b != [] {
      var m := b[1..];
      BigEndianOfValue(m);
      BigEndianLength(Value(m), w - 1);
      assert b == [b[0]] + m;
    }
  }

  lemma {:induction false} SliceRead(e: Type, x: Item)
    requires ValidType(TSlice(e)) && Plain(TSlice(e), x) && FromItem(TSlice(e), x).Some?
    ensures Writes(TSlice(e), x, FromItem(TSlice(e), x).value)
    decreases e, 1
  {
    var v := FromItem(TSlice(e), x).value;
    forall i | 0 <= i < |x.items| ensures Writes(e, x.items[i], v.vs[i]) { ReadIsWritten(e, x.items[i]); }
    assert ToItem(TSlice(e), v).items == x.items;
  }

  lemma {:induction false} StructRead(fs: seq<Type>, x: Item)
    requires ValidType(TStruct(fs)) && Plain(TStruct(fs), x) && FromItem(TStruct(fs), x).Some?
    ensures Writes(TStruct(fs), x, FromItem(TStruct(fs), x).value)
    decreases fs, 1
  {
    var v := FromItem(TStruct(fs), x).value;
    forall i | 0 <= i < |fs| ensures Writes(fs[i], x.items[i], v.vs[i]) { ReadIsWritten(fs[i], x.items[i]); }
    assert ToItem(TStruct(fs), v).items == x.items;
  }

  /** The lenient cases: a bare byte is that number, if it is not zero, and both empty values are nil. */
  lemma {:induction false} LenientReads(w: nat, c: Byte, e: Type)
    requires 0 < w <= 8
    ensures FromItem(TInt(w), Str([c])) == if 0 < c < 0x80 then Some(VInt(c)) else None
    ensures FromItem(TOptional(e), Str([])) == FromItem(TOptional(e), List([])) == Some(VNil)
  {
  }

  /** Bytes stand for a value exactly if they are the encoding of an item that is read as it, and nothing else. */
  lemma {:induction false} MeaningExact(t: Type, b: seq<Byte>, v: Val)
    ensures Meaning(t, b) == Some(v) <==> exists x :: Fits(x) && Encode(x) == b && FromItem(t, x) == Some(v)
  {
    hide FromItem, Parse, Encode, Fits;
    if Meaning(t, b) == Some(v) {
      var (x, n) := Parse(b).value;
      ParseSound(b);
      assert Fits(x) && Encode(x) == b[..n] == b && FromItem(t, x) == Some(v);
    }
    if x :| Fits(x) && Encode(x) == b && FromItem(t, x) == Some(v) {
      ParseComplete(x, []);
      assert Encode(x) + [] == b;
    }
  }

  // ---------------------------------------------------------------- bytes

  /** Every header of a payload of less than 64K, byte by byte. */
  lemma {:induction false} HeaderBytes(size: nat)
    requires size < 0x1_0000
    ensures size < Pow256(8)
    ensures StrHeader(size) == if size < 56 then [0x80 + size] else if size < 256 then [0xB8, size]
      else [0xB9, size / 256, size % 256]
    ensures ListHeader(size) == if size < 56 then [0xC0 + size] else if size < 256 then [0xF8, size]
      else [0xF9, size / 256, size % 256]
  {
    TwoBytes(size);
    assert Pow256(2) == 0x1_0000;
    PowersGrow(2, 8);
  }

  lemma {:induction false} TwoBytes(n: nat)
    requires n < 0x1_0000
    ensures BigEndian(n) == if n == 0 then [] else if n < 256 then [n] else [n / 256, n % 256]
  {
    assert BigEndian(0) == [];
    if 0 < n {
      assert n < 256 ==> n / 256 == 0 && n % 256 == n;
      var m := n / 256;
      assert BigEndian(n) == BigEndian(m) + [n % 256];
      if m > 0 { assert BigEndian(m) == BigEndian(m / 256) + [m % 256] && m / 256 == 0; }
    }
  }

  /** Items, as the test vectors of the encoder have them. */
  lemma {:induction false} KnownItems()
    ensures Fits(Str([])) && Encode(Str([])) == [0x80]
    ensures Fits(Str([0x00])) && Encode(Str([0x00])) == [0x00]
    ensures Fits(Str([0x7F])) && Encode(Str([0x7F])) == [0x7F]
    ensures Fits(Str([0x80])) && Encode(Str([0x80])) == [0x81, 0x80]
    ensures Fits(Str([0x64, 0x6F, 0x67])) && Encode(Str([0x64, 0x6F, 0x67])) == [0x83, 0x64, 0x6F, 0x67]
    ensures Fits(List([])) && Encode(List([])) == [0xC0]
    ensures Fits(List([List([])])) && Encode(List([List([])])) == [0xC1, 0xC0]
  {
    HeaderBytes(0);
    HeaderBytes(1);
    HeaderBytes(3);
    hide Header, Pow256;
    var none := List([]);
    assert EncodeAll([]) == [];
    assert EncodeAll([none]) == Encode(none) + EncodeAll([none][1..]);
  }

  lemma {:induction false} SmallFits()
    ensures Pow256(8) >= 0x1_0000
  {
    assert Pow256(2) == 0x1_0000;
    PowersGrow(2, 8);
  }

  /** Booleans, and integers by their sign. */
  lemma {:induction false} KnownValues()
    ensures ToItem(TBool, VBool(true)) == Str([0x01]) && ToItem(TBool, VBool(false)) == Str([])
    ensures HasType(TUint(8), VUint(5)) && ToItem(TUint(8), VUint(5)) == Str([0x05])
    ensures HasType(TUint(8), VUint(1024)) && ToItem(TUint(8), VUint(1024)) == Str([0x04, 0x00])
    ensures HasType(TInt(8), VInt(5)) && ToItem(TInt(8), VInt(5)) == Str([0x01, 0x05])
    ensures HasType(TInt(8), VInt(-5)) && ToItem(TInt(8), VInt(-5)) == Str([0x80, 0x05])
    ensures HasType(TInt(8), VInt(0)) && ToItem(TInt(8), VInt(0)) == Str([])
  {
    hide Pow256, BigEndian;
    TwoBytes(5);
    TwoBytes(1024);
    SmallFits();
  }

  /** Lists are of their elements or fields in order, pointers of what they point to, and bytes of themselves. */
  lemma {:induction false} PartsInOrder(e: Type, fs: seq<Type>, vs: seq<Val>, v: Val, b: seq<Byte>)
    ensures HasType(TSlice(e), VSeq(vs)) ==> var x := ToItem(TSlice(e), VSeq(vs));
      x.List? && |x.items| == |vs| && forall i :: 0 <= i < |vs| ==> x.items[i] == ToItem(e, vs[i])
    ensures HasType(TStruct(fs), VSeq(vs)) ==> var x := ToItem(TStruct(fs), VSeq(vs));
      x.List? && |x.items| == |vs| && forall i :: 0 <= i < |vs| ==> x.items[i] == ToItem(fs[i], vs[i])
    ensures HasType(e, v) ==> ToItem(TPointer(e), VRef(v)) == ToItem(TOptional(e), VRef(v)) == ToItem(e, v)
    ensures ToItem(TBytes, VBytes(b)) == ToItem(TByteArray(|b|), VBytes(b)) == Str(b)
  {
  }

  method BytesOf(t: Type, v: Val, ghost e: seq<Byte>) returns (b: seq<Byte>)
    requires ValidType(t) && HasType(t, v) && Writable(t, v) && Fits(ToItem(t, v))
    requires Encode(ToItem(t, v)) == e && |e| < 10
    ensures b == e
  {
    assert Pow256(1) == 256;
    PowersGrow(1, 8);
    var out := RlpEncode.EncodeTyped(t, v);
    b := out.value[..];
  }

  /** What the encoder makes of true and false, and of 5 and -5. */
  method ScalarBytes() returns (yes: seq<Byte>, no: seq<Byte>, plus: seq<Byte>, minus: seq<Byte>)
    ensures yes == [0x01] && no == [0x80] && plus == [0x82, 0x01, 0x05] && minus == [0x82, 0x80, 0x05]
  {
    KnownValues();
    KnownItems();
    HeaderBytes(2);
    assert Pow256(1) == 256;
    PowersGrow(1, 7);
    hide Header, Pow256, BigEndian;
    yes := BytesOf(TBool, VBool(true), [0x01]);
    no := BytesOf(TBool, VBool(false), [0x80]);
    plus := BytesOf(TInt(8), VInt(5), [0x82, 0x01, 0x05]);
    minus := BytesOf(TInt(8), VInt(-5), [0x82, 0x80, 0x05]);
  }

  /** What it makes of nil pointers: to any slice, to any structure, to a number, and to a byte string. */
  method NilBytes(e: Type, fs: seq<Type>)
    returns (slice: seq<Byte>, struct: seq<Byte>, number: seq<Byte>, bytes: seq<Byte>)
    requires ValidType(TSlice(e)) && ValidType(TStruct(fs))
    ensures slice == [0xC0] && struct == [0xC0] && number == [0x80] && bytes == [0x80]
  {
    KnownItems();
    hide Header, Pow256, BigEndian, Encode, Fits;
    slice := BytesOf(TPointer(TSlice(e)), VNil, [0xC0]);
    struct := BytesOf(TPointer(TStruct(fs)), VNil, [0xC0]);
    number := BytesOf(TPointer(TUint(8)), VNil, [0x80]);
    bytes := BytesOf(TPointer(TBytes), VNil, [0x80]);
  }
}
