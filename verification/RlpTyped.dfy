/** Typed values over a schema: how each type is written, how it is read back, and when that restores the value. */
module RlpTyped {
  import opened Options
  import opened RlpSpec
  import opened RlpParse

  /**
    Integers by their width in bytes. `TBigInt` is a pointer to a big integer, which is handled as such before anything
    else is looked at. `TOptional` is any other pointer, in a field tagged `nil`. An array that is not of bytes is
    handled as a structure of that many equal fields.
   */
  datatype Type =
    | TUint(width: nat)
    | TInt(width: nat)
    | TBool
    | TBytes
    | TByteArray(len: nat)
    | TBigInt
    | TSlice(elem: Type)
    | TStruct(fields: seq<Type>)
    | TPointer(target: Type)
    | TOptional(target: Type)

  datatype Val = VUint(n: nat) | VInt(i: int) | VBool(b: bool) | VBytes(bytes: seq<Byte>) | VSeq(vs: seq<Val>)
               | VNil | VRef(v: Val)

  const PLUS: Byte := 0x01
  const MINUS: Byte := 0x80

  function Abs(i: int): nat {
    if i < 0 then -i else i
  }

  /** A type there is: a slice of single bytes is a byte string. Arrays of one byte are left out. */
  ghost predicate ValidType(t: Type)
    decreases t
  {
    match t
    case TUint(w) => 0 < w <= 8
    case TInt(w) => 0 < w <= 8
    case TByteArray(len) => len != 1
    case TSlice(e) => e != TUint(1) && ValidType(e)
    case TStruct(fs) => forall i :: 0 <= i < |fs| ==> ValidType(fs[i])
    case TPointer(e) => ValidType(e)
    case TOptional(e) => ValidType(e)
    case _ => true
  }

  /** `v` is a value of type `t`. */
  ghost predicate HasType(t: Type, v: Val)
    decreases t
  {
    match t
    case TUint(w) => v.VUint? && v.n < Pow256(w)
    case TInt(w) => v.VInt? && 0 - Pow256(w) <= 2 * v.i < Pow256(w)
    case TBool => v.VBool?
    case TBytes => v.VBytes?
    case TByteArray(len) => v.VBytes? && |v.bytes| == len
    case TBigInt => v == VNil || v.VUint?
    case TSlice(e) => v.VSeq? && forall i :: 0 <= i < |v.vs| ==> HasType(e, v.vs[i])
    case TStruct(fs) => v.VSeq? && |v.vs| == |fs| && forall i :: 0 <= i < |fs| ==> HasType(fs[i], v.vs[i])
    case TPointer(e) => v == VNil || (v.VRef? && HasType(e, v.v))
    case TOptional(e) => v == VNil || (v.VRef? && HasType(e, v.v))
  }

  // ---------------------------------------------------------------- writing

  /** What a nil pointer to the type is written as. */
  function NilItem(t: Type): Item {
    match t
    case TSlice(_) => List([])
    case TStruct(_) => List([])
    case TPointer(e) => NilItem(e)
    case TOptional(e) => NilItem(e)
    case _ => Str([])
  }

  /** `writeInt`: a sign byte, then the magnitude. */
  function IntBytes(i: int): seq<Byte> {
    if i == 0 then [] else [if i > 0 then PLUS else MINUS] + BigEndian(Abs(i))
  }

  ghost function ToItem(t: Type, v: Val): Item
    requires HasType(t, v)
    decreases t
  {
    match t
    case TUint(_) => Str(BigEndian(v.n))
    case TInt(_) => Str(IntBytes(v.i))
    case TBool => Str(if v.b then [0x01] else [])
    case TBytes => Str(v.bytes)
    case TByteArray(_) => Str(v.bytes)
    case TBigInt => Str(if v == VNil then [] else BigEndian(v.n))
    case TSlice(e) => List(seq(|v.vs|, i requires 0 <= i < |v.vs| => ToItem(e, v.vs[i])))
    case TStruct(fs) => List(seq(|fs|, i requires 0 <= i < |fs| => ToItem(fs[i], v.vs[i])))
    case TPointer(e) => if v == VNil then NilItem(e) else ToItem(e, v.v)
    case TOptional(e) => if v == VNil then NilItem(e) else ToItem(e, v.v)
  }

  // ---------------------------------------------------------------- reading

  /** `uint`: no more than `width` bytes, no leading zero. */
  function UintOf(b: seq<Byte>, width: nat): Option<nat> {
    if |b| > width || (b != [] && b[0] == 0) then None else Some(Value(b))
  }

  /** `int`: a bare byte stands for itself; otherwise sign and magnitude, in no more than `width` bytes. */
  function IntOf(b: seq<Byte>, width: nat): Option<int> {
    if |b| == 1 && b[0] < 0x80 then (if b[0] == 0 then None else Some(b[0]))
    else if |b| > width || |b| == 1 then None
    else if |b| == 0 then Some(0)
    else if b[1] == 0 then None
    else if b[0] == PLUS then Some(Value(b[1..]))
    else if b[0] == MINUS then Some(0 - Value(b[1..]))
    else None
  }

  predicate IsEmpty(x: Item) {
    x == Str([]) || x == List([])
  }

  function FromItem(t: Type, x: Item): Option<Val>
    decreases t
  {
    match t
    case TUint(w) => if x.Str? && UintOf(x.bytes, w).Some? then Some(VUint(UintOf(x.bytes, w).value)) else None
    case TInt(w) => if x.Str? && IntOf(x.bytes, w).Some? then Some(VInt(IntOf(x.bytes, w).value)) else None
    case TBool => if x == Str([]) then Some(VBool(false)) else if x == Str([1]) then Some(VBool(true)) else None
    case TBytes => if x.Str? then Some(VBytes(x.bytes)) else None
    case TByteArray(len) => if x.Str? && |x.bytes| == len then Some(VBytes(x.bytes)) else None
    case TBigInt => if x.Str? && !(x.bytes != [] && x.bytes[0] == 0) then Some(VUint(Value(x.bytes))) else None
    case TSlice(e) =>
      if x.List? && forall i :: 0 <= i < |x.items| ==> FromItem(e, x.items[i]).Some?
      then Some(VSeq(seq(|x.items|, i requires 0 <= i < |x.items| => FromItem(e, x.items[i]).value)))
      else None
    case TStruct(fs) =>
      if x.List? && |x.items| == |fs| && forall i :: 0 <= i < |fs| ==> FromItem(fs[i], x.items[i]).Some?
      then Some(VSeq(seq(|fs|, i requires 0 <= i < |fs| => FromItem(fs[i], x.items[i]).value)))
      else None
    case TPointer(e) => if FromItem(e, x).Some? then Some(VRef(FromItem(e, x).value)) else None
    case TOptional(e) =>
      if IsEmpty(x) then Some(VNil) else if FromItem(e, x).Some? then Some(VRef(FromItem(e, x).value)) else None
  }

  // ---------------------------------------------------------------- the round trip

  /**
    The value survives: every integer has a byte to spare for its sign, no optional pointer is to an empty value, and no
    other pointer is nil.
   */
  ghost predicate Restorable(t: Type, v: Val)
    requires ValidType(t) && HasType(t, v)
    decreases t
  {
    match t
    case TInt(w) => Abs(v.i) < Pow256(w - 1)
    case TBigInt => v != VNil
    case TSlice(e) => forall i :: 0 <= i < |v.vs| ==> Restorable(e, v.vs[i])
    case TStruct(fs) => forall i :: 0 <= i < |fs| ==> Restorable(fs[i], v.vs[i])
    case TPointer(e) => v != VNil && Restorable(e, v.v)
    case TOptional(e) => v == VNil || (Restorable(e, v.v) && !IsEmpty(ToItem(e, v.v)))
    case _ => true
  }

  lemma {:induction false} UintRestored(n: nat, w: nat)
    requires n < Pow256(w)
    ensures UintOf(BigEndian(n), w) == Some(n)
  {
    BigEndianLength(n, w);
    ValueOfBigEndian(n);
  }

  /** A signed integer of `w` bytes comes back exactly when its magnitude fits `w - 1` bytes. */
  lemma {:induction false} IntRestored(i: int, w: nat)
    requires 0 < w
    ensures IntOf(IntBytes(i), w) == Some(i) <==> Abs(i) < Pow256(w - 1)
  {
    BigEndianLength(Abs(i), w - 1);
    if i != 0 {
      var b := IntBytes(i);
      assert b[1..] == BigEndian(Abs(i)) && |b| >= 2;
      ValueOfBigEndian(Abs(i));
    }
  }

  /** A nil pointer is written as an empty value. */
  lemma {:induction false} NilIsEmpty(t: Type)
    ensures IsEmpty(NilItem(t))
  {
    match t
    case TPointer(e) => NilIsEmpty(e);
    case TOptional(e) => NilIsEmpty(e);
    case _ =>
  }

  /** The zero value of a type that has one which is written without going on for ever. */
  function Zero(t: Type): Val {
    match t
    case TUint(_) => VUint(0)
    case TInt(_) => VInt(0)
    case TBool => VBool(false)
    case TBytes => VBytes([])
    case TSlice(_) => VSeq([])
    case _ => VNil
  }

  /** A nil pointer is written as the zero value of its target, or an empty one if that is a structure or an array. */
  lemma {:induction false} NilIsZero(t: Type)
    ensures t.TStruct? ==> NilItem(t) == List([])
    ensures t.TByteArray? ==> NilItem(t) == Str([])
    ensures !t.TStruct? && !t.TByteArray? && ValidType(t) ==> HasType(t, Zero(t)) && NilItem(t) == ToItem(t, Zero(t))
  {
    if t.TSlice? && ValidType(t) { assert ToItem(t, Zero(t)).items == []; }
  }

  /** Reading back what was written gives the value again exactly when it is restorable. */
  lemma {:induction false} RoundTrip(t: Type, v: Val)
    requires ValidType(t) && HasType(t, v)
    ensures FromItem(t, ToItem(t, v)) == Some(v) <==> Restorable(t, v)
    decreases t, 0
  {
    match t
    case TUint(w) => UintRestored(v.n, w);
    case TInt(w) => IntRestored(v.i, w);
    case TBigInt => if v != VNil { ValueOfBigEndian(v.n); }
    case TSlice(e) => SliceRoundTrip(e, v);
    case TStruct(fs) => StructRoundTrip(fs, v);
    case TPointer(e) => if v != VNil { RoundTrip(e, v.v); }
    case TOptional(e) =>
      if v == VNil { NilIsEmpty(e); } else { RoundTrip(e, v.v); }
    case _ =>
  }

  lemma {:induction false} SliceRoundTrip(e: Type, v: Val)
    requires ValidType(TSlice(e)) && HasType(TSlice(e), v)
    ensures FromItem(TSlice(e), ToItem(TSlice(e), v)) == Some(v) <==> Restorable(TSlice(e), v)
    decreases e, 1
  {
    var xs := ToItem(TSlice(e), v).items;
    forall i | 0 <= i < |v.vs| ensures FromItem(e, xs[i]) == Some(v.vs[i]) <==> Restorable(e, v.vs[i]) {
      RoundTrip(e, v.vs[i]);
    }
    var r := FromItem(TSlice(e), List(xs));
    if Restorable(TSlice(e), v) {
      assert forall i :: 0 <= i < |xs| ==> FromItem(e, xs[i]) == Some(v.vs[i]);
      assert r.value.vs == v.vs;
    } else if r.Some? {
      var i :| 0 <= i < |v.vs| && !Restorable(e, v.vs[i]);
      assert r.value.vs[i] == FromItem(e, xs[i]).value;
    }
  }

  lemma {:induction false} StructRoundTrip(fs: seq<Type>, v: Val)
    requires ValidType(TStruct(fs)) && HasType(TStruct(fs), v)
    ensures FromItem(TStruct(fs), ToItem(TStruct(fs), v)) == Some(v) <==> Restorable(TStruct(fs), v)
    decreases fs, 1
  {
    var xs := ToItem(TStruct(fs), v).items;
    forall i | 0 <= i < |fs| ensures FromItem(fs[i], xs[i]) == Some(v.vs[i]) <==> Restorable(fs[i], v.vs[i]) {
      RoundTrip(fs[i], v.vs[i]);
    }
    var r := FromItem(TStruct(fs), List(xs));
    if Restorable(TStruct(fs), v) {
      assert forall i :: 0 <= i < |xs| ==> FromItem(fs[i], xs[i]) == Some(v.vs[i]);
      assert r.value.vs == v.vs;
    } else if r.Some? {
      var i :| 0 <= i < |fs| && !Restorable(fs[i], v.vs[i]);
      assert r.value.vs[i] == FromItem(fs[i], xs[i]).value;
    }
  }

  /** What bytes stand for as a value of a type. */
  function Meaning(t: Type, b: seq<Byte>): Option<Val> {
    match Parse(b)
    case None => None
    case Some((x, n)) => if n == |b| then FromItem(t, x) else None
  }

  /** From value to bytes and back. */
  lemma {:induction false} TypedRoundTrip(t: Type, v: Val)
    requires ValidType(t) && HasType(t, v) && Fits(ToItem(t, v))
    ensures Meaning(t, Encode(ToItem(t, v))) == Some(v) <==> Restorable(t, v)
  {
    ParseComplete(ToItem(t, v), []);
    assert Encode(ToItem(t, v)) + [] == Encode(ToItem(t, v));
    RoundTrip(t, v);
  }

  /** The value is written: the encoder's buffer has room for every signed integer in it. */
  ghost predicate Writable(t: Type, v: Val)
    requires ValidType(t) && HasType(t, v)
    decreases t
  {
    match t
    case TInt(_) => Abs(v.i) < Pow256(7)
    case TSlice(e) => forall i :: 0 <= i < |v.vs| ==> Writable(e, v.vs[i])
    case TStruct(fs) => forall i :: 0 <= i < |fs| ==> Writable(fs[i], v.vs[i])
    case TPointer(e) => v != VNil ==> Writable(e, v.v)
    case TOptional(e) => v != VNil ==> Writable(e, v.v)
    case _ => true
  }

  /** What comes back was written. */
  lemma {:induction false} RestorableWritable(t: Type, v: Val)
    requires ValidType(t) && HasType(t, v) && Restorable(t, v)
    ensures Writable(t, v)
    decreases t
  {
    match t
    case TInt(w) => PowersGrow(w - 1, 7);
    case TSlice(e) =>
      forall i | 0 <= i < |v.vs| ensures Writable(e, v.vs[i]) { RestorableWritable(e, v.vs[i]); }
    case TStruct(fs) =>
      forall i | 0 <= i < |fs| ensures Writable(fs[i], v.vs[i]) { RestorableWritable(fs[i], v.vs[i]); }
    case TPointer(e) => RestorableWritable(e, v.v);
    case TOptional(e) => if v != VNil { RestorableWritable(e, v.v); }
    case _ =>
  }

  lemma {:induction false} PowersGrow(j: nat, k: nat)
    requires j <= k
    ensures Pow256(j) <= Pow256(k)
  {
    if j == k {
    } else {
      PowersGrow(j, k - 1);
    }
  }

  /**
    The number 1 in one signed byte is not read back, an optional pointer to 0 comes back as nil, and a nil big
    integer as 0.
   */
  lemma {:induction false} LostValues()
    ensures HasType(TInt(1), VInt(1)) && FromItem(TInt(1), ToItem(TInt(1), VInt(1))) != Some(VInt(1))
    ensures HasType(TOptional(TUint(8)), VRef(VUint(0)))
    ensures FromItem(TOptional(TUint(8)), ToItem(TOptional(TUint(8)), VRef(VUint(0)))) == Some(VNil)
    ensures HasType(TBigInt, VNil) && FromItem(TBigInt, ToItem(TBigInt, VNil)) == Some(VUint(0))
  {
    assert Pow256(1) == 256 && Pow256(0) == 1;
    RoundTrip(TInt(1), VInt(1));
    assert Value([]) == 0;
  }
}
