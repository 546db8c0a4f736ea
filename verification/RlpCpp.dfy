/**
  The C++ codec: a stream that inserts list headers in place when lists are complete, and list indexing with a
  cache.
 */
module RlpCpp {
  import opened Options
  import opened RlpSpec
  import opened RlpFlat
  import RlpRaw

  // ---------------------------------------------------------------- what the calls mean

  /** A list being written: how many items it lacks, and those it has. */
  datatype Frame = Frame(missing: nat, items: seq<Item>)

  /** Complete items, and the lists that are open, outermost first. */
  datatype Forest = Forest(done: seq<Item>, open: seq<Frame>)

  /** One more item; it may complete its list, which then is an item of the list around it. */
  function Add(f: Forest, x: Item): Forest
    decreases |f.open|
  {
    if f.open == [] then Forest(f.done + [x], []) else
      var n := |f.open| - 1;
      var top := f.open[n];
      if top.missing > 1 then Forest(f.done, f.open[..n] + [Frame(top.missing - 1, top.items + [x])])
      else Add(Forest(f.done, f.open[..n]), List(top.items + [x]))
  }

  /** A list of `n` items is announced. */
  function Announce(f: Forest, n: nat): Forest {
    if n == 0 then Add(f, List([])) else Forest(f.done, f.open + [Frame(n, [])])
  }

  function AddAll(f: Forest, xs: seq<Item>): Forest
    decreases |xs|
  {
    if xs == [] then f else AddAll(Add(f, xs[0]), xs[1..])
  }

  /** Announcing a list and then adding its items is adding the list. */
  lemma {:induction false} AnnounceAddAll(f: Forest, xs: seq<Item>)
    ensures AddAll(Announce(f, |xs|), xs) == Add(f, List(xs))
  {
    if xs != [] {
      var g := Forest(f.done, f.open + [Frame(|xs|, [])]);
      FillFrame(f, [], xs);
      assert [] + xs == xs;
    }
  }

  lemma {:induction false} FillFrame(f: Forest, ys: seq<Item>, xs: seq<Item>)
    requires xs != []
    ensures AddAll(Forest(f.done, f.open + [Frame(|xs|, ys)]), xs) == Add(f, List(ys + xs))
    decreases |xs|
  {
    var n := |f.open|;
    var g := Forest(f.done, f.open + [Frame(|xs|, ys)]);
    assert g.open[..n] == f.open;
    if |xs| == 1 {
      assert xs == [xs[0]] && Add(g, xs[0]) == Add(f, List(ys + xs));
    } else {
      assert ys + [xs[0]] + xs[1..] == ys + xs;
      FillFrame(f, ys + [xs[0]], xs[1..]);
    }
  }

  /** The innermost open list lacks that many items, or no list is open. */
  predicate Room(f: Forest, xs: seq<Item>) {
    f.open == [] || xs == [] || |xs| <= f.open[|f.open| - 1].missing
  }

  /** Items that do not complete their list. */
  lemma {:induction false} FillPart(f: Forest, xs: seq<Item>)
    requires f.open != [] && |xs| < f.open[|f.open| - 1].missing
    ensures var n := |f.open| - 1;
      AddAll(f, xs) == Forest(f.done, f.open[..n] + [Frame(f.open[n].missing - |xs|, f.open[n].items + xs)])
    decreases |xs|
  {
    var n := |f.open| - 1;
    var top := f.open[n];
    if xs == [] {
      assert f.open == f.open[..n] + [top] && top.items + [] == top.items;
    } else {
      var g := Add(f, xs[0]);
      assert g.open[..n] == f.open[..n] && top.items + [xs[0]] + xs[1..] == top.items + xs;
      FillPart(g, xs[1..]);
    }
  }

  /** Items that do. */
  lemma {:induction false} FillTop(f: Forest, xs: seq<Item>)
    requires f.open != [] && xs != [] && |xs| == f.open[|f.open| - 1].missing
    ensures AddAll(f, xs) == Add(Outer(f), List(f.open[|f.open| - 1].items + xs))
  {
    var n := |f.open| - 1;
    assert f.open == f.open[..n] + [f.open[n]];
    FillFrame(Outer(f), f.open[n].items, xs);
  }

  /** Items outside of all lists. */
  lemma {:induction false} AddAllDone(f: Forest, xs: seq<Item>)
    requires f.open == []
    ensures AddAll(f, xs) == Forest(f.done + xs, [])
    decreases |xs|
  {
    if xs == [] {
      assert f.done + [] == f.done;
    } else {
      assert f.done + [xs[0]] + xs[1..] == f.done + xs;
      AddAllDone(Add(f, xs[0]), xs[1..]);
    }
  }

  // ---------------------------------------------------------------- what is in the buffer

  ghost predicate AllFitIn(f: Forest) {
    AllFit(f.done) && forall i :: 0 <= i < |f.open| ==> AllFit(f.open[i].items)
  }

  /** The buffer: complete items, then the items of each open list; the headers of open lists are still missing. */
  ghost function Bytes(f: Forest): seq<Byte>
    requires AllFitIn(f)
    decreases |f.open|
  {
    if f.open == [] then EncodeAll(f.done)
    else Bytes(Outer(f)) + EncodeAll(f.open[|f.open| - 1].items)
  }

  function Outer(f: Forest): Forest
    requires f.open != []
  {
    Forest(f.done, f.open[..|f.open| - 1])
  }

  /** Where each open list starts, and how many items it lacks. */
  datatype Open = Open(count: nat, pos: nat)

  ghost predicate Stacked(stack: seq<Open>, f: Forest)
    requires AllFitIn(f)
    decreases |f.open|
  {
    if f.open == [] then stack == [] else
      var n := |f.open| - 1;
      && |stack| == n + 1 && stack[n] == Open(f.open[n].missing, |Bytes(Outer(f))|) && f.open[n].missing > 0
      && Stacked(stack[..n], Outer(f))
  }

  /** `pushInt`: the bytes of a number, written from the last to the first. */
  method PushInt(i: nat) returns (b: seq<Byte>)
    ensures b == BigEndian(i)
  {
    b := [];
    var n := i;
    while n != 0
      invariant 0 <= n && BigEndian(n) + b == BigEndian(i)
    {
      assert BigEndian(n) == BigEndian(n / 256) + [n % 256];
      b := [n % 256] + b;
      n := n / 256;
    }
  }

  /** `bytesRequired`. */
  method BytesRequired(n: nat) returns (i: nat)
    ensures i == |BigEndian(n)|
  {
    i := 0;
    var m := n;
    while m != 0
      invariant 0 <= m && i + |BigEndian(m)| == |BigEndian(n)|
    {
      i := i + 1;
      m := m / 256;
    }
  }

  class RLPStream {
    var out: seq<Byte>
    var listStack: seq<Open>
    ghost var forest: Forest

    constructor ()
      ensures Inv() && forest == Forest([], []) && out == []
    {
      out, listStack, forest := [], [], Forest([], []);
    }

    /** The buffer holds what the calls so far mean. When no list is open, that is the encoding of the items. */
    ghost predicate Inv()
      reads this
    {
      AllFitIn(forest) && out == Bytes(forest) && Stacked(listStack, forest)
    }

    /** The header of a list of `s` bytes, put in at `p`. */
    method InsertHeader(p: nat, s: nat)
      requires p + s == |out| && s < Pow256(8)
      modifies this`out
      ensures out == old(out)[..p] + ListHeader(s) + old(out)[p..]
    {
      var brs := BytesRequired(s);
      var number := PushInt(s);
      BigEndianLength(s, 8);
      if s < 56 {
        out := out[..p] + [0xC0 + s] + out[p..];
      } else {
        out := out[..p] + ([0xF7 + brs] + number) + out[p..];
      }
    }

    /**
      `noteAppended`: the bytes of the items `xs` are at the end; close every list they complete. It throws if and
      only if
      the innermost open list lacks fewer items than that.
     */
    method NoteAppended(itemCount: nat, ghost xs: seq<Item>) returns (ok: bool)
      requires itemCount == |xs| && AllFitIn(forest) && AllFit(xs) && out == Bytes(forest) + EncodeAll(xs)
        && Stacked(listStack, forest)
      requires Room(forest, xs) ==> AllFitIn(AddAll(forest, xs))
      modifies this
      ensures ok <==> old(forest).open == [] || |xs| <= old(forest).open[|old(forest).open| - 1].missing
      ensures ok ==> Inv() && forest == AddAll(old(forest), xs)
    {
      hide AllFit, Fits, EncodeAll, Header, Bytes, Add, AllFitIn, Stacked;
      if itemCount == 0 {
        NothingEncoded();
        StackHeight(listStack, forest);
        assert out == Bytes(forest);
        return true;
      }
      var count := itemCount;
      ghost var ys := xs;
      StackHeight(listStack, forest);
      while |listStack| > 0
        invariant AllFitIn(forest) && AllFit(ys) && ys != [] && count == |ys| && out == Bytes(forest) + EncodeAll(ys)
          && Stacked(listStack, forest)
        invariant |listStack| == |forest.open| && (Room(forest, ys) <==> Room(old(forest), xs))
        invariant Room(forest, ys) ==> AllFitIn(AddAll(forest, ys)) && AddAll(forest, ys) == AddAll(old(forest), xs)
        decreases |listStack|
      {
        TopOf(listStack, forest);
        var n := |listStack| - 1;
        if listStack[n].count < count {
          return false;
        }
        if listStack[n].count - count != 0 {
          AddSome(forest, ys, listStack);
          listStack := listStack[n := listStack[n].(count := listStack[n].count - count)];
          forest := AddAll(forest, ys);
          return true;
        }
        ghost var x := CloseList(ys);
        ys := [x];
        OneItem(forest, x, listStack);
        count := 1;
      }
      AddDone(forest, ys);
      forest := AddAll(forest, ys);
      return true;
    }

    /** The innermost list is complete with `ys`: its header goes in, and it is an item itself. */
    method CloseList(ghost ys: seq<Item>) returns (ghost x: Item)
      requires AllFitIn(forest) && AllFit(ys) && ys != [] && out == Bytes(forest) + EncodeAll(ys)
        && Stacked(listStack, forest)
      requires AllFitIn(AddAll(forest, ys)) && listStack != [] && listStack[|listStack| - 1].count == |ys|
      modifies this
      ensures AllFitIn(forest) && Fits(x) && out == Bytes(forest) + Encode(x) && Stacked(listStack, forest)
      ensures Add(forest, x) == AddAll(old(forest), ys) && |listStack| == |old(listStack)| - 1 == |forest.open|
    {
      hide AllFit, Fits, Encode, EncodeAll, Header, Bytes, Add, AllFitIn, Stacked;
      TopOf(listStack, forest);
      var n := |listStack| - 1;
      var p := listStack[n].pos;
      listStack := listStack[..n];
      ghost var payload := CloseTop(forest, ys);
      ghost var before := Bytes(Outer(forest));
      assert out == before + payload;
      InsertHeader(p, |out| - p);
      assert out == before + ListHeader(|payload|) + payload;
      x := List(forest.open[n].items + ys);
      forest := Outer(forest);
      assert out == before + Encode(x);
    }

    /** `appendRaw`: items that are encoded already. */
    method AppendRaw(bytes: seq<Byte>, itemCount: nat, ghost xs: seq<Item>) returns (ok: bool)
      requires Inv() && itemCount == |xs| && AllFit(xs) && bytes == EncodeAll(xs)
        && (Room(forest, xs) ==> AllFitIn(AddAll(forest, xs)))
      modifies this
      ensures ok <==> old(forest).open == [] || |xs| <= old(forest).open[|old(forest).open| - 1].missing
      ensures ok ==> Inv() && forest == AddAll(old(forest), xs)
    {
      out := out + bytes;
      ok := NoteAppended(itemCount, xs);
    }

    /** One item more. */
    method NoteOne(ghost x: Item)
      requires AllFitIn(forest) && Fits(x) && out == Bytes(forest) + Encode(x) && Stacked(listStack, forest)
        && AllFitIn(Add(forest, x))
      modifies this
      ensures Inv() && forest == Add(old(forest), x)
    {
      OneItem(forest, x, listStack);
      var _ := NoteAppended(1, [x]);
    }

    /** `append` of bytes. */
    method Append(b: seq<Byte>)
      requires Inv() && |b| < Pow256(8) && AllFitIn(Add(forest, Str(b)))
      modifies this
      ensures Inv() && forest == Add(old(forest), Str(b))
    {
      PushString(b);
      NoteOne(Str(b));
    }

    /** `pushCount`: a number behind how many bytes it takes. It fits in a byte with that, so that nothing is thrown. */
    method PushCount(count: nat, base: int)
      requires 56 <= count < Pow256(8) && base in {0xB7, 0xF7}
      modifies this`out
      ensures |BigEndian(count)| <= 8 && out == old(out) + ([base + |BigEndian(count)|] + BigEndian(count))
    {
      hide BigEndian, Pow256;
      var br := BytesRequired(count);
      BigEndianLength(count, 8);
      out := out + [base + br];
      var number := PushInt(count);
      out := out + number;
    }

    method PushString(b: seq<Byte>)
      requires |b| < Pow256(8)
      modifies this`out
      ensures out == old(out) + EncodeStr(b)
    {
      hide BigEndian, Pow256;
      if |b| == 1 && b[0] < 0x80 {
        out := out + [b[0]];
        assert b == [b[0]];
      } else {
        if |b| < 56 {
          out := out + [0x80 + |b|];
        } else {
          PushCount(|b|, 0xB7);
        }
        assert out == old(out) + StrHeader(|b|);
        out := out + b;
        assert out == old(out) + (StrHeader(|b|) + b);
      }
    }

    /** `appendList` of `n` items to come. */
    method AppendList(n: nat)
      requires Inv() && AllFitIn(Announce(forest, n))
      modifies this
      ensures Inv() && forest == Announce(old(forest), n)
    {
      if n != 0 {
        listStack := listStack + [Open(n, |out|)];
        Announced(forest, n, old(listStack));
        forest := Announce(forest, n);
      } else {
        out := out + [0xC0];
        assert Encode(List([])) == [0xC0] by { Powers(); }
        NoteOne(List([]));
      }
    }

    /** `out`: refused while a list is open. */
    method Output() returns (r: Option<seq<Byte>>)
      requires Inv()
      ensures r.Some? <==> forest.open == []
      ensures r.Some? ==> r.value == EncodeAll(forest.done)
    {
      StackHeight(listStack, forest);
      return if |listStack| != 0 then None else Some(out);
    }

    /** Any item, by the calls that write it. */
    method AppendItem(x: Item)
      requires Inv() && AllFitIn(Add(forest, x))
      modifies this
      ensures Inv() && forest == Add(old(forest), x)
      decreases x
    {
      AddFits(forest, x);
      match x
      case Str(b) => Append(b);
      case List(xs) =>
        AnnounceAddAll(forest, xs);
        AddAllFits(Announce(forest, |xs|), xs);
        AppendList(|xs|);
        for i := 0 to |xs|
          invariant Inv() && AddAll(forest, xs[i..]) == Add(old(forest), x) && AllFitIn(AddAll(forest, xs[i..]))
        {
          assert xs[i..][0] == xs[i] && xs[i..][1..] == xs[i + 1..];
          AddAllFits(Add(forest, xs[i]), xs[i + 1..]);
          AppendItem(xs[i]);
        }
    }
  }

  /** `RLPStream() << x`: the bytes the encoder writes. */
  method Rlp(x: Item) returns (out: seq<Byte>)
    requires Fits(x)
    ensures out == Encode(x)
  {
    var s := new RLPStream();
    assert EncodeAll([x]) == Encode(x) + EncodeAll([]) && [x][1..] == [];
    assert [] + [x] == [x];
    s.AppendItem(x);
    return s.out;
  }

  lemma {:induction false} Powers()
    ensures Pow256(8) > 256
  {
    assert Pow256(1) == 256 && Pow256(2) == 65536;
    PowerGrows(2, 8);
  }

  lemma {:induction false} PowerGrows(a: nat, b: nat)
    requires a <= b
    ensures Pow256(a) <= Pow256(b)
  {
    if a == b {
    } else {
      PowerGrows(a, b - 1);
    }
  }

  /** What fits after an item was added fitted before, and so does the item. */
  lemma {:induction false} AddFits(f: Forest, x: Item)
    requires AllFitIn(Add(f, x))
    ensures AllFitIn(f) && Fits(x)
    decreases |f.open|
  {
    if f.open == [] {
      assert (f.done + [x])[|f.done|] == x && f.done == (f.done + [x])[..|f.done|];
    } else {
      var n := |f.open| - 1;
      var top := f.open[n];
      var g := Add(f, x);
      if top.missing > 1 {
        assert g.open[n].items == top.items + [x];
        assert (top.items + [x])[|top.items|] == x;
        assert forall i :: 0 <= i < |top.items| ==> top.items[i] == (top.items + [x])[i];
        assert forall i :: 0 <= i < n ==> f.open[i] == g.open[i];
      } else {
        AddFits(Outer(f), List(top.items + [x]));
        assert (top.items + [x])[|top.items|] == x;
        assert forall i :: 0 <= i < |top.items| ==> top.items[i] == (top.items + [x])[i];
        assert forall i :: 0 <= i < n ==> f.open[i] == Outer(f).open[i];
      }
    }
  }

  lemma {:induction false} AddAllFits(f: Forest, xs: seq<Item>)
    requires AllFitIn(AddAll(f, xs))
    ensures AllFitIn(f)
    decreases |xs|
  {
    if xs == [] {
    } else {
      AddAllFits(Add(f, xs[0]), xs[1..]);
      AddFits(f, xs[0]);
    }
  }

  lemma {:induction false} EncodeCat(xs: seq<Item>, ys: seq<Item>)
    requires AllFit(xs) && AllFit(ys)
    ensures AllFit(xs + ys) && EncodeAll(xs + ys) == EncodeAll(xs) + EncodeAll(ys)
    decreases |ys|
  {
    hide Encode, Fits;
    if ys == [] {
      assert xs + ys == xs;
    } else {
      EncodeSnoc(xs, ys[0]);
      assert xs + [ys[0]] + ys[1..] == xs + ys;
      EncodeCat(xs + [ys[0]], ys[1..]);
      assert ys == [ys[0]] + ys[1..];
    }
  }

  lemma {:induction false} OneItem(f: Forest, x: Item, stack: seq<Open>)
    requires AllFitIn(f) && Fits(x) && Stacked(stack, f)
    ensures AllFit([x]) && EncodeAll([x]) == Encode(x) && AddAll(f, [x]) == Add(f, x) && Room(f, [x])
  {
    assert [x][1..] == [] && Encode(x) + [] == Encode(x);
    if f.open != [] { TopOf(stack, f); }
  }

  /** Items that do not complete their list. */
  lemma {:induction false} AddSome(f: Forest, ys: seq<Item>, stack: seq<Open>)
    requires AllFitIn(f) && AllFit(ys) && AllFitIn(AddAll(f, ys)) && f.open != []
      && f.open[|f.open| - 1].missing > |ys| && Stacked(stack, f)
    ensures |stack| == |f.open| && Bytes(AddAll(f, ys)) == Bytes(f) + EncodeAll(ys)
    ensures var n := |stack| - 1;
      |ys| <= stack[n].count && Stacked(stack[n := stack[n].(count := stack[n].count - |ys|)], AddAll(f, ys))
  {
    var n := |f.open| - 1;
    FillPart(f, ys);
    var top, g := f.open[n], AddAll(f, ys);
    assert g.open[..n] == f.open[..n] && Outer(g) == Outer(f);
    EncodeCat(top.items, ys);
    var stack' := stack[n := stack[n].(count := stack[n].count - |ys|)];
    assert stack'[..n] == stack[..n];
  }

  /** Items that complete their list: the payload of that list. */
  lemma {:induction false} CloseTop(f: Forest, ys: seq<Item>) returns (payload: seq<Byte>)
    requires AllFitIn(f) && AllFit(ys) && ys != [] && AllFitIn(AddAll(f, ys)) && f.open != []
      && f.open[|f.open| - 1].missing == |ys|
    ensures var x := List(f.open[|f.open| - 1].items + ys);
      && Fits(x) && AllFitIn(Outer(f)) && Add(Outer(f), x) == AddAll(f, ys)
      && |payload| < Pow256(8) && Encode(x) == ListHeader(|payload|) + payload
      && Bytes(f) + EncodeAll(ys) == Bytes(Outer(f)) + payload
  {
    var top := f.open[|f.open| - 1];
    FillTop(f, ys);
    AddFits(Outer(f), List(top.items + ys));
    payload := EncodeAll(top.items + ys);
    EncodeCat(top.items, ys);
  }

  lemma {:induction false} AddDone(f: Forest, ys: seq<Item>)
    requires AllFitIn(f) && AllFit(ys) && AllFitIn(AddAll(f, ys)) && f.open == []
    ensures Bytes(AddAll(f, ys)) == Bytes(f) + EncodeAll(ys) && Stacked([], AddAll(f, ys))
  {
    AddAllDone(f, ys);
    EncodeCat(f.done, ys);
  }

  lemma {:induction false} Announced(f: Forest, n: nat, stack: seq<Open>)
    requires AllFitIn(f) && n > 0 && Stacked(stack, f)
    ensures AllFitIn(Announce(f, n)) && Bytes(Announce(f, n)) == Bytes(f)
      && Stacked(stack + [Open(n, |Bytes(f)|)], Announce(f, n))
  {
    var g, m := Announce(f, n), |f.open|;
    assert g.open[..m] == f.open && Outer(g) == f;
    StackHeight(stack, f);
    assert (stack + [Open(n, |Bytes(f)|)])[..m] == stack;
  }

  /** The innermost open list. */
  lemma {:induction false} TopOf(stack: seq<Open>, f: Forest)
    requires AllFitIn(f) && Stacked(stack, f) && stack != []
    ensures |f.open| == |stack| && AllFitIn(Outer(f))
    ensures var n := |stack| - 1;
      stack[n] == Open(f.open[n].missing, |Bytes(Outer(f))|) && stack[n].count > 0 && Stacked(stack[..n], Outer(f))
  {
  }

  lemma {:induction false} StackHeight(stack: seq<Open>, f: Forest)
    requires AllFitIn(f) && Stacked(stack, f)
    ensures |stack| == |f.open|
  {
  }

  // ---------------------------------------------------------------- indexing a list

  const SENTINEL: nat := 0xFFFF_FFFF_FFFF_FFFF

  datatype CppError = BadRLP | UndersizeRLP

  datatype CppResult = Size(n: nat) | Throws(error: CppError)

  /** `lengthSize`: how many bytes the length takes. */
  function LengthSize(d: seq<Byte>): nat
    requires d != []
  {
    if 0xB7 < d[0] < 0xC0 then d[0] - 0xB7 else if d[0] > 0xF7 then d[0] - 0xF7 else 0
  }

  /** `payloadOffset`. */
  function PayloadOffset(d: seq<Byte>): nat
    requires d != []
  {
    if d[0] < 0x80 then 0 else 1 + LengthSize(d)
  }

  /** `length`, with its checks in their order: the number is shifted together byte by byte. */
  method Length(d: seq<Byte>) returns (r: CppResult)
    ensures r == LengthOf(d)
  {
    if |d| == 0 {
      return Size(0);
    }
    var n := d[0];
    if n == 0x81 && (|d| < 2 || d[1] < 0x80) {
      return Throws(BadRLP);
    }
    if n < 0x80 {
      return Size(1);
    } else if n <= 0xB7 {
      return Size(n - 0x80);
    } else if 0xC0 <= n <= 0xF7 {
      return Size(n - 0xC0);
    }
    var lengthSize := if n < 0xC0 then n - 0xB7 else n - 0xF7;
    if |d| <= lengthSize || d[1] == 0 {
      return Throws(BadRLP);
    }
    var ret := 0;
    for i := 0 to lengthSize
      invariant ret == Value(d[1..1 + i])
    {
      var b := d[1..1 + i + 1];
      assert b[..|b| - 1] == d[1..1 + i];
      ret := ret * 256 + d[i + 1];
    }
    if ret < 56 {
      return Throws(BadRLP);
    }
    return if ret >= SENTINEL - 0x100 then Throws(UndersizeRLP) else Size(ret);
  }

  function LengthOf(d: seq<Byte>): CppResult {
    if d == [] then Size(0)
    else if d[0] == 0x81 && (|d| < 2 || d[1] < 0x80) then Throws(BadRLP)
    else if d[0] < 0x80 then Size(1)
    else if d[0] <= 0xB7 then Size(d[0] - 0x80)
    else if 0xC0 <= d[0] <= 0xF7 then Size(d[0] - 0xC0)
    else
      var k := LengthSize(d);
      if |d| <= k || d[1] == 0 || Value(d[1..1 + k]) < 56 then Throws(BadRLP)
      else if Value(d[1..1 + k]) >= SENTINEL - 0x100 then Throws(UndersizeRLP)
      else Size(Value(d[1..1 + k]))
  }

  /** `sizeAsEncoded`: header and payload of the first item, which must be there. */
  function SizeAsEncoded(d: seq<Byte>): (r: CppResult)
    ensures r.Size? ==> r.n <= |d|
  {
    if d == [] then Size(0)
    else if d[0] < 0x80 then Size(1)
    else
      match LengthOf(d)
      case Throws(e) => Throws(e)
      case Size(n) => if PayloadOffset(d) + n > |d| then Throws(UndersizeRLP) else Size(PayloadOffset(d) + n)
  }

  /** The C++ and the Go code agree on where the first item of any data ends, and on whether there is one. */
  lemma {:induction false} SizeAgrees(d: seq<Byte>)
    requires 0 < |d| < 0xFFFF_FFFF_FFFF_FEFF
    ensures SizeAsEncoded(d).Size? <==> RlpRaw.ReadKind(d).Ok?
    ensures RlpRaw.ReadKind(d).Ok? ==>
      SizeAsEncoded(d).n == RlpRaw.ReadKind(d).value.tagSize + RlpRaw.ReadKind(d).value.contentSize
  {
    hide Value;
    if 0xB7 < d[0] < 0xC0 || d[0] > 0xF7 {
      var k := LengthSize(d);
      if k < |d| { assert d[1..][..k] == d[1..1 + k]; }
    }
  }

  /** They also agree on what is wrong, except that a lone 81 is bad here and too short there. */
  lemma {:induction false} ErrorsAgree(d: seq<Byte>)
    requires 0 < |d| < 0xFFFF_FFFF_FFFF_FEFF
    ensures SizeAsEncoded(d) == Throws(UndersizeRLP) <==>
            RlpRaw.ReadKind(d) == RlpRaw.Err(RlpRaw.ValueTooLarge) && d != [0x81]
  {
    hide Value;
    if 0xB7 < d[0] < 0xC0 || d[0] > 0xF7 {
      var k := LengthSize(d);
      if k < |d| { assert d[1..][..k] == d[1..1 + k]; }
    }
  }

  /** The size of an item is its size when nothing follows it. */
  lemma {:induction false} SizeOfItem(d: seq<Byte>)
    requires SizeAsEncoded(d).Size?
    ensures SizeAsEncoded(d[..SizeAsEncoded(d).n]) == SizeAsEncoded(d)
  {
    hide Value;
    var n := SizeAsEncoded(d).n;
    if d != [] && (0xB7 < d[0] < 0xC0 || d[0] > 0xF7) {
      var k := LengthSize(d);
      assert d[..n][1..1 + k] == d[1..1 + k];
    }
  }

  /** The items before the first bad one, and what is left from there on. */
  datatype Scanned = Scanned(items: seq<seq<Byte>>, rest: seq<Byte>)

  function Scan(d: seq<Byte>): (s: Scanned)
    ensures |s.items| <= |d| && (s.rest != [] ==> SizeAsEncoded(s.rest).Throws?)
    decreases |d|
  {
    if d == [] || SizeAsEncoded(d).Throws? then Scanned([], d) else
      var n := SizeAsEncoded(d).n;
      var s := Scan(d[n..]);
      Scanned([d[..n]] + s.items, s.rest)
  }

  /** A scan, one step. */
  lemma {:induction false} ScanStep(d: seq<Byte>)
    ensures SizeAsEncoded(d).Throws? ==> d != [] && Scan(d) == Scanned([], d)
    ensures SizeAsEncoded(d).Size? ==> var n, s := SizeAsEncoded(d).n, Scan(d);
      if d == [] then n == 0 && s == Scanned([], [])
      else n > 0 && s.items != [] && s.items[0] == d[..n] && Scan(d[n..]) == Scanned(s.items[1..], s.rest)
  {
    if d != [] && SizeAsEncoded(d).Size? {
      var s := Scan(d[SizeAsEncoded(d).n..]);
      assert Scan(d).items[1..] == s.items;
    }
  }

  /** Every item is one, and not empty. */
  lemma {:induction false} ScanItem(d: seq<Byte>, i: nat)
    requires i < |Scan(d).items|
    ensures var x := Scan(d).items[i]; x != [] && SizeAsEncoded(x) == Size(|x|)
    decreases |d|
  {
    SizeOfItem(d);
    if i > 0 { ScanItem(d[SizeAsEncoded(d).n..], i - 1); }
  }

  /** A scan succeeds exactly where the Go code cuts all of the data into values, and finds the same. */
  lemma {:induction false} ScanAgrees(d: seq<Byte>)
    requires |d| < 0xFFFF_FFFF_FFFF_FEFF
    ensures RlpRaw.Pieces(d) == if Scan(d).rest == [] then Some(Scan(d).items) else None
    decreases |d|
  {
    hide RlpRaw.ReadKind, SizeAsEncoded;
    if d == [] {
    } else {
      SizeAgrees(d);
      if SizeAsEncoded(d).Size? { ScanAgrees(d[SizeAsEncoded(d).n..]); }
    }
  }

  /** What an access gives: the bytes of an item, none if there is no such item, or an exception. */
  datatype Access = Found(bytes: seq<Byte>) | Thrown(error: CppError)

  /** Access by a scan from the start. */
  function Fresh(d: seq<Byte>, i: nat): Access {
    var s := Scan(d);
    if i < |s.items| then Found(s.items[i])
    else if s.rest == [] then Found([])
    else Thrown(SizeAsEncoded(s.rest).error)
  }

  /** A list being indexed, with what `operator[]` remembers of the last access. */
  class RLP {
    const payload: seq<Byte>
    var lastIndex: nat
    var lastEnd: nat
    var lastItem: seq<Byte>

    constructor (payload: seq<Byte>)
      requires |payload| < 0xFFFF_FFFF_FFFF_FEFF
      ensures this.payload == payload && Inv() && !Stuck()
    {
      this.payload := payload;
      lastIndex, lastEnd, lastItem := SENTINEL, 0, [];
    }

    ghost predicate Inv()
      reads this
    {
      |payload| < 0xFFFF_FFFF_FFFF_FEFF && if lastIndex == SENTINEL then lastItem == [] else Cached(Scan(payload))
    }

    /** What is remembered: an item and where it ends, or that there are no more, or what could not be read. */
    ghost predicate Cached(s: Scanned)
      reads this
    {
      && lastEnd <= |payload|
      && if lastIndex < |s.items| then
           && Scan(payload[lastEnd..]) == Scanned(s.items[lastIndex + 1..], s.rest)
           && (lastItem == s.items[lastIndex] || (lastIndex + 1 == |s.items| && s.rest != [] && lastItem == s.rest))
         else
           lastIndex == |s.items| && s.rest == [] && lastItem == []
    }

    /** The last access threw and left in the cache what it could not read. */
    predicate Stuck()
      reads this
    {
      SizeAsEncoded(lastItem).Throws?
    }

    /**
      `operator[]`, on any payload and after any accesses, whether they threw or not: what a scan from the start gives,
      but for one item. After an access that threw, the last good item is not found, until an earlier one is accessed.
      (The greatest index finds nothing when it is the first.)
     */
    method Index(i: nat) returns (r: Access)
      requires Inv() && i <= 0xFFFF_FFFF_FFFF_FFFF
      modifies this`lastIndex, this`lastEnd, this`lastItem
      ensures Inv() && (Stuck() <==> r.Thrown? && Scan(payload).items != [])
      ensures var s := Scan(payload);
        r == if old(Stuck()) && i + 1 == |s.items| then Fresh(payload, i + 1)
             else if i == 0xFFFF_FFFF_FFFF_FFFF == old(lastIndex) then Found([])
             else Fresh(payload, i)
    {
      hide Scan, SizeAsEncoded;
      ghost var s := Scan(payload);
      Remembered();
      if i < lastIndex {
        var e := Rewind();
        if e.Some? {
          return Thrown(e.value);
        }
      }
      while lastIndex < i && |lastItem| > 0
        invariant Inv() && lastIndex <= i && (lastIndex == SENTINEL ==> i == old(lastIndex))
        invariant Stuck() <==> old(Stuck()) && lastIndex == old(lastIndex)
        decreases |s.items| - lastIndex
      {
        var e := Step();
        if e.Some? {
          return Thrown(e.value);
        }
      }
      Remembered();
      var n := SizeAsEncoded(lastItem);
      return if n.Throws? then Thrown(n.error) else Found(lastItem);
    }

    /** `items`: how many items a scan finds, if it finds no bad one. */
    method Items() returns (r: CppResult)
      ensures var s := Scan(payload); r == if s.rest == [] then Size(|s.items|) else Throws(SizeAsEncoded(s.rest).error)
    {
      hide Scan, SizeAsEncoded;
      var d, i := payload, 0;
      while |d| > 0
        invariant Scan(d).rest == Scan(payload).rest && i + |Scan(d).items| == |Scan(payload).items|
        decreases |d|
      {
        ScanStep(d);
        var n := SizeAsEncoded(d);
        if n.Throws? {
          return n;
        }
        d := d[n.n..];
        i := i + 1;
      }
      ScanStep(d);
      return Size(i);
    }

    /** To the first item, if it is good. */
    method Rewind() returns (e: Option<CppError>)
      requires Inv()
      modifies this`lastIndex, this`lastEnd, this`lastItem
      ensures Inv() && !Stuck()
      ensures var s := Scan(payload);
        if s.items == [] && s.rest != [] then e == Some(SizeAsEncoded(s.rest).error) else e == None && lastIndex == 0
    {
      hide Scan, SizeAsEncoded;
      Remembered();
      ScanStep(payload);
      var n := SizeAsEncoded(payload);
      if n.Throws? {
        return Some(n.error);
      }
      SizeOfItem(payload);
      lastEnd := n.n;
      lastItem := payload[..lastEnd];
      lastIndex := 0;
      return None;
    }

    /** On to the next item. A bad one is left in the cache. */
    method Step() returns (e: Option<CppError>)
      requires Inv() && lastIndex != SENTINEL && |lastItem| > 0
      modifies this`lastIndex, this`lastEnd, this`lastItem
      ensures Inv() && (Stuck() <==> e.Some?)
      ensures var s := Scan(payload);
        if old(lastIndex) + 1 == |s.items| && s.rest != [] then e == Some(SizeAsEncoded(s.rest).error)
        else e == None && lastIndex == old(lastIndex) + 1 <= |s.items|
    {
      hide Scan, SizeAsEncoded;
      ghost var end := lastEnd;
      ScanStep(payload[lastEnd..]);
      lastItem := payload[lastEnd..];
      var n := SizeAsEncoded(lastItem);
      if n.Throws? {
        return Some(n.error);
      }
      SizeOfItem(lastItem);
      lastItem := lastItem[..n.n];
      lastEnd := lastEnd + |lastItem|;
      assert payload[end..][n.n..] == payload[lastEnd..];
      lastIndex := lastIndex + 1;
      return None;
    }

    /** What is remembered is an item, or none, unless the cache is stuck. */
    lemma {:induction false} Remembered()
      requires Inv()
      ensures Stuck() ==> lastIndex + 1 == |Scan(payload).items| && lastItem == Scan(payload).rest != []
      ensures lastIndex < |Scan(payload).items| ==>
        lastItem != [] && (Stuck() || lastItem == Scan(payload).items[lastIndex])
    {
      if lastIndex < |Scan(payload).items| { ScanItem(payload, lastIndex); }
    }
  }

  lemma {:induction false} ScanExample()
    ensures Scan([0x01, 0xB8]) == Scanned([[0x01]], [0xB8]) && SizeAsEncoded([0xB8]) == Throws(BadRLP)
  {
    var d: seq<Byte> := [0x01, 0xB8];
    assert SizeAsEncoded(d) == Size(1) && d[1..] == [0xB8] && d[..1] == [0x01];
    ScanStep([0xB8]);
  }

  /** After an access that threw, an item that was found before is not found. */
  method AfterException() returns (first: Access, second: Access, again: Access)
    ensures first == Found([0x01]) && second == Thrown(BadRLP) && again == Thrown(BadRLP)
  {
    hide Scan, SizeAsEncoded;
    ScanExample();
    var l := new RLP([0x01, 0xB8]);
    first := l.Index(0);
    second := l.Index(1);
    again := l.Index(0);
  }
}
