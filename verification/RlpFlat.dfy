/** Encoding in two passes: string data first, list headers put in between afterwards. */
module RlpFlat {
  import opened RlpSpec

  /** A list header: where it goes in the string data, and the size of the list's payload. */
  datatype ListHead = ListHead(offset: nat, size: nat)

  /** The string data of an item: everything but list headers. */
  function Strs(x: Item): seq<Byte>
    requires Fits(x)
    decreases x, 1
  {
    match x
    case Str(b) => EncodeStr(b)
    case List(xs) => StrsAll(xs)
  }

  function StrsAll(xs: seq<Item>): seq<Byte>
    requires AllFit(xs)
    decreases xs, 2
  {
    if xs == [] then [] else
      assert AllFit(xs[..|xs| - 1]);
      StrsAll(xs[..|xs| - 1]) + Strs(xs[|xs| - 1])
  }

  /** The list headers of an item whose string data starts at `off`, outermost first. */
  function Heads(x: Item, off: nat): seq<ListHead>
    requires Fits(x)
    decreases x, 1
  {
    match x
    case Str(_) => []
    case List(xs) => [ListHead(off, |EncodeAll(xs)|)] + HeadsAll(xs, off)
  }

  function HeadsAll(xs: seq<Item>, off: nat): seq<ListHead>
    requires AllFit(xs)
    decreases xs, 2
  {
    if xs == [] then [] else
      assert AllFit(xs[..|xs| - 1]);
      HeadsAll(xs[..|xs| - 1], off) + Heads(xs[|xs| - 1], off + |StrsAll(xs[..|xs| - 1])|)
  }

  /** Headers in order of their places, within `n` bytes of string data. */
  ghost predicate Ordered(heads: seq<ListHead>, n: nat) {
    && (forall i :: 0 <= i < |heads| ==> heads[i].offset <= n && heads[i].size < Pow256(8))
    && (forall i, j :: 0 <= i < j < |heads| ==> heads[i].offset <= heads[j].offset)
  }

  /** String data with the headers put in. */
  ghost function Flat(str: seq<Byte>, heads: seq<ListHead>): seq<Byte>
    requires Ordered(heads, |str|)
    decreases |heads|
  {
    if heads == [] then str else
      var h := heads[|heads| - 1];
      Flat(str[..h.offset], heads[..|heads| - 1]) + ListHeader(h.size) + str[h.offset..]
  }

  /** What is left to put out from header `lhpos` and string position `strpos` on. */
  ghost function Ahead(str: seq<Byte>, heads: seq<ListHead>, lhpos: nat, strpos: nat): seq<Byte>
    requires Ordered(heads, |str|) && lhpos <= |heads|
      && strpos <= (if lhpos < |heads| then heads[lhpos].offset else |str|)
    decreases |heads| - lhpos
  {
    if lhpos == |heads| then str[strpos..] else
      var h := heads[lhpos];
      str[strpos..h.offset] + ListHeader(h.size) + Ahead(str, heads, lhpos + 1, h.offset)
  }

  /** The string data before a header, the header, and what follows. */
  lemma {:induction false} AheadNext(str: seq<Byte>, heads: seq<ListHead>, i: nat, strpos: nat)
    requires Ordered(heads, |str|) && i < |heads| && strpos <= heads[i].offset
    ensures heads[i].offset <= |str| && heads[i].size < Pow256(8)
    ensures i + 1 < |heads| ==> heads[i].offset <= heads[i + 1].offset
    ensures Ahead(str, heads, i, strpos) ==
      str[strpos..heads[i].offset] + ListHeader(heads[i].size) + Ahead(str, heads, i + 1, heads[i].offset)
  {
    hide Pow256, Header;
  }

  lemma {:induction false} AheadEnd(str: seq<Byte>, heads: seq<ListHead>, strpos: nat)
    requires Ordered(heads, |str|) && strpos <= |str|
    ensures Ahead(str, heads, |heads|, strpos) == str[strpos..]
  {
    hide Pow256, Header;
  }

  /** String data after the last header stays at the end. */
  lemma {:induction false} FlatTail(str: seq<Byte>, more: seq<Byte>, heads: seq<ListHead>)
    requires Ordered(heads, |str|)
    ensures Ordered(heads, |str + more|) && Flat(str + more, heads) == Flat(str, heads) + more
  {
    if heads != [] {
      var h := heads[|heads| - 1];
      assert (str + more)[..h.offset] == str[..h.offset];
      assert (str + more)[h.offset..] == str[h.offset..] + more;
    }
  }

  /** Putting the headers in from front to back or from back to front is the same. */
  lemma {:induction false} AheadFlat(str: seq<Byte>, heads: seq<ListHead>, lhpos: nat, strpos: nat)
    requires Ordered(heads, |str|) && lhpos <= |heads|
      && strpos <= (if lhpos < |heads| then heads[lhpos].offset else |str|)
    requires lhpos > 0 ==> heads[lhpos - 1].offset <= strpos
    ensures Ordered(heads[..lhpos], |str[..strpos]|)
    ensures Flat(str[..strpos], heads[..lhpos]) + Ahead(str, heads, lhpos, strpos) == Flat(str, heads)
    decreases |heads| - lhpos
  {
    hide Flat, Header;
    if lhpos == |heads| {
      assert heads[..lhpos] == heads && str == str[..strpos] + str[strpos..];
      FlatTail(str[..strpos], str[strpos..], heads);
    } else {
      var h := heads[lhpos];
      AheadFlat(str, heads, lhpos + 1, h.offset);
      var rest := Ahead(str, heads, lhpos + 1, h.offset);
      AheadStep(str[..strpos], str[strpos..h.offset], heads[..lhpos], h, rest, str[..h.offset], heads[..lhpos + 1]);
    }
  }

  /** The next stretch of string data and the header after it. */
  lemma {:induction false} AheadStep(s0: seq<Byte>, s1: seq<Byte>, hs: seq<ListHead>, h: ListHead, rest: seq<Byte>,
                                     str: seq<Byte>, heads: seq<ListHead>)
    requires Ordered(hs, |s0|) && h.offset == |s0| + |s1| && h.size < Pow256(8) && Ordered(heads, |str|)
      && str == s0 + s1 && heads == hs + [h]
    ensures Flat(str, heads) + rest == Flat(s0, hs) + (s1 + ListHeader(h.size) + rest)
  {
    hide Flat, Header;
    FlatTail(s0, s1, hs);
    FlatHead(s0 + s1, hs, h);
  }

  /** A header at the end of the string data. */
  lemma {:induction false} FlatHead(str: seq<Byte>, heads: seq<ListHead>, h: ListHead)
    requires Ordered(heads, |str|) && h.offset == |str| && h.size < Pow256(8)
    ensures Ordered(heads + [h], |str|) && Flat(str, heads + [h]) == Flat(str, heads) + ListHeader(h.size)
  {
    assert (heads + [h])[..|heads|] == heads && str[..|str|] == str && str[|str|..] == [];
  }

  lemma {:induction false} AheadAll(str: seq<Byte>, heads: seq<ListHead>)
    requires Ordered(heads, |str|)
    ensures Ahead(str, heads, 0, 0) == Flat(str, heads)
  {
    AheadFlat(str, heads, 0, 0);
    assert heads[..0] == [] && str[..0] == [];
  }

  // ---------------------------------------------------------------- items

  lemma {:induction false} EncodeSnoc(xs: seq<Item>, x: Item)
    requires AllFit(xs) && Fits(x)
    ensures AllFit(xs + [x]) && EncodeAll(xs + [x]) == EncodeAll(xs) + Encode(x)
  {
    if xs == [] {
      assert xs + [x] == [x] && [x][1..] == [];
    } else {
      assert (xs + [x])[1..] == xs[1..] + [x];
      EncodeSnoc(xs[1..], x);
    }
  }

  /** Writing an item after what is there appends its encoding. */
  lemma {:induction false} FlatItem(str: seq<Byte>, heads: seq<ListHead>, x: Item)
    requires Ordered(heads, |str|) && Fits(x)
    ensures Ordered(heads + Heads(x, |str|), |str + Strs(x)|)
    ensures Flat(str + Strs(x), heads + Heads(x, |str|)) == Flat(str, heads) + Encode(x)
    decreases x, 1
  {
    hide Flat, Header, Ordered, EncodeAll, HeadsAll, StrsAll;
    match x
    case Str(b) =>
      FlatTail(str, EncodeStr(b), heads);
      assert heads + [] == heads;
    case List(xs) =>
      var h := ListHead(|str|, |EncodeAll(xs)|);
      var heads1 := heads + [h];
      FlatHead(str, heads, h);
      FlatAll(str, heads1, xs);
      assert heads1 + HeadsAll(xs, |str|) == heads + ([h] + HeadsAll(xs, |str|));
  }

  lemma {:induction false} FlatAll(str: seq<Byte>, heads: seq<ListHead>, xs: seq<Item>)
    requires Ordered(heads, |str|) && AllFit(xs)
    ensures Ordered(heads + HeadsAll(xs, |str|), |str + StrsAll(xs)|)
    ensures Flat(str + StrsAll(xs), heads + HeadsAll(xs, |str|)) == Flat(str, heads) + EncodeAll(xs)
    decreases xs, 2
  {
    hide Flat, Header, Ordered, EncodeAll, Heads, Strs;
    if xs == [] {
      assert str + [] == str && heads + [] == heads;
      NothingEncoded();
    } else {
      var ys, y := xs[..|xs| - 1], xs[|xs| - 1];
      assert xs == ys + [y];
      FlatAll(str, heads, ys);
      var str1, heads1 := str + StrsAll(ys), heads + HeadsAll(ys, |str|);
      FlatItem(str1, heads1, y);
      EncodeSnoc(ys, y);
      assert str1 + Strs(y) == str + StrsAll(xs);
      assert heads1 + Heads(y, |str1|) == heads + HeadsAll(xs, |str|);
    }
  }

  lemma {:induction false} NothingEncoded()
    ensures EncodeAll([]) == []
  {
  }

  /** An item alone. */
  lemma {:induction false} FlatEncode(x: Item)
    requires Fits(x)
    ensures Ordered(Heads(x, 0), |Strs(x)|) && Flat(Strs(x), Heads(x, 0)) == Encode(x)
  {
    hide Encode, Strs, Heads, Fits;
    FlatItem([], [], x);
    assert [] + Strs(x) == Strs(x) && [] + Heads(x, 0) == Heads(x, 0);
  }
}
