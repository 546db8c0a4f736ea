/** Recursive length prefix, as in Appendix B of the Ethereum Yellow Paper: items, their encoding, and its inverse. */
module RlpSpec {
  type Byte = x: int | 0 <= x < 256

  datatype Item = Str(bytes: seq<Byte>) | List(items: seq<Item>)

  // ---------------------------------------------------------------- numbers

  /** Big endian, without leading zeros; nothing for zero. */
  function BigEndian(n: nat): (b: seq<Byte>)
    ensures n == 0 <==> b == []
    ensures n > 0 ==> b[0] != 0
  {
    if n == 0 then [] else BigEndian(n / 256) + [n % 256]
  }

  function Value(b: seq<Byte>): nat {
    if b == [] then 0 else 256 * Value(b[..|b| - 1]) + b[|b| - 1]
  }

  lemma {:induction false} ValueOfBigEndian(n: nat)
    ensures Value(BigEndian(n)) == n
  {
    if n == 0 {
    } else {
      var b := BigEndian(n);
      assert b[..|b| - 1] == BigEndian(n / 256);
      ValueOfBigEndian(n / 256);
    }
  }

  /** Every byte string that does not start with zero is the big endian of its value. */
  lemma {:induction false} BigEndianOfValue(b: seq<Byte>)
    requires b != [] ==> b[0] != 0
    ensures BigEndian(Value(b)) == b
  {
    if b == [] {
    } else {
      var c := b[..|b| - 1];
      BigEndianOfValue(c);
      assert Value(b) / 256 == Value(c) && Value(b) % 256 == b[|b| - 1];
      if c == [] { assert b == [b[0]] && Value(b) > 0; }
      assert b == c + [b[|b| - 1]];
    }
  }

  function Pow256(k: nat): (p: nat)
    ensures p > 0
  {
    if k == 0 then 1 else 256 * Pow256(k - 1)
  }

  /** A number fits `k` bytes exactly when it is below `256^k`. */
  lemma {:induction false} BigEndianLength(n: nat, k: nat)
    ensures |BigEndian(n)| <= k <==> n < Pow256(k)
  {
    if n == 0 || k == 0 {
    } else {
      BigEndianLength(n / 256, k - 1);
    }
  }

  // ---------------------------------------------------------------- encoding

  /** The header of a string (`0x80`, `0xB7`) or list (`0xC0`, `0xF7`) with a payload of `size` bytes. */
  function Header(small: int, large: int, size: nat): (h: seq<Byte>)
    requires (small == 0x80 && large == 0xB7) || (small == 0xC0 && large == 0xF7)
    requires size < Pow256(8)
    ensures |h| > 0
  {
    if size < 56 then [small + size] else
      BigEndianLength(size, 8);
      [large + |BigEndian(size)|] + BigEndian(size)
  }

  function StrHeader(size: nat): (h: seq<Byte>)
    requires size < Pow256(8)
  {
    Header(0x80, 0xB7, size)
  }

  function ListHeader(size: nat): (h: seq<Byte>)
    requires size < Pow256(8)
  {
    Header(0xC0, 0xF7, size)
  }

  /** An item whose payloads all have a length of 64 bits. */
  predicate Fits(x: Item)
    decreases x, 0
  {
    match x
    case Str(b) => |b| < Pow256(8)
    case List(xs) => AllFit(xs) && |EncodeAll(xs)| < Pow256(8)
  }

  predicate AllFit(xs: seq<Item>)
    decreases xs, 1
  {
    forall i :: 0 <= i < |xs| ==> Fits(xs[i])
  }

  function EncodeStr(b: seq<Byte>): seq<Byte>
    requires |b| < Pow256(8)
  {
    if |b| == 1 && b[0] <= 0x7F then b else StrHeader(|b|) + b
  }

  function Encode(x: Item): (e: seq<Byte>)
    requires Fits(x)
    ensures |e| > 0
    decreases x, 1
  {
    match x
    case Str(b) => EncodeStr(b)
    case List(xs) => ListHeader(|EncodeAll(xs)|) + EncodeAll(xs)
  }

  function EncodeAll(xs: seq<Item>): seq<Byte>
    requires AllFit(xs)
    decreases xs, 2
  {
    if xs == [] then [] else Encode(xs[0]) + EncodeAll(xs[1..])
  }
}
