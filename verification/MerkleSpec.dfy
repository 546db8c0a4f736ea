/**
  What a Merkle tree computes, stated on leaf sequences.

  Hashing is modelled as the free constructor `Node`: SHA-256 is taken to be collision free.
  `Atom` is the hash of some bytes. A leaf may itself be the root of another tree, so a leaf hash is any `MerkleHash`.
 */
module MerkleSpec {
  import opened Bits

  datatype MerkleHash = Atom(data: seq<nat>) | Node(left: MerkleHash, right: MerkleHash)

  type Pos = bv8
  const LEFT: Pos := 0
  const RIGHT: Pos := 1

  /** The hash of a node from the hash of one child, its sibling, and the side the sibling is on. */
  function Hash(hash: MerkleHash, sibling: MerkleHash, pos: Pos): MerkleHash {
    if pos == LEFT then Node(sibling, hash) else Node(hash, sibling)
  }

  /** A sibling at position 0 is on the left, one at 1 on the right. */
  lemma {:induction false} HashSides(h: MerkleHash, s: MerkleHash)
    ensures Hash(h, s, 0) == Node(s, h) && Hash(h, s, 1) == Node(h, s)
  {
  }

  /** The hash of the subtree over leaves `lo .. hi - 1`: split at the largest power of two below its size. */
  function Root(s: seq<MerkleHash>, lo: nat, hi: nat): MerkleHash
    requires lo < hi <= |s|
    decreases hi - lo
  {
    if hi == lo + 1 then s[lo] else
      var m := lo + PowBelow(hi - lo);
      Node(Root(s, lo, m), Root(s, m, hi))
  }

  // ---------------------------------------------------------------- no two nodes share a hash

  /** `x` is `t` or is hashed somewhere below it. */
  predicate Occurs(x: MerkleHash, t: MerkleHash) {
    x == t || (t.Node? && (Occurs(x, t.left) || Occurs(x, t.right)))
  }

  function Size(t: MerkleHash): nat {
    match t
    case Atom(_) => 1
    case Node(l, r) => 1 + Size(l) + Size(r)
  }

  lemma {:induction false} OccursTrans(x: MerkleHash, y: MerkleHash, z: MerkleHash)
    requires Occurs(x, y) && Occurs(y, z)
    ensures Occurs(x, z)
    decreases z
  {
    if y == z {
    } else {
      if Occurs(y, z.left) { OccursTrans(x, y, z.left); } else { OccursTrans(x, y, z.right); }
    }
  }

  lemma {:induction false} OccursSize(x: MerkleHash, t: MerkleHash)
    requires Occurs(x, t)
    ensures Size(x) <= Size(t)
  {
    if x == t {
    } else {
      if Occurs(x, t.left) { OccursSize(x, t.left); } else { OccursSize(x, t.right); }
    }
  }

  /** No hash is hashed from itself. */
  lemma {:induction false} NodeNotChild(l: MerkleHash, r: MerkleHash)
    ensures Node(l, r) != l && Node(l, r) != r
  {
    assert Size(Node(l, r)) > Size(l) + Size(r);
  }

  /** No leaf occurs in another one. Distinct atoms are the simplest case. */
  predicate Separated(s: seq<MerkleHash>) {
    forall i, j :: 0 <= i < |s| && 0 <= j < |s| && i != j ==> !Occurs(s[i], s[j])
  }

  lemma {:induction false} DistinctAtomsSeparated(s: seq<MerkleHash>)
    requires forall i :: 0 <= i < |s| ==> s[i].Atom?
    requires forall i, j :: 0 <= i < j < |s| ==> s[i] != s[j]
    ensures Separated(s)
  {
  }
}
