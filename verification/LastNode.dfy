/** The path of the last leaf, by which a tree's size is attested. */
module LastNode {
  import opened Bits
  import opened MerkleSpec
  import opened Trees
  import opened MerklePaths

  datatype LastNodeResult = LastOk | LastBadPath(error: VerifyResult) | LastBadLength | LastBadSide

  const TWO_TO_64 := 0x1_0000_0000_0000_0000

  /** The number of one bits of a 64-bit number, which for a negative one are those of its two's complement. */
  function Ones(value: int): nat {
    PopCount(value % TWO_TO_64)
  }

  /** For the size of a tree these are the ones of its last index. */
  lemma {:induction false} OnesOfSize(size: nat)
    requires 0 < size <= 0x1_0000_0000_0000_0000
    ensures Ones(size - 1) == PopCount(size - 1)
  {
    hide PopCount;
  }

  function Pow2(k: nat): (p: nat)
    ensures p > 0
  {
    if k == 0 then 1 else 2 * Pow2(k - 1)
  }

  /** Among `k` bits, the ones of a number are the zeros of its complement. */
  lemma {:induction false} ComplementOnes(m: nat, k: nat)
    requires m < Pow2(k)
    ensures PopCount(Pow2(k) - 1 - m) == k - PopCount(m)
  {
    if k == 0 {
    } else {
      ComplementOnes(m / 2, k - 1);
      var c := Pow2(k) - 1 - m;
      assert c % 2 == 1 - m % 2 && c / 2 == Pow2(k - 1) - 1 - m / 2;
    }
  }

  /** For a size of zero or less they are the ones of a negative number in 64 bits. */
  lemma {:induction false} OnesNegative(size: int)
    requires -0x8000_0000_0000_0000 < size <= 0
    ensures Ones(size - 1) == 64 - PopCount(0 - size)
  {
    hide PopCount, Pow2;
    WordSize();
    ComplementOnes(0 - size, 64);
  }

  lemma {:induction false} WordSize()
    ensures Pow2(64) == 0x1_0000_0000_0000_0000
  {
    hide Pow2;
    FourBits();
    PowSquare(4, 0x10);
    PowSquare(8, 0x100);
    PowSquare(16, 0x1_0000);
    PowSquare(32, 0x1_0000_0000);
  }

  lemma {:induction false} FourBits()
    ensures Pow2(4) == 16
  {
    assert Pow2(2) == 4;
  }

  lemma {:induction false} PowSquare(k: nat, p: nat)
    requires Pow2(k) == p
    ensures Pow2(2 * k) == p * p
  {
    PowAdd(k, k);
  }

  lemma {:induction false} PowAdd(a: nat, b: nat)
    ensures Pow2(a + b) == Pow2(a) * Pow2(b)
  {
    if a == 0 {
    } else {
      PowAdd(a - 1, b);
    }
  }

  ghost predicate PassesLastNode(root: MerkleHash, size: int, p: MerklePath) {
    Leads(p, root) && |p.proofPath| == Ones(size - 1) && forall i :: 0 <= i < |p.proofPath| ==> p.proofPath[i] == LEFT
  }

  /** `VerifyLastNodeMerklePath`. */
  method VerifyLastNode(merkleRoot: MerkleHash, size: int, p: MerklePath) returns (r: LastNodeResult)
    ensures r == LastOk <==> PassesLastNode(merkleRoot, size, p)
    ensures r.LastBadPath? <==> !Leads(p, merkleRoot)
    ensures r.LastBadLength? <==> Leads(p, merkleRoot) && |p.proofPath| != Ones(size - 1)
    ensures 0 < size < 0x8000_0000_0000_0000 ==>
      (r == LastOk <==> Leads(p, merkleRoot) && |p.proofPath| == PopCount(size - 1)
                        && forall i :: 0 <= i < |p.proofPath| ==> p.proofPath[i] == 0)
  {
    hide PopCount, Fold;
    var err := Verify(p, merkleRoot);
    if err != Ok {
      return LastBadPath(err);
    }
    var lengthOfProof := CountOne((size - 1) % TWO_TO_64);
    if |p.proofPath| != lengthOfProof || |p.hashes| != lengthOfProof + 1 {
      return LastBadLength;
    }
    for i := 0 to |p.proofPath|
      invariant forall j :: 0 <= j < i ==> p.proofPath[j] == LEFT
    {
      if p.proofPath[i] != LEFT {
        return LastBadSide;
      }
    }
    return LastOk;
  }

  lemma {:induction false} SpineSides(d: nat, pos: seq<Pos>)
    ensures Turn(pos) == Spine(d) <==> |pos| == d && forall i :: 0 <= i < d ==> pos[i] == LEFT
  {
    if d == 0 || pos == [] {
    } else {
      SpineSides(d - 1, pos[1..]);
      assert pos == [pos[0]] + pos[1..];
      assert forall i :: 0 <= i < |pos| - 1 ==> pos[1..][i] == pos[i + 1];
      if |pos| == d && pos[0] == LEFT && (forall i :: 0 <= i < d - 1 ==> pos[1..][i] == LEFT) {
        assert forall i :: 0 < i < d ==> pos[i] == pos[1..][i - 1];
      }
    }
  }

  /** On a tree of the given size, with whatever below its leaves, exactly the path of the last leaf passes. */
  lemma {:induction false} LastNodeSound(ts: seq<Tree>, p: MerklePath)
    requires 0 < |ts| <= 0x1_0000_0000_0000_0000
    ensures Has(Assemble(ts), Spine(PopCount(|ts| - 1)))
    ensures PassesLastNode(RootOf(Assemble(ts)), |ts|, p) <==> IsPathAt(Assemble(ts), Spine(PopCount(|ts| - 1)), p)
  {
    hide PopCount, Fold, Assemble;
    var t, d := Assemble(ts), PopCount(|ts| - 1);
    LastOfRow(ts);
    OnesOfSize(|ts|);
    SpineSides(d, p.proofPath);
    TurnSides(p.proofPath, Spine(d));
    if Turn(p.proofPath) == Spine(d) && WellFormed(p) {
      FoldAt(t, p.hashes[0], p.hashes[1..], p.proofPath);
      assert p.hashes == [p.hashes[0]] + p.hashes[1..];
    }
  }
}
