/** Merkle paths: from a node up to the root. */
module MerklePaths {
  import opened MerkleSpec
  import opened Trees

  /** `hashes[0]` is the node's own hash; the rest are its proof. `proofPath` gives each sibling's side. */
  datatype MerklePath = MerklePath(hashes: seq<MerkleHash>, proofPath: seq<Pos>)

  datatype VerifyResult = Ok | BadLength | RootMismatch(expected: MerkleHash, actual: MerkleHash)

  function Fold(h: MerkleHash, proof: seq<MerkleHash>, pos: seq<Pos>): MerkleHash
    requires |proof| == |pos|
    decreases |pos|
  {
    if pos == [] then h else Fold(Hash(h, proof[0], pos[0]), proof[1..], pos[1..])
  }

  predicate WellFormed(p: MerklePath) {
    |p.proofPath| + 1 == |p.hashes|
  }

  /** The path leads to `root`. */
  predicate Leads(p: MerklePath, root: MerkleHash) {
    WellFormed(p) && Fold(p.hashes[0], p.hashes[1..], p.proofPath) == root
  }

  /** `MerklePath.Verify`. */
  method Verify(p: MerklePath, expectedHash: MerkleHash) returns (r: VerifyResult)
    ensures r == Ok <==> Leads(p, expectedHash)
    ensures r == BadLength <==> !WellFormed(p)
    ensures r.RootMismatch? ==> r == RootMismatch(expectedHash, Fold(p.hashes[0], p.hashes[1..], p.proofPath))
  {
    if |p.proofPath| + 1 != |p.hashes| {
      return BadLength;
    }
    var actualHash := p.hashes[0];
    var proof := p.hashes[1..];
    for index := 0 to |p.proofPath|
      invariant Fold(p.hashes[0], proof, p.proofPath) == Fold(actualHash, proof[index..], p.proofPath[index..])
    {
      assert proof[index..][1..] == proof[index + 1..] && p.proofPath[index..][1..] == p.proofPath[index + 1..];
      actualHash := Hash(actualHash, proof[index], p.proofPath[index]);
    }
    return if actualHash == expectedHash then Ok else RootMismatch(expectedHash, actualHash);
  }

  // ---------------------------------------------------------------- the true path of a node

  function Sibling(a: Place): Place
    requires a != Apex
  {
    Below(a.up, !a.right)
  }

  /** The hashes of the siblings on the way up. */
  ghost function Proof(t: Tree, a: Place): (p: seq<MerkleHash>)
    requires Has(t, a)
    ensures |p| == Depth(a)
    decreases a
  {
    if a == Apex then [] else [HashIn(t, Sibling(a))] + Proof(t, a.up)
  }

  /** The sides they are on. */
  ghost function Sides(a: Place): (p: seq<Pos>)
    ensures |p| == Depth(a)
  {
    if a == Apex then [] else [if a.right then LEFT else RIGHT] + Sides(a.up)
  }

  /** One sibling more on the way up from `a`, at `b`. */
  lemma {:induction false} ProofStep(t: Tree, a: Place, b: Place, hashes: seq<MerkleHash>, path: seq<Pos>)
    requires Has(t, a) && Has(t, b) && b != Apex && hashes + Proof(t, b) == Proof(t, a) && path + Sides(b) == Sides(a)
    ensures Has(t, Sibling(b)) && (hashes + [HashIn(t, Sibling(b))]) + Proof(t, b.up) == Proof(t, a)
    ensures (path + [if b.right then LEFT else RIGHT]) + Sides(b.up) == Sides(a)
  {
    Regroup(hashes, HashIn(t, Sibling(b)), Proof(t, b.up));
    Regroup(path, if b.right then LEFT else RIGHT, Sides(b.up));
  }

  lemma {:induction false} Regroup<T>(s: seq<T>, x: T, r: seq<T>)
    ensures s + ([x] + r) == (s + [x]) + r
  {
  }

  lemma {:induction false} ProofEnd(t: Tree)
    ensures Proof(t, Apex) == [] && Sides(Apex) == []
  {
  }

  /** The path of a node. */
  ghost function PathAt(t: Tree, a: Place): MerklePath
    requires Has(t, a)
  {
    MerklePath([HashIn(t, a)] + Proof(t, a), Sides(a))
  }

  /** Sides are only told apart as left and not left. */
  ghost predicate SameSides(p: seq<Pos>, q: seq<Pos>) {
    |p| == |q| && forall i :: 0 <= i < |p| ==> (p[i] == LEFT <==> q[i] == LEFT)
  }

  ghost predicate IsPathAt(t: Tree, a: Place, p: MerklePath)
    requires Has(t, a)
  {
    p.hashes == [HashIn(t, a)] + Proof(t, a) && SameSides(p.proofPath, Sides(a))
  }

  /** The place a path with these sides starts from. */
  ghost function Turn(pos: seq<Pos>): (a: Place)
    ensures Depth(a) == |pos|
  {
    if pos == [] then Apex else Below(Turn(pos[1..]), pos[0] == LEFT)
  }

  lemma {:induction false} TurnSides(pos: seq<Pos>, a: Place)
    ensures SameSides(pos, Sides(a)) <==> Turn(pos) == a
    decreases a
  {
    if pos == [] || a == Apex {
    } else {
      TurnSides(pos[1..], a.up);
      var q := Sides(a);
      assert q[1..] == Sides(a.up) && pos == [pos[0]] + pos[1..];
      if SameSides(pos[1..], Sides(a.up)) && (pos[0] == LEFT <==> q[0] == LEFT) {
        assert forall i :: 0 < i < |pos| ==> pos[i] == pos[1..][i - 1] && q[i] == q[1..][i - 1];
      }
      if SameSides(pos, q) {
        assert forall i :: 0 <= i < |pos| - 1 ==> pos[1..][i] == pos[i + 1] && q[1..][i] == q[i + 1];
      }
    }
  }

  /** Where the sides of a proof stay within the tree, it leads to the root exactly when every hash is the one there. */
  lemma {:induction false} FoldAt(t: Tree, h: MerkleHash, proof: seq<MerkleHash>, pos: seq<Pos>)
    requires |proof| == |pos| && Has(t, Turn(pos))
    ensures Fold(h, proof, pos) == RootOf(t) <==> h == HashIn(t, Turn(pos)) && proof == Proof(t, Turn(pos))
    decreases |pos|
  {
    if pos == [] {
    } else {
      var a := Turn(pos);
      FoldAt(t, Hash(h, proof[0], pos[0]), proof[1..], pos[1..]);
      assert proof == [proof[0]] + proof[1..];
      assert HashIn(t, a.up) == Node(HashIn(t, Below(a.up, false)), HashIn(t, Below(a.up, true)));
    }
  }

  /** Completeness: the path of every node leads to the root. */
  lemma {:induction false} PathLeads(t: Tree, a: Place, p: MerklePath)
    requires Has(t, a) && IsPathAt(t, a, p)
    ensures Leads(p, RootOf(t))
  {
    TurnSides(p.proofPath, a);
    assert p.hashes[1..] == Proof(t, a);
    FoldAt(t, p.hashes[0], p.hashes[1..], p.proofPath);
  }

  lemma {:induction false} OwnPath(t: Tree, a: Place)
    requires Has(t, a)
    ensures IsPathAt(t, a, PathAt(t, a)) && Leads(PathAt(t, a), RootOf(t))
  {
    PathLeads(t, a, PathAt(t, a));
  }

  // ---------------------------------------------------------------- trees whose tips do not occur in one another

  ghost predicate Apart(t: Tree) {
    forall a, b {:trigger TipIn(t, a), TipIn(t, b)} ::
      TipIn(t, a) && TipIn(t, b) && a != b ==> !Occurs(Sub(t, a).hash, Sub(t, b).hash)
  }

  lemma {:induction false} SomeTip(t: Tree, a: Place) returns (b: Place)
    requires Has(t, a)
    ensures TipIn(t, b) && Under(b, a)
    decreases Sub(t, a)
  {
    if Sub(t, a).Tip? {
      b := a;
    } else {
      b := SomeTip(t, Below(a, false));
      UnderChild(b, a);
    }
  }

  /** The hash of a node occurs in those of the nodes above it. */
  lemma {:induction false} OccursAbove(t: Tree, b: Place, a: Place)
    requires Has(t, b) && Under(b, a)
    ensures Has(t, a) && Occurs(HashIn(t, b), HashIn(t, a))
    ensures b != a ==> Size(HashIn(t, b)) < Size(HashIn(t, a))
    decreases b
  {
    if b == a {
    } else {
      OccursAbove(t, b.up, a);
      assert HashIn(t, b.up) == Node(HashIn(t, Below(b.up, false)), HashIn(t, Below(b.up, true)));
      assert Occurs(HashIn(t, b), HashIn(t, b));
      OccursTrans(HashIn(t, b), HashIn(t, b.up), HashIn(t, a));
    }
  }

  /** A tip occurs in no node but those above it. */
  lemma {:induction false} TipOccurs(t: Tree, b: Place, a: Place)
    requires Apart(t) && TipIn(t, b) && Has(t, a) && Occurs(Sub(t, b).hash, HashIn(t, a))
    ensures Under(b, a)
    decreases Sub(t, a)
  {
    var x := Sub(t, b).hash;
    if Sub(t, a).Tip? {
      assert TipIn(t, a);
    } else {
      UnderChild(b, a);
      if x == HashIn(t, a) {
        var c := SomeTip(t, a);
        OccursAbove(t, c, a);
        assert TipIn(t, c);
      } else if Occurs(x, HashIn(t, Below(a, false))) {
        TipOccurs(t, b, Below(a, false));
      } else {
        TipOccurs(t, b, Below(a, true));
      }
    }
  }

  /** Distinct nodes have distinct hashes. */
  lemma {:induction false} HashInjective(t: Tree, a: Place, b: Place)
    requires Apart(t) && Has(t, a) && Has(t, b) && HashIn(t, a) == HashIn(t, b)
    ensures a == b
  {
    var c := SomeTip(t, a);
    OccursAbove(t, c, a);
    TipOccurs(t, c, b);
    Comparable(a, b, c);
    if Under(a, b) { OccursAbove(t, a, b); } else { OccursAbove(t, b, a); }
  }

  /** No two nodes have the same hash. */
  ghost predicate NoTwins(t: Tree) {
    forall a, b {:trigger HashIn(t, a), HashIn(t, b)} ::
      Has(t, a) && Has(t, b) && HashIn(t, a) == HashIn(t, b) ==> a == b
  }

  lemma {:induction false} ApartNoTwins(t: Tree)
    requires Apart(t)
    ensures NoTwins(t)
  {
    forall a, b | Has(t, a) && Has(t, b) && HashIn(t, a) == HashIn(t, b) ensures a == b { HashInjective(t, a, b); }
  }

  lemma {:induction false} Comparable(a: Place, b: Place, c: Place)
    requires Under(c, a) && Under(c, b)
    ensures Under(a, b) || Under(b, a)
  {
    if c == a || c == b {
    } else {
      Comparable(a, b, c.up);
    }
  }

  /** A proof whose sides leave the tree starts inside a tip. */
  lemma {:induction false} InsideTip(t: Tree, h: MerkleHash, proof: seq<MerkleHash>, pos: seq<Pos>) returns (b: Place)
    requires |proof| == |pos| && !Has(t, Turn(pos)) && Fold(h, proof, pos) == RootOf(t)
    ensures TipIn(t, b) && Occurs(h, Sub(t, b).hash) && Size(h) < Size(Sub(t, b).hash)
    decreases |pos|
  {
    var g, u := Hash(h, proof[0], pos[0]), Turn(pos[1..]);
    assert Occurs(h, h) && Occurs(h, g) && Size(h) < Size(g);
    if Has(t, u) {
      FoldAt(t, g, proof[1..], pos[1..]);
      b := u;
    } else {
      b := InsideTip(t, g, proof[1..], pos[1..]);
      OccursTrans(h, g, Sub(t, b).hash);
    }
  }

  /** Soundness: a path from a node's hash leads to the root exactly when it is that node's path. */
  lemma {:induction false} PathSound(t: Tree, a: Place, p: MerklePath)
    requires Apart(t) && Has(t, a) && p.hashes != [] && p.hashes[0] == HashIn(t, a)
    ensures Leads(p, RootOf(t)) <==> IsPathAt(t, a, p)
  {
    if Leads(p, RootOf(t)) {
      var h, proof, c := p.hashes[0], p.hashes[1..], Turn(p.proofPath);
      if Has(t, c) {
        FoldAt(t, h, proof, p.proofPath);
        HashInjective(t, a, c);
        TurnSides(p.proofPath, a);
        assert p.hashes == [h] + proof;
      } else {
        var b := InsideTip(t, h, proof, p.proofPath);
        NotInsideTip(t, a, b);
      }
    } else if IsPathAt(t, a, p) {
      PathLeads(t, a, p);
    }
  }

  lemma {:induction false} NotInsideTip(t: Tree, a: Place, b: Place)
    requires Apart(t) && Has(t, a) && TipIn(t, b) && Occurs(HashIn(t, a), Sub(t, b).hash)
    ensures a == b
  {
    var c := SomeTip(t, a);
    OccursAbove(t, c, a);
    OccursTrans(Sub(t, c).hash, HashIn(t, a), Sub(t, b).hash);
    assert TipIn(t, c) && c == b;
    OccursSize(HashIn(t, a), Sub(t, b).hash);
    OccursAbove(t, b, a);
  }

  /** Leaves that do not occur in one another make such a tree. */
  lemma {:induction false} RowApart(s: seq<MerkleHash>)
    requires s != [] && Separated(s)
    ensures Apart(Assemble(Tips(s)))
  {
    hide Assemble, LeafPlace;
    var ts := Tips(s);
    var t := Assemble(ts);
    forall a, b | TipIn(t, a) && TipIn(t, b) && a != b ensures !Occurs(Sub(t, a).hash, Sub(t, b).hash) {
      var i := TipInRow(ts, a);
      var j := TipInRow(ts, b);
      LeafAt(ts, i);
      LeafAt(ts, j);
      TipAlone(t, LeafPlace(i, |ts|), a);
      TipAlone(t, LeafPlace(j, |ts|), b);
    }
  }
}
