/** What updates, appends and refreshed paths do to what a delta tree knows. */
module DeltaOps {
  import opened Bits
  import opened MerkleSpec
  import opened Trees
  import opened MerklePaths
  import opened NodeStore
  import opened PlacedTrees
  import opened JoinedTrees
  import opened DeltaSpec

  // ---------------------------------------------------------------- updates

  /** A leaf has no known children. */
  lemma {:induction false} LeafBare(v: View, st: Store, index: map<MerkleHash, Id>, at: Places, o: Place)
    requires Knows(v, st, index, at) && o in v.known && TipIn(v.orig, o)
    ensures Bare(v, at, o) && Listed(v, index, at, o)
  {
    assert Below(o, false) in v.known ==> Listed(v, index, at, Below(o, false));
  }

  /** A leaf was given another hash: everything known is still known. */
  lemma {:induction false} UpdateKnows(v: View, st: Store, index: map<MerkleHash, Id>, at: Places, o: Place,
                                       x: MerkleHash, st': Store)
    requires Knows(v, st, index, at) && o in v.known && TipIn(v.orig, o) && Has(v.now, Now(v, o))
      && Partly(st', at, Put(v.now, Now(v, o), Tip(x)))
    ensures Knows(v.(now := Put(v.now, Now(v, o), Tip(x))), st', index, at)
  {
    hide Partly, Put, Listed, Bare;
    var v' := v.(now := Put(v.now, Now(v, o), Tip(x)));
    LeafBare(v, st, index, at, o);
    forall p | p in v.known ensures Listed(v', index, at, p) { UpdateListed(v, index, at, v', p); }
    forall p | p in v.known && Below(p, false) !in v.known ensures Bare(v', at, p) {
      UpdateBare(v, st, index, at, o, x, v', p);
    }
  }

  lemma {:induction false} UpdateListed(v: View, index: map<MerkleHash, Id>, at: Places, v': View, p: Place)
    requires Listed(v, index, at, p) && v' == v.(now := v'.now)
    ensures Listed(v', index, at, p)
  {
  }

  lemma {:induction false} UpdateBare(v: View, st: Store, index: map<MerkleHash, Id>, at: Places, o: Place,
                                      x: MerkleHash, v': View, p: Place)
    requires Knows(v, st, index, at) && Bare(v, at, o) && TipIn(v.orig, o) && o in v.known
      && v' == v.(now := Put(v.now, Now(v, o), Tip(x)))
    requires p in v.known && Below(p, false) !in v.known
    ensures Bare(v', at, p)
  {
    hide Listed, Put;
    assert Bare(v, at, p);
    var a, b := Now(v, o), Now(v, p);
    PutHere(v.now, a, Tip(x));
    if p != o {
      if a == b { NowInjective(v, o, p); }
      if Under(b, a) { NoneBelow(st, at, a, b); }
      if Under(a, b) { NoneBelow(st, at, b, a); }
      PutElsewhere(v.now, a, Tip(x), b);
    }
    forall y ensures Now(v', Join(p, y)) == Join(Now(v', p), y) { assert Now(v, Join(p, y)) == Join(Now(v, p), y); }
  }

  // ---------------------------------------------------------------- appends

  lemma {:induction false} MoveTrans(a: Place, n: nat, m: nat, k: nat)
    requires 0 < n <= m <= k
    ensures Move(a, n, k) == Move(Move(a, n, m), m, k)
    decreases k
  {
    if k == m {
    } else {
      MoveTrans(a, n, m, k - 1);
    }
  }

  /** A hash of the original tree has none of the new leaves in it. */
  lemma {:induction false} OldHashes(t: Tree, xs: seq<MerkleHash>, o: Place)
    requires Has(t, o) && NoneOccurs(xs, RootOf(t))
    ensures NoneOccurs(xs, HashIn(t, o))
  {
    UnderApex(o);
    OccursAbove(t, o, Apex);
    forall i | 0 <= i < |xs| ensures !Occurs(xs[i], HashIn(t, o)) {
      if Occurs(xs[i], HashIn(t, o)) { OccursTrans(xs[i], HashIn(t, o), RootOf(t)); }
    }
  }

  /** Leaves were appended: everything known is still known, where it moved to. */
  lemma {:induction false} AppendKnows(v: View, st: Store, index: map<MerkleHash, Id>, at: Places, xs: seq<MerkleHash>,
                                       st': Store, index': map<MerkleHash, Id>, at': Places, now': Tree, n': nat)
    requires Knows(v, st, index, at) && v.known != {} && 0 < v.n0 <= v.n <= n'
      && Carried(at, v.now, at', now', v.n, n') && Partly(st', at', now')
    requires Added(index, index', xs) && NoneOccurs(xs, RootOf(v.orig))
    ensures Knows(v.(now := now', n := n'), st', index', at')
  {
    hide Partly, Listed, Bare, Added, NoneOccurs, Carried;
    var v' := v.(now := now', n := n');
    forall o | o in v.known ensures Listed(v', index', at', o) && (Below(o, false) !in v'.known ==> Bare(v', at', o)) {
      MoveTrans(o, v.n0, v.n, n');
      AppendListed(v, index, at, xs, index', at', now', n', v', o);
      if Below(o, false) !in v.known { AppendBare(v, at, at', now', n', v', o); }
    }
    forall o | Has(v.orig, o) && HashIn(v.orig, o) in index' ensures o in v.known {
      OldHashes(v.orig, xs, o);
      SameEntry(index, index', xs, HashIn(v.orig, o));
    }
  }

  lemma {:induction false} SameEntry(index: map<MerkleHash, Id>, index': map<MerkleHash, Id>, xs: seq<MerkleHash>,
                                     h: MerkleHash)
    requires Added(index, index', xs) && NoneOccurs(xs, h)
    ensures (h in index <==> h in index') && (h in index ==> index'[h] == index[h])
  {
  }

  lemma {:induction false} AppendListed(v: View, index: map<MerkleHash, Id>, at: Places, xs: seq<MerkleHash>,
                                        index': map<MerkleHash, Id>, at': Places, now': Tree, n': nat, v': View,
                                        o: Place)
    requires 0 < v.n0 <= v.n <= n' && Carried(at, v.now, at', now', v.n, n') && Added(index, index', xs)
      && NoneOccurs(xs, RootOf(v.orig))
    requires v' == v.(now := now', n := n') && Listed(v, index, at, o) && Now(v', o) == Move(Now(v, o), v.n, n')
    ensures Listed(v', index', at', o)
  {
    hide Added, NoneOccurs, Complete;
    OldHashes(v.orig, xs, o);
    SameEntry(index, index', xs, HashIn(v.orig, o));
  }

  lemma {:induction false} AppendBare(v: View, at: Places, at': Places, now': Tree, n': nat, v': View, o: Place)
    requires 0 < v.n0 <= v.n <= n' && Carried(at, v.now, at', now', v.n, n')
    requires v' == v.(now := now', n := n') && Bare(v, at, o) && Now(v', o) == Move(Now(v, o), v.n, n')
    ensures Bare(v', at', o)
  {
    hide Complete;
    var a := Now(v, o);
    assert TookAlong(v.now, now', a, v.n, n');
    forall y ensures Now(v', Join(o, y)) == Join(Now(v', o), y) {
      assert Now(v, Join(o, y)) == Join(a, y);
      MoveTrans(Join(o, y), v.n0, v.n, n');
    }
  }

  // ---------------------------------------------------------------- the row that updates leave

  /** The same places, whatever the leaves. */
  ghost predicate Alike(t: Tree, u: Tree) {
    forall a :: Has(t, a) <==> Has(u, a)
  }

  lemma {:induction false} AlikeUpdate(t: Tree, u: Tree, a: Place, x: MerkleHash)
    requires Alike(t, u) && TipIn(t, a)
    ensures Alike(Put(t, a, Tip(x)), u)
  {
    forall b ensures Has(Put(t, a, Tip(x)), b) <==> Has(u, b) { PutTip(t, a, x, b); }
  }

  lemma {:induction false} AlikeAt(t: Tree, u: Tree, a: Place)
    requires Alike(t, u)
    ensures Has(t, a) <==> Has(u, a)
  {
  }

  lemma {:induction false} AlikeHalf(t: Tree, u: Tree, right: bool)
    requires Alike(t, u) && u.Fork?
    ensures t.Fork? && Alike(if right then t.right else t.left, if right then u.right else u.left)
  {
    var c := Below(Apex, right);
    assert Has(u, Apex) && Sub(u, Apex) == u && Has(t, Apex) && Sub(t, Apex) == t;
    AlikeAt(t, u, c);
    var t', u' := if right then t.right else t.left, if right then u.right else u.left;
    assert Sub(t, c) == t' && Sub(u, c) == u';
    forall a ensures Has(t', a) <==> Has(u', a) {
      AlikeAt(t, u, Join(c, a));
      SubJoin(t, c, a);
      SubJoin(u, c, a);
    }
  }

  /** A tree with the places of a row is a row. */
  lemma {:induction false} RowAlike(t: Tree, ts: seq<Tree>) returns (us: seq<Tree>)
    requires ts != [] && Alike(t, Assemble(ts))
    ensures |us| == |ts| && t == Assemble(us)
    decreases |ts|
  {
    hide PowBelow, Alike;
    if |ts| == 1 {
      us := [t];
    } else {
      var m := PowBelow(|ts|);
      AlikeHalf(t, Assemble(ts), false);
      AlikeHalf(t, Assemble(ts), true);
      var l := RowAlike(t.left, ts[..m]);
      var r := RowAlike(t.right, ts[m..]);
      us := l + r;
      assert us[..m] == l && us[m..] == r;
    }
  }

  // ---------------------------------------------------------------- refreshed paths

  lemma {:induction false} ProofJoin(t: Tree, a: Place, z: Place)
    requires Has(t, a) && Has(Sub(t, a), z)
    ensures Has(t, Join(a, z)) && Proof(t, Join(a, z)) == Proof(Sub(t, a), z) + Proof(t, a)
    decreases z
  {
    SubJoin(t, a, z);
    if z == Apex {
    } else {
      ProofJoin(t, a, z.up);
      SubJoin(t, a, Sibling(z));
      assert Sibling(Join(a, z)) == Join(a, Sibling(z));
    }
  }

  lemma {:induction false} SidesJoin(a: Place, z: Place)
    ensures Sides(Join(a, z)) == Sides(z) + Sides(a)
    decreases z
  {
    if z == Apex {
    } else {
      SidesJoin(a, z.up);
    }
  }

  /** The path of `o` up to `c`, and from there as it is now, is the path of `o` now. */
  lemma {:induction false} RefreshDone(v: View, st: Store, index: map<MerkleHash, Id>, at: Places, p: MerklePath,
                                       o: Place, i: nat, c: Place)
    requires Knows(v, st, index, at) && Along(v.orig, p, 0, o) && Along(v.orig, p, i, c) && Under(o, c)
    requires if c in v.known then c == o || Below(c, false) !in v.known else v.known == {} && c == Apex
    ensures Has(v.now, Now(v, c)) && Has(v.now, Now(v, o))
    ensures p.hashes[..i + 1] + Proof(v.now, Now(v, c)) == [p.hashes[0]] + Proof(v.now, Now(v, o))
    ensures SameSides(p.proofPath[..i] + Sides(Now(v, c)), Sides(Now(v, o)))
  {
    hide Knows, SameSides, Proof, Sides, Now;
    var z := Rest(o, c);
    RefreshPlace(v, st, index, at, o, c, z);
    RefreshParts(v.orig, p, o, i, c, z);
    ProofJoin(v.now, Now(v, c), z);
    SidesJoin(Now(v, c), z);
    SidesEnd(p.proofPath[..i], Sides(z), Sides(Now(v, c)));
    if z == Apex { RefreshHere(Sub(v.orig, c), Sub(v.now, Now(v, c))); }
    HashesEnd(p, i, Proof(Sub(v.orig, c), z), Proof(v.now, Now(v, c)));
  }

  lemma {:induction false} HashesEnd(p: MerklePath, i: nat, s: seq<MerkleHash>, t: seq<MerkleHash>)
    requires i < |p.hashes| && p.hashes[1..i + 1] == s
    ensures p.hashes[..i + 1] + t == [p.hashes[0]] + (s + t)
  {
    assert p.hashes[..i + 1] == [p.hashes[0]] + p.hashes[1..i + 1];
  }

  lemma {:induction false} RefreshHere(t: Tree, u: Tree)
    ensures Proof(t, Apex) == Proof(u, Apex)
  {
  }

  lemma {:induction false} RefreshKnown(v: View, st: Store, index: map<MerkleHash, Id>, at: Places, c: Place)
    requires Knows(v, st, index, at) && c in v.known
    ensures Now(v, c) in at && Has(v.now, Now(v, c))
  {
    assert Listed(v, index, at, c);
  }

  /** What is between `c` and `o` is as it was. */
  lemma {:induction false} RefreshPlace(v: View, st: Store, index: map<MerkleHash, Id>, at: Places, o: Place,
                                        c: Place, z: Place)
    requires Knows(v, st, index, at) && Has(v.orig, o) && Has(v.orig, c) && o == Join(c, z)
    requires if c in v.known then c == o || Below(c, false) !in v.known else v.known == {} && c == Apex
    ensures Has(v.now, Now(v, c)) && Has(v.orig, c) && Now(v, o) == Join(Now(v, c), z) && Has(Sub(v.orig, c), z)
      && Has(Sub(v.now, Now(v, c)), z)
    ensures z != Apex ==> Sub(v.now, Now(v, c)) == Sub(v.orig, c)
    ensures c == o ==> z == Apex
  {
    hide Partly, Listed;
    SubJoin(v.orig, c, z);
    if c == o { JoinInjective(c, z, Apex); }
    if c in v.known {
      RefreshKnown(v, st, index, at, c);
      if c != o {
        assert Bare(v, at, c);
        JoinUnder(c, z);
        if Sub(v.orig, c).Tip? { TipAlone(v.orig, c, o); }
      }
    } else {
      JoinApex(z);
    }
  }

  lemma {:induction false} RefreshParts(t: Tree, p: MerklePath, o: Place, i: nat, c: Place, z: Place)
    requires Along(t, p, 0, o) && Along(t, p, i, c) && o == Join(c, z) && Has(Sub(t, c), z)
    ensures p.hashes[1..i + 1] == Proof(Sub(t, c), z) && SameSides(p.proofPath[..i], Sides(z)) && i == Depth(z)
  {
    RefreshSides(t, p, o, i, c, z);
    RefreshHashes(t, p, o, i, c, z);
  }

  lemma {:induction false} RefreshHashes(t: Tree, p: MerklePath, o: Place, i: nat, c: Place, z: Place)
    requires Along(t, p, 0, o) && Along(t, p, i, c) && o == Join(c, z) && Has(Sub(t, c), z) && i == Depth(z)
    ensures p.hashes[1..i + 1] == Proof(Sub(t, c), z)
  {
    hide Proof, Sides, Join, SameSides;
    ProofJoin(t, c, z);
    var q, s := p.hashes[1..], Proof(Sub(t, c), z);
    assert q == s + Proof(t, c) && |s| == i;
    assert p.hashes[1..i + 1] == q[..i];
  }

  lemma {:induction false} RefreshSides(t: Tree, p: MerklePath, o: Place, i: nat, c: Place, z: Place)
    requires Along(t, p, 0, o) && Along(t, p, i, c) && o == Join(c, z) && Has(Sub(t, c), z)
    ensures SameSides(p.proofPath[..i], Sides(z)) && i == Depth(z)
  {
    hide Proof, Sides, Join;
    SidesJoin(c, z);
    JoinDepth(c, z);
    assert p.proofPath[0..] == p.proofPath;
    assert forall k :: 0 <= k < i ==> p.proofPath[..i][k] == p.proofPath[k] && Sides(o)[k] == Sides(z)[k];
  }

  lemma {:induction false} SidesEnd(p: seq<Pos>, q: seq<Pos>, r: seq<Pos>)
    requires SameSides(p, q)
    ensures SameSides(p + r, q + r)
  {
  }

  /** A refreshed proof leads to the root if and only if it starts from the hash the node has. */
  lemma {:induction false} RefreshedLeads(t: Tree, a: Place, h: MerkleHash, p: MerklePath)
    requires Has(t, a) && p.hashes == [h] + Proof(t, a) && SameSides(p.proofPath, Sides(a))
    ensures Leads(p, RootOf(t)) <==> h == HashIn(t, a)
  {
    TurnSides(p.proofPath, a);
    assert p.hashes[1..] == Proof(t, a);
    FoldAt(t, h, p.hashes[1..], p.proofPath);
  }
}
