/** A tree clipped to a run of leaves: down to the kept leaves, and to the hash of everything beside them. */
module ClipSpec {
  import opened Bits
  import opened MerkleSpec
  import opened Trees
  import opened MerklePaths

  /** Leaves `start ..` of a tree of `size` leaves, with the hashes of the paths of the first and the last of them. */
  datatype Clip = Clip(size: nat, start: int, leaves: seq<MerkleHash>, left: seq<MerkleHash>, right: seq<MerkleHash>)

  function End(c: Clip): int {
    c.start + |c.leaves|
  }

  predicate InRange(c: Clip) {
    0 <= c.start && c.leaves != [] && End(c) <= c.size
  }

  /** Some leaf of `lo .. hi - 1` is among those kept. */
  predicate Meets(c: Clip, lo: nat, hi: nat) {
    lo < End(c) && c.start < hi
  }

  predicate Covers(lo: nat, hi: nat, i: int) {
    lo <= i < hi
  }

  /** How many levels leaf `i` is below the node over `lo .. hi - 1`. */
  ghost function Height(i: nat, lo: nat, hi: nat): nat
    requires Covers(lo, hi, i)
  {
    Depth(LeafPlace(i - lo, hi - lo))
  }

  /** How high a leaf is in a part joined from two, one or none of which has it. */
  lemma {:induction false} PeakHeight(i: nat, k: nat, m: nat, n: nat, inRight: bool, inLeft: bool, d0: nat, d: nat)
    requires k < m < n && m == k + PowBelow(n - k) && (inRight <==> Covers(m, n, i)) && (inLeft <==> Covers(k, m, i))
    requires d0 == (if inRight then Height(i, m, n) else 0) && d == if inLeft then Height(i, k, m) else d0
    ensures inRight || inLeft <==> Covers(k, n, i)
    ensures inRight || inLeft ==> d + 1 == Height(i, k, n)
  {
    hide Height, PowBelow;
    if Covers(k, n, i) { HeightStep(i, k, n); }
  }

  lemma {:induction false} HeightStep(i: nat, lo: nat, hi: nat)
    requires Covers(lo, hi, i)
    ensures hi == lo + 1 ==> Height(i, lo, hi) == 0
    ensures hi > lo + 1 ==> var m := lo + PowBelow(hi - lo);
      Height(i, lo, hi) == 1 + if i < m then Height(i, lo, m) else Height(i, m, hi)
  {
    if hi > lo + 1 {
      var m := PowBelow(hi - lo);
      if i - lo < m {
        JoinDepth(Below(Apex, false), LeafPlace(i - lo, m));
      } else {
        JoinDepth(Below(Apex, true), LeafPlace(i - lo - m, hi - lo - m));
      }
      assert Depth(Below(Apex, false)) == 1 && Depth(Below(Apex, true)) == 1;
    }
  }

  function Nth(hashes: seq<MerkleHash>, d: nat): MerkleHash {
    if d < |hashes| then hashes[d] else Atom([])
  }

  /** The clipped tree over `lo .. hi - 1`. A half without kept leaves is a hash of the path on its side. */
  ghost function Cut(c: Clip, lo: nat, hi: nat): Tree
    requires lo < hi && Meets(c, lo, hi) && c.leaves != []
    decreases hi - lo
  {
    if hi == lo + 1 then Tip(c.leaves[lo - c.start]) else
      var m := lo + PowBelow(hi - lo);
      Fork(if Meets(c, lo, m) then Cut(c, lo, m) else Tip(Nth(c.left, Height(c.start, lo, hi))),
           if Meets(c, m, hi) then Cut(c, m, hi) else Tip(Nth(c.right, Height(End(c) - 1, lo, hi))))
  }

  /** The paths have every hash that is needed. */
  ghost predicate Fed(c: Clip, lo: nat, hi: nat)
    requires lo < hi && c.leaves != []
    decreases hi - lo
  {
    hi == lo + 1 || !Meets(c, lo, hi) ||
      var m := lo + PowBelow(hi - lo);
      && (if Meets(c, lo, m) then Fed(c, lo, m) else Height(c.start, lo, hi) < |c.left|)
      && (if Meets(c, m, hi) then Fed(c, m, hi) else Height(End(c) - 1, lo, hi) < |c.right|)
  }

  // ---------------------------------------------------------------- parts of trees

  /** `t` is `u` with some subtrees reduced to their hashes. */
  ghost predicate Trimmed(t: Tree, u: Tree) {
    match t
    case Tip(h) => h == RootOf(u)
    case Fork(l, r) => u.Fork? && Trimmed(l, u.left) && Trimmed(r, u.right)
  }

  lemma {:induction false} TrimmedRoot(t: Tree, u: Tree)
    requires Trimmed(t, u)
    ensures RootOf(t) == RootOf(u)
  {
    if t.Tip? {
    } else {
      TrimmedRoot(t.left, u.left);
      TrimmedRoot(t.right, u.right);
    }
  }

  lemma {:induction false} TrimmedAt(t: Tree, u: Tree, a: Place)
    requires Trimmed(t, u) && Has(t, a)
    ensures Has(u, a) && Trimmed(Sub(t, a), Sub(u, a)) && HashIn(t, a) == HashIn(u, a)
    decreases a
  {
    if a == Apex {
    } else {
      TrimmedAt(t, u, a.up);
    }
    TrimmedRoot(Sub(t, a), Sub(u, a));
  }

  /** A node has the path it has in the whole tree. */
  lemma {:induction false} TrimmedPath(t: Tree, u: Tree, a: Place)
    requires Trimmed(t, u) && Has(t, a)
    ensures Has(u, a) && Proof(t, a) == Proof(u, a) && PathAt(t, a) == PathAt(u, a)
    decreases a
  {
    TrimmedAt(t, u, a);
    if a == Apex {
    } else {
      TrimmedPath(t, u, a.up);
      TrimmedAt(t, u, Sibling(a));
    }
  }

  lemma {:induction false} TrimmedTwins(t: Tree, u: Tree)
    requires Trimmed(t, u) && NoTwins(u)
    ensures NoTwins(t)
  {
    forall a, b | Has(t, a) && Has(t, b) && HashIn(t, a) == HashIn(t, b) ensures a == b {
      TrimmedAt(t, u, a);
      TrimmedAt(t, u, b);
    }
  }

  // ---------------------------------------------------------------- the tree clipped from

  /** The tree over leaves `lo .. hi - 1` of `s`. */
  ghost function Span(s: seq<MerkleHash>, lo: nat, hi: nat): Tree
    requires lo < hi <= |s|
    decreases hi - lo
  {
    if hi == lo + 1 then Tip(s[lo]) else
      var m := lo + PowBelow(hi - lo);
      Fork(Span(s, lo, m), Span(s, m, hi))
  }

  /** The trees are the leaves from `lo` on. */
  ghost predicate TipsFrom(s: seq<MerkleHash>, lo: nat, ts: seq<Tree>) {
    lo + |ts| <= |s| && forall i :: 0 <= i < |ts| ==> ts[i] == Tip(s[lo + i])
  }

  lemma {:induction false} TipsStart(s: seq<MerkleHash>, lo: nat, ts: seq<Tree>)
    requires TipsFrom(s, lo, ts) && ts != []
    ensures lo + |ts| <= |s| && ts[0] == Tip(s[lo])
  {
    assert ts[0] == Tip(s[lo + 0]);
  }

  lemma {:induction false} TipsParts(s: seq<MerkleHash>, lo: nat, ts: seq<Tree>, m: nat)
    requires TipsFrom(s, lo, ts) && m <= |ts|
    ensures TipsFrom(s, lo, ts[..m]) && TipsFrom(s, lo + m, ts[m..])
  {
    forall i | 0 <= i < |ts| - m ensures ts[m..][i] == Tip(s[lo + m + i]) {
      assert ts[m + i] == Tip(s[lo + (m + i)]);
    }
  }

  lemma {:induction false} SpanRow(s: seq<MerkleHash>, lo: nat, hi: nat, ts: seq<Tree>)
    requires lo < hi && |ts| == hi - lo && TipsFrom(s, lo, ts)
    ensures hi <= |s| && Span(s, lo, hi) == Assemble(ts)
    decreases hi - lo
  {
    hide PowBelow, TipsFrom;
    TipsStart(s, lo, ts);
    if hi == lo + 1 {
    } else {
      var m := PowBelow(hi - lo);
      TipsParts(s, lo, ts, m);
      SpanRow(s, lo, lo + m, ts[..m]);
      SpanRow(s, lo + m, hi, ts[m..]);
    }
  }

  lemma {:induction false} SpanWhole(s: seq<MerkleHash>)
    requires s != []
    ensures Span(s, 0, |s|) == Assemble(Tips(s)) && RootOf(Span(s, 0, |s|)) == Root(s, 0, |s|)
  {
    hide Span, Assemble, Root, Tips;
    SpanRow(s, 0, |s|, Tips(s));
    LeavesRoot(s);
  }

  lemma {:induction false} SpanLeaf(s: seq<MerkleHash>, lo: nat, hi: nat, i: nat)
    requires lo <= i < hi <= |s|
    ensures Has(Span(s, lo, hi), LeafPlace(i - lo, hi - lo))
      && Sub(Span(s, lo, hi), LeafPlace(i - lo, hi - lo)) == Tip(s[i])
    decreases hi - lo
  {
    hide PowBelow;
    if hi == lo + 1 {
    } else {
      var t, m := Span(s, lo, hi), lo + PowBelow(hi - lo);
      assert Has(t, Apex) && Has(t, Below(Apex, false)) && Has(t, Below(Apex, true));
      if i < m {
        SpanLeaf(s, lo, m, i);
        SubJoin(t, Below(Apex, false), LeafPlace(i - lo, m - lo));
      } else {
        SpanLeaf(s, m, hi, i);
        SubJoin(t, Below(Apex, true), LeafPlace(i - m, hi - m));
      }
    }
  }

  // ---------------------------------------------------------------- a matching root

  /** A matching root forces everything that is shown. */
  lemma {:induction false} RootForces(c: Clip, s: seq<MerkleHash>, lo: nat, hi: nat)
    requires lo < hi <= |s| && Meets(c, lo, hi) && c.leaves != []
    ensures RootOf(Cut(c, lo, hi)) == RootOf(Span(s, lo, hi)) <==> Trimmed(Cut(c, lo, hi), Span(s, lo, hi))
    decreases hi - lo
  {
    hide PowBelow, Height, Nth;
    if hi == lo + 1 {
    } else {
      var m := lo + PowBelow(hi - lo);
      if Meets(c, lo, m) { RootForces(c, s, lo, m); }
      if Meets(c, m, hi) { RootForces(c, s, m, hi); }
    }
  }

  lemma {:induction false} TrimmedLeaf(c: Clip, s: seq<MerkleHash>, lo: nat, hi: nat, i: nat)
    requires lo < hi <= |s| && Meets(c, lo, hi) && c.leaves != [] && Trimmed(Cut(c, lo, hi), Span(s, lo, hi))
    requires lo <= i < hi && c.start <= i < End(c)
    ensures c.leaves[i - c.start] == s[i]
    decreases hi - lo
  {
    hide PowBelow, Height, Nth;
    if hi == lo + 1 {
    } else {
      var m := lo + PowBelow(hi - lo);
      if i < m { TrimmedLeaf(c, s, lo, m, i); } else { TrimmedLeaf(c, s, m, hi, i); }
    }
  }

  /**
    The clipped tree has the root of the tree over `s` exactly when it is a part of it; then the leaves are those
    of `s`.
   */
  lemma {:induction false} ClipSound(c: Clip, s: seq<MerkleHash>)
    requires InRange(c) && c.size == |s|
    ensures RootOf(Cut(c, 0, c.size)) == Root(s, 0, |s|) <==> Trimmed(Cut(c, 0, c.size), Assemble(Tips(s)))
    ensures Trimmed(Cut(c, 0, c.size), Assemble(Tips(s))) ==> c.leaves == s[c.start..End(c)]
  {
    hide Cut, Trimmed, Span, Root, Assemble, RootOf;
    SpanWhole(s);
    RootForces(c, s, 0, |s|);
    if Trimmed(Cut(c, 0, c.size), Assemble(Tips(s))) {
      forall i: nat | i < |c.leaves| ensures c.leaves[i] == s[c.start + i] { TrimmedLeaf(c, s, 0, |s|, c.start + i); }
    }
  }

  // ---------------------------------------------------------------- true leaves and paths

  /** The leaves are those of `s` and the paths are the paths of the first and the last of them. */
  ghost predicate CutFrom(c: Clip, s: seq<MerkleHash>) {
    && InRange(c) && c.size == |s| && c.leaves == s[c.start..End(c)]
    && FromPath(c.left, s, c.start) && FromPath(c.right, s, End(c) - 1)
  }

  /** The path of leaf `i`. */
  ghost function LeafPath(s: seq<MerkleHash>, i: nat): MerklePath
    requires i < |s|
  {
    LeafAt(Tips(s), i);
    PathAt(Assemble(Tips(s)), LeafPlace(i, |s|))
  }

  /** Past its first hash, `hashes` is the proof of leaf `i`. */
  ghost predicate FromPath(hashes: seq<MerkleHash>, s: seq<MerkleHash>, i: int)
    requires 0 <= i < |s|
  {
    |hashes| > 0 && hashes[1..] == LeafPath(s, i).hashes[1..]
  }

  /** The proof of a node in one half of a tree ends with the hash of the other half. */
  lemma {:induction false} ProofSide(t: Tree, right: bool, a: Place)
    requires t.Fork? && Has(if right then t.right else t.left, a)
    ensures Has(t, Join(Below(Apex, right), a))
    ensures var (c, d) := if right then (t.right, t.left) else (t.left, t.right);
      Proof(t, Join(Below(Apex, right), a)) == Proof(c, a) + [RootOf(d)]
    decreases a
  {
    var top, u := Below(Apex, right), if right then t.right else t.left;
    assert Has(t, Apex) && Sub(t, Apex) == t && Has(t, top) && Sub(t, top) == u;
    SubJoin(t, top, a);
    if a == Apex {
      assert Sibling(top) == Below(Apex, !right) && Proof(t, Apex) == [];
      assert Has(t, Below(Apex, !right)) && Sub(t, Below(Apex, !right)) == if right then t.left else t.right;
    } else {
      ProofSide(t, right, a.up);
      SubJoin(t, top, Sibling(a));
      assert Sibling(Join(top, a)) == Join(top, Sibling(a));
    }
  }

  /** As far up as the node over `lo .. hi - 1`, `hashes` is the path of leaf `i`. */
  ghost predicate PathWithin(hashes: seq<MerkleHash>, s: seq<MerkleHash>, i: int, lo: nat, hi: nat)
    requires lo < hi <= |s|
  {
    if !Covers(lo, hi, i) then true else
      SpanLeaf(s, lo, hi, i);
      var h := Height(i, lo, hi);
      h < |hashes| && hashes[1..h + 1] == Proof(Span(s, lo, hi), LeafPlace(i - lo, hi - lo))
  }

  /** Then the last hash of it is that of the other half. */
  lemma {:induction false} PathStep(hashes: seq<MerkleHash>, s: seq<MerkleHash>, i: nat, lo: nat, m: nat, hi: nat)
    requires lo < m < hi <= |s| && m == lo + PowBelow(hi - lo) && PathWithin(hashes, s, i, lo, hi)
    ensures PathWithin(hashes, s, i, lo, m) && PathWithin(hashes, s, i, m, hi)
    ensures Covers(m, hi, i) ==> Nth(hashes, Height(i, lo, hi)) == RootOf(Span(s, lo, m))
    ensures Covers(lo, m, i) ==> Nth(hashes, Height(i, lo, hi)) == RootOf(Span(s, m, hi))
  {
    hide PowBelow, Proof, Has, Height, Span, LeafPlace;
    if Covers(lo, hi, i) {
      HeightStep(i, lo, hi);
      var q, x := ProofHalves(s, i, lo, m, hi);
      LastOfSlice(hashes, Height(i, lo, hi), q, x);
    }
  }

  lemma {:induction false} LastOfSlice(hashes: seq<MerkleHash>, h: nat, q: seq<MerkleHash>, x: MerkleHash)
    requires 0 < h < |hashes| && hashes[1..h + 1] == q + [x]
    ensures hashes[1..h] == q && hashes[h] == x
  {
    var p := hashes[1..h + 1];
    assert p[..h - 1] == hashes[1..h] && p[h - 1] == hashes[h] && |q| == h - 1;
  }

  lemma {:induction false} ProofHalves(s: seq<MerkleHash>, i: nat, lo: nat, m: nat, hi: nat)
    returns (q: seq<MerkleHash>, x: MerkleHash)
    requires lo < m < hi <= |s| && m == lo + PowBelow(hi - lo) && lo <= i < hi
    ensures Has(Span(s, lo, hi), LeafPlace(i - lo, hi - lo))
      && Proof(Span(s, lo, hi), LeafPlace(i - lo, hi - lo)) == q + [x]
    ensures i < m ==>
      Has(Span(s, lo, m), LeafPlace(i - lo, m - lo)) && q == Proof(Span(s, lo, m), LeafPlace(i - lo, m - lo))
        && x == RootOf(Span(s, m, hi))
    ensures i >= m ==>
      Has(Span(s, m, hi), LeafPlace(i - m, hi - m)) && q == Proof(Span(s, m, hi), LeafPlace(i - m, hi - m))
        && x == RootOf(Span(s, lo, m))
  {
    hide PowBelow, Proof;
    var t := Span(s, lo, hi);
    if i < m {
      SpanLeaf(s, lo, m, i);
      ProofSide(t, false, LeafPlace(i - lo, m - lo));
      q, x := Proof(t.left, LeafPlace(i - lo, m - lo)), RootOf(t.right);
    } else {
      SpanLeaf(s, m, hi, i);
      ProofSide(t, true, LeafPlace(i - m, hi - m));
      q, x := Proof(t.right, LeafPlace(i - m, hi - m)), RootOf(t.left);
    }
  }

  /** A clip cut from `s` is a part of the tree over `s`. */
  lemma {:induction false} CutWithin(c: Clip, s: seq<MerkleHash>, lo: nat, hi: nat)
    requires InRange(c) && c.size == |s| && c.leaves == s[c.start..End(c)] && lo < hi <= |s| && Meets(c, lo, hi)
    requires PathWithin(c.left, s, c.start, lo, hi) && PathWithin(c.right, s, End(c) - 1, lo, hi)
    ensures Trimmed(Cut(c, lo, hi), Span(s, lo, hi)) && Fed(c, lo, hi)
    decreases hi - lo
  {
    hide PowBelow, Height, Nth, PathWithin;
    if hi == lo + 1 {
    } else {
      var m := lo + PowBelow(hi - lo);
      PathStep(c.left, s, c.start, lo, m, hi);
      PathStep(c.right, s, End(c) - 1, lo, m, hi);
      PathReach(c.left, s, c.start, lo, hi);
      PathReach(c.right, s, End(c) - 1, lo, hi);
      if Meets(c, lo, m) { CutWithin(c, s, lo, m); }
      if Meets(c, m, hi) { CutWithin(c, s, m, hi); }
    }
  }

  lemma {:induction false} PathReach(hashes: seq<MerkleHash>, s: seq<MerkleHash>, i: int, lo: nat, hi: nat)
    requires lo < hi <= |s| && PathWithin(hashes, s, i, lo, hi)
    ensures Covers(lo, hi, i) ==> Height(i, lo, hi) < |hashes|
  {
  }

  lemma {:induction false} PathWhole(hashes: seq<MerkleHash>, s: seq<MerkleHash>, i: nat)
    requires i < |s| && FromPath(hashes, s, i)
    ensures PathWithin(hashes, s, i, 0, |s|)
  {
    hide Span, Assemble, LeafPlace, Proof;
    SpanWhole(s);
    LeafAt(Tips(s), i);
    assert hashes[1..|hashes|] == hashes[1..];
  }

  /** Completeness: from true leaves and paths the clipped tree has all it needs and is a part of the tree over `s`. */
  lemma {:induction false} CutPartOf(c: Clip, s: seq<MerkleHash>)
    requires CutFrom(c, s)
    ensures Fed(c, 0, c.size) && Trimmed(Cut(c, 0, c.size), Assemble(Tips(s)))
  {
    hide PathWithin, Span, Assemble, Cut, Trimmed, Fed, FromPath;
    PathWhole(c.left, s, c.start);
    PathWhole(c.right, s, End(c) - 1);
    CutWithin(c, s, 0, |s|);
    SpanWhole(s);
  }

  /** The clipped tree has every kept leaf at its place. */
  lemma {:induction false} KeptLeaf(c: Clip, lo: nat, hi: nat, i: nat)
    requires lo < hi && c.leaves != [] && lo <= i < hi && c.start <= i < End(c)
    ensures Has(Cut(c, lo, hi), LeafPlace(i - lo, hi - lo))
      && Sub(Cut(c, lo, hi), LeafPlace(i - lo, hi - lo)) == Tip(c.leaves[i - c.start])
    decreases hi - lo
  {
    hide PowBelow, Height, Nth;
    if hi == lo + 1 {
    } else {
      var t, m := Cut(c, lo, hi), lo + PowBelow(hi - lo);
      assert Has(t, Apex) && Has(t, Below(Apex, false)) && Has(t, Below(Apex, true));
      if i < m {
        KeptLeaf(c, lo, m, i);
        SubJoin(t, Below(Apex, false), LeafPlace(i - lo, m - lo));
      } else {
        KeptLeaf(c, m, hi, i);
        SubJoin(t, Below(Apex, true), LeafPlace(i - m, hi - m));
      }
    }
  }
}
