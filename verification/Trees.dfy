/**
  Hash trees of any shape as values. A tip may be the root of another tree, and when that tree is hooked
  there, the tip becomes its nodes. A node is named by the way down to it from the root.
 */
module Trees {
  import opened Bits
  import opened MerkleSpec

  datatype Tree = Tip(hash: MerkleHash) | Fork(left: Tree, right: Tree)

  /** The root, or the left or right child of the node at `up`. */
  datatype Place = Apex | Below(up: Place, right: bool)

  function RootOf(t: Tree): MerkleHash {
    match t
    case Tip(h) => h
    case Fork(l, r) => Node(RootOf(l), RootOf(r))
  }

  function Depth(a: Place): nat {
    if a == Apex then 0 else Depth(a.up) + 1
  }

  predicate Has(t: Tree, a: Place)
    decreases a, 0
  {
    a == Apex || (Has(t, a.up) && Sub(t, a.up).Fork?)
  }

  /** The subtree at a place. */
  function Sub(t: Tree, a: Place): Tree
    requires Has(t, a)
    decreases a, 1
  {
    if a == Apex then t else if a.right then Sub(t, a.up).right else Sub(t, a.up).left
  }

  function HashIn(t: Tree, a: Place): MerkleHash
    requires Has(t, a)
  {
    RootOf(Sub(t, a))
  }

  predicate TipIn(t: Tree, a: Place) {
    Has(t, a) && Sub(t, a).Tip?
  }

  /** The tree with another subtree at a place. */
  function Put(t: Tree, a: Place, x: Tree): Tree
    requires Has(t, a)
    decreases a
  {
    if a == Apex then x else
      Put(t, a.up, if a.right then Fork(Sub(t, a.up).left, x) else Fork(x, Sub(t, a.up).right))
  }

  // ---------------------------------------------------------------- places below places

  /** `y` is `b` or is below it. */
  ghost predicate Under(y: Place, b: Place) {
    y == b || (y.Below? && Under(y.up, b))
  }

  /** Place `y` of a tree that hangs at `a`. */
  ghost function Join(a: Place, y: Place): Place {
    if y == Apex then a else Below(Join(a, y.up), y.right)
  }

  /** Where below `a` place `y` is. */
  ghost function Rest(y: Place, a: Place): (z: Place)
    requires Under(y, a)
    ensures Join(a, z) == y
  {
    if y == a then Apex else Below(Rest(y.up, a), y.right)
  }

  lemma {:induction false} JoinUnder(a: Place, y: Place)
    ensures Under(Join(a, y), a)
  {
    if y == Apex {
    } else {
      JoinUnder(a, y.up);
    }
  }

  lemma {:induction false} JoinDepth(a: Place, y: Place)
    ensures Depth(Join(a, y)) == Depth(a) + Depth(y)
  {
    if y == Apex {
    } else {
      JoinDepth(a, y.up);
    }
  }

  lemma {:induction false} JoinInjective(a: Place, y: Place, z: Place)
    requires Join(a, y) == Join(a, z)
    ensures y == z
  {
    JoinDepth(a, y);
    JoinDepth(a, z);
    if y == Apex || z == Apex {
    } else {
      JoinInjective(a, y.up, z.up);
    }
  }

  lemma {:induction false} JoinAssoc(a: Place, y: Place, z: Place)
    ensures Join(Join(a, y), z) == Join(a, Join(y, z))
  {
    if z == Apex {
    } else {
      JoinAssoc(a, y, z.up);
    }
  }

  lemma {:induction false} UnderDepth(y: Place, b: Place)
    requires Under(y, b)
    ensures Depth(y) >= Depth(b)
  {
    if y == b {
    } else {
      UnderDepth(y.up, b);
    }
  }

  /** What is below a node is below exactly one of its children. */
  lemma {:induction false} UnderChild(y: Place, b: Place)
    ensures Under(y, b) <==> y == b || Under(y, Below(b, false)) || Under(y, Below(b, true))
    ensures !(Under(y, Below(b, false)) && Under(y, Below(b, true)))
    ensures Under(y, Below(b, false)) || Under(y, Below(b, true)) ==> y != b
  {
    if Under(b, Below(b, false)) { UnderDepth(b, Below(b, false)); }
    if Under(b, Below(b, true)) { UnderDepth(b, Below(b, true)); }
    if y.Below? { UnderChild(y.up, b); }
    assert Under(Below(b, false), Below(b, false)) && Under(b, b);
  }

  lemma {:induction false} UnderApex(y: Place)
    ensures Under(y, Apex)
  {
    if y == Apex {
    } else {
      UnderApex(y.up);
    }
  }

  lemma {:induction false} UnderTrans(x: Place, y: Place, z: Place)
    requires Under(x, y) && Under(y, z)
    ensures Under(x, z)
  {
    if x == y {
    } else {
      UnderTrans(x.up, y, z);
    }
  }

  // ---------------------------------------------------------------- subtrees

  lemma {:induction false} SubJoin(t: Tree, a: Place, z: Place)
    requires Has(t, a)
    ensures Has(t, Join(a, z)) <==> Has(Sub(t, a), z)
    ensures Has(Sub(t, a), z) ==> Sub(t, Join(a, z)) == Sub(Sub(t, a), z)
  {
    if z == Apex {
    } else {
      SubJoin(t, a, z.up);
    }
  }

  lemma {:induction false} PutHere(t: Tree, a: Place, x: Tree)
    requires Has(t, a)
    ensures Has(Put(t, a, x), a) && Sub(Put(t, a, x), a) == x
  {
    if a != Apex { PutHere(t, a.up, if a.right then Fork(Sub(t, a.up).left, x) else Fork(x, Sub(t, a.up).right)); }
  }

  /** At and below the place there is the new subtree. */
  lemma {:induction false} PutBelow(t: Tree, a: Place, x: Tree, z: Place)
    requires Has(t, a)
    ensures Has(Put(t, a, x), Join(a, z)) <==> Has(x, z)
    ensures Has(x, z) ==> Sub(Put(t, a, x), Join(a, z)) == Sub(x, z)
  {
    PutHere(t, a, x);
    SubJoin(Put(t, a, x), a, z);
  }

  /** Elsewhere nothing is added or taken away, and only what is above the place is different. */
  lemma {:induction false} PutElsewhere(t: Tree, a: Place, x: Tree, b: Place)
    requires Has(t, a) && !Under(b, a)
    ensures Has(Put(t, a, x), b) <==> Has(t, b)
    ensures Has(t, b) ==> (Sub(Put(t, a, x), b).Fork? <==> Sub(t, b).Fork?)
    ensures Has(t, b) && !Under(a, b) ==> Sub(Put(t, a, x), b) == Sub(t, b)
    decreases a
  {
    if a == Apex {
      UnderApex(b);
    } else {
      var u := a.up;
      var y := if a.right then Fork(Sub(t, u).left, x) else Fork(x, Sub(t, u).right);
      if Under(b, u) {
        PutBeside(t, a, x, b);
      } else {
        PutElsewhere(t, u, y, b);
      }
    }
  }

  lemma {:induction false} PutBeside(t: Tree, a: Place, x: Tree, b: Place)
    requires Has(t, a) && a != Apex && !Under(b, a) && Under(b, a.up)
    ensures Has(Put(t, a, x), b) <==> Has(t, b)
    ensures Has(t, b) ==> (Sub(Put(t, a, x), b).Fork? <==> Sub(t, b).Fork?)
    ensures Has(t, b) && !Under(a, b) ==> Sub(Put(t, a, x), b) == Sub(t, b)
  {
    var u, o := a.up, Below(a.up, !a.right);
    var y := if a.right then Fork(Sub(t, u).left, x) else Fork(x, Sub(t, u).right);
    PutHere(t, u, y);
    assert Under(a, u) by { assert Under(u, u); }
    if b != u {
      UnderChild(b, u);
      assert Under(b, o);
      var z := Rest(b, o);
      SubJoin(t, o, z);
      SubJoin(Put(t, a, x), o, z);
    }
  }

  /** No place of a tree is below a tip. */
  lemma {:induction false} TipAlone(t: Tree, a: Place, b: Place)
    requires TipIn(t, a) && Has(t, b) && Under(b, a)
    ensures b == a
  {
    if b == a {
    } else {
      TipAlone(t, a, b.up);
    }
  }

  /** Another hash at a tip: the same places, and the other tips as before. */
  lemma {:induction false} PutTip(t: Tree, a: Place, x: MerkleHash, b: Place)
    requires TipIn(t, a)
    ensures Has(Put(t, a, Tip(x)), b) <==> Has(t, b)
    ensures TipIn(Put(t, a, Tip(x)), b) <==> TipIn(t, b)
    ensures TipIn(t, b) ==> Sub(Put(t, a, Tip(x)), b) == if b == a then Tip(x) else Sub(t, b)
  {
    PutHere(t, a, Tip(x));
    if Under(b, a) {
      if Has(t, b) { TipAlone(t, a, b); }
      if Has(Put(t, a, Tip(x)), b) { TipAlone(Put(t, a, Tip(x)), a, b); }
    } else {
      PutElsewhere(t, a, Tip(x), b);
      if TipIn(t, b) && Under(a, b) { TipAlone(t, b, a); }
    }
  }

  // ---------------------------------------------------------------- a layer of leaves

  /** The tree over a row of trees, split at powers of two. */
  function Assemble(ts: seq<Tree>): (t: Tree)
    requires ts != []
    decreases |ts|
  {
    if |ts| == 1 then ts[0] else Fork(Assemble(ts[..PowBelow(|ts|)]), Assemble(ts[PowBelow(|ts|)..]))
  }

  function Tips(s: seq<MerkleHash>): (ts: seq<Tree>)
    ensures |ts| == |s| && forall i :: 0 <= i < |s| ==> ts[i] == Tip(s[i])
  {
    seq(|s|, i requires 0 <= i < |s| => Tip(s[i]))
  }

  /** The root of the row is the root of the list of their roots. */
  lemma {:induction false} AssembledRoot(ts: seq<Tree>, s: seq<MerkleHash>, lo: nat)
    requires ts != [] && lo + |ts| <= |s| && forall i :: 0 <= i < |ts| ==> s[lo + i] == RootOf(ts[i])
    ensures RootOf(Assemble(ts)) == Root(s, lo, lo + |ts|)
    decreases |ts|
  {
    hide PowBelow, RootOf;
    if |ts| == 1 {
    } else {
      var m := PowBelow(|ts|);
      forall i | 0 <= i < |ts| - m ensures s[lo + m + i] == RootOf(ts[m..][i]) {
        assert s[lo + (m + i)] == RootOf(ts[m + i]);
      }
      AssembledRoot(ts[..m], s, lo);
      AssembledRoot(ts[m..], s, lo + m);
      ForkRoot(Assemble(ts[..m]), Assemble(ts[m..]));
    }
  }

  lemma {:induction false} ForkRoot(l: Tree, r: Tree)
    ensures RootOf(Fork(l, r)) == Node(RootOf(l), RootOf(r))
  {
  }

  lemma {:induction false} LeavesRoot(s: seq<MerkleHash>)
    requires s != []
    ensures RootOf(Assemble(Tips(s))) == Root(s, 0, |s|)
  {
    hide Assemble, Root, Tips, PowBelow;
    var ts := Tips(s);
    assert forall i :: 0 <= i < |ts| ==> s[0 + i] == RootOf(ts[i]);
    AssembledRoot(ts, s, 0);
  }

  /** The rightmost place at a depth. */
  ghost function Spine(d: nat): (a: Place)
    ensures Depth(a) == d
  {
    if d == 0 then Apex else Below(Spine(d - 1), true)
  }

  lemma {:induction false} SpineJoin(d: nat)
    ensures Join(Below(Apex, true), Spine(d)) == Spine(d + 1)
  {
    if d == 0 {
    } else {
      SpineJoin(d - 1);
    }
  }

  lemma {:induction false} SpineRight(t: Tree, d: nat)
    requires t.Fork?
    ensures Has(t, Spine(d + 1)) <==> Has(t.right, Spine(d))
    ensures Has(t.right, Spine(d)) ==> Sub(t, Spine(d + 1)) == Sub(t.right, Spine(d))
  {
    SpineJoin(d);
    assert Has(t, Apex) && Has(t, Below(Apex, true)) && Sub(t, Below(Apex, true)) == t.right;
    SubJoin(t, Below(Apex, true), Spine(d));
  }

  /** How deep the last perfect subtree of a row of `n` is. */
  function PeakDepth(n: nat): nat
    requires n > 0
    decreases n
  {
    if n == 1 || LowBit(n) == n then 0 else 1 + PeakDepth(n - PowBelow(n))
  }

  /** A row that is not a power of two long goes on behind its first half as its end does. */
  lemma {:induction false} RowSplit(n: nat)
    requires n > 1
    ensures var m := PowBelow(n); PopCount(n - 1) == 1 + PopCount(n - m - 1)
    ensures LowBit(n) != n ==> var m := PowBelow(n);
      0 < n - m < m && LowBit(n) == LowBit(n - m) && PeakDepth(n) == 1 + PeakDepth(n - m)
    ensures LowBit(n) != n ==> PowBelow(n + 1) == PowBelow(n)
    ensures LowBit(n) == n ==> PowBelow(n + 1) == n
  {
    hide LowBit, PowBelow, PopCount;
    var m := PowBelow(n);
    PopCountTop(n - 1, m);
    if LowBit(n) != n {
      if n == 2 * m { LowBitIdempotent(m); }
      LowBitOffset(m, n - m);
      PowBelowUnique(n + 1, m);
    } else {
      PowBelowUnique(n + 1, n);
    }
  }

  /** From the last leaf, as many steps up as the size has zero bits at its end lead to the last peak. */
  lemma {:induction false} PeakClimb(n: nat)
    requires n > 0
    ensures PopCount(n - 1) == PeakDepth(n) + PopCount(LowBit(n) - 1)
    ensures PopCount(n) == PeakDepth(n) + 1
    decreases n
  {
    hide LowBit, PowBelow, PopCount;
    RowOfOne();
    if n > 1 { RowSplit(n); }
    PopCountTop(n, if n == 1 || LowBit(n) == n then n else PowBelow(n));
    if n > 1 && LowBit(n) != n { PeakClimb(n - PowBelow(n)); }
  }

  lemma {:induction false} RowOfOne()
    ensures PopCount(0) == 0 && LowBit(1) == 1 && PeakDepth(1) == 0 && PowBelow(2) == 1
  {
    PowBelowUnique(2, 1);
  }

  /** The last tree of the row is at the right end. */
  lemma {:induction false} LastOfRow(ts: seq<Tree>)
    requires ts != []
    ensures var d := PopCount(|ts| - 1); Has(Assemble(ts), Spine(d)) && Sub(Assemble(ts), Spine(d)) == ts[|ts| - 1]
    ensures Has(Assemble(ts), Spine(PeakDepth(|ts|)))
    decreases |ts|
  {
    hide LowBit, PowBelow, PopCount;
    var n := |ts|;
    if n == 1 {
      RowOfOne();
    } else {
      var m := PowBelow(n);
      RowSplit(n);
      LastOfRow(ts[m..]);
      SpineRight(Assemble(ts), PopCount(n - m - 1));
      if LowBit(n) != n { SpineRight(Assemble(ts), PeakDepth(n - m)); }
    }
  }

  /** A tip joined to the last peak is the next one of the row. */
  lemma {:induction false} InsertNext(ts: seq<Tree>, x: MerkleHash)
    requires ts != []
    ensures Has(Assemble(ts), Spine(PeakDepth(|ts|)))
    ensures JoinTip(Assemble(ts), Spine(PeakDepth(|ts|)), x) == Assemble(ts + [Tip(x)])
    decreases |ts|
  {
    hide LowBit, PowBelow, PopCount;
    LastOfRow(ts);
    var n, us := |ts|, ts + [Tip(x)];
    RowOfOne();
    if n > 1 { RowSplit(n); }
    if n == 1 || LowBit(n) == n {
      assert us[..n] == ts && us[n..] == [Tip(x)];
    } else {
      var m := PowBelow(n);
      assert us[..m] == ts[..m] && us[m..] == ts[m..] + [Tip(x)];
      InsertNext(ts[m..], x);
      InsertRight(Assemble(ts), PeakDepth(n - m), x);
    }
  }

  lemma {:induction false} InsertRight(t: Tree, d: nat, x: MerkleHash)
    requires t.Fork? && Has(t.right, Spine(d))
    ensures Has(t, Spine(d + 1)) && JoinTip(t, Spine(d + 1), x) == Fork(t.left, JoinTip(t.right, Spine(d), x))
  {
    SpineJoin(d);
    SpineRight(t, d);
    PutSide(t, true, Spine(d), Fork(Sub(t.right, Spine(d)), Tip(x)));
  }

  // ---------------------------------------------------------------- the leaves of a row

  ghost function LeafPlace(i: nat, n: nat): Place
    requires i < n
    decreases n
  {
    if n == 1 then Apex else
      var m := PowBelow(n);
      if i < m then Join(Below(Apex, false), LeafPlace(i, m)) else Join(Below(Apex, true), LeafPlace(i - m, n - m))
  }

  lemma {:induction false} LeafAt(ts: seq<Tree>, i: nat)
    requires i < |ts|
    ensures Has(Assemble(ts), LeafPlace(i, |ts|)) && Sub(Assemble(ts), LeafPlace(i, |ts|)) == ts[i]
    decreases |ts|
  {
    hide PowBelow;
    if |ts| == 1 {
    } else {
      var t, m, right := Assemble(ts), PowBelow(|ts|), i >= PowBelow(|ts|);
      assert Has(t, Apex) && Has(t, Below(Apex, right));
      if right {
        LeafAt(ts[m..], i - m);
        SubJoin(t, Below(Apex, true), LeafPlace(i - m, |ts| - m));
      } else {
        LeafAt(ts[..m], i);
        SubJoin(t, Below(Apex, false), LeafPlace(i, m));
      }
    }
  }

  /** Every tip of a row of trees is in one of them. */
  lemma {:induction false} TipInRow(ts: seq<Tree>, a: Place) returns (i: nat)
    requires ts != [] && TipIn(Assemble(ts), a)
    ensures i < |ts| && Under(a, LeafPlace(i, |ts|))
    decreases |ts|
  {
    hide PowBelow;
    UnderApex(a);
    if |ts| == 1 {
      i := 0;
    } else {
      var t, m := Assemble(ts), PowBelow(|ts|);
      UnderChild(a, Apex);
      var right := Under(a, Below(Apex, true));
      var top := Below(Apex, right);
      assert Under(a, top) && Has(t, Apex) && Has(t, top);
      var z := Rest(a, top);
      SubJoin(t, top, z);
      if right {
        var j := TipInRow(ts[m..], z);
        i := j + m;
        JoinUnderJoin(top, z, LeafPlace(j, |ts| - m));
      } else {
        i := TipInRow(ts[..m], z);
        JoinUnderJoin(top, z, LeafPlace(i, m));
      }
    }
  }

  lemma {:induction false} JoinUnderJoin(a: Place, y: Place, b: Place)
    requires Under(y, b)
    ensures Under(Join(a, y), Join(a, b))
  {
    if y == b {
    } else {
      JoinUnderJoin(a, y.up, b);
    }
  }

  lemma {:induction false} PutSide(t: Tree, right: bool, a: Place, x: Tree)
    requires t.Fork? && Has(if right then t.right else t.left, a)
    ensures Has(t, Join(Below(Apex, right), a))
    ensures Put(t, Join(Below(Apex, right), a), x) == if right then Fork(t.left, Put(t.right, a, x))
      else Fork(Put(t.left, a, x), t.right)
    decreases a
  {
    var c, u := Below(Apex, right), if right then t.right else t.left;
    assert Has(t, Apex) && Sub(t, Apex) == t;
    assert Has(t, c) && Sub(t, c) == u;
    SubJoin(t, c, a);
    if a != Apex {
      SubJoin(t, c, a.up);
      PutSide(t, right, a.up, if a.right then Fork(Sub(u, a.up).left, x) else Fork(x, Sub(u, a.up).right));
    }
  }

  /** A subtree put into one of the trees of a row. */
  lemma {:induction false} PutInRow(ts: seq<Tree>, i: nat, b: Place, x: Tree)
    requires i < |ts| && Has(ts[i], b)
    ensures Has(Assemble(ts), Join(LeafPlace(i, |ts|), b))
    ensures Put(Assemble(ts), Join(LeafPlace(i, |ts|), b), x) == Assemble(ts[i := Put(ts[i], b, x)])
    decreases |ts|
  {
    hide PowBelow, Put, Has, Join;
    var us, n := ts[i := Put(ts[i], b, x)], |ts|;
    if n == 1 {
      JoinApex(b);
    } else {
      var m := PowBelow(n);
      if i < m {
        assert us[..m] == ts[..m][i := Put(ts[i], b, x)] && us[m..] == ts[m..];
        PutInRow(ts[..m], i, b, x);
        JoinAssoc(Below(Apex, false), LeafPlace(i, m), b);
        PutSide(Assemble(ts), false, Join(LeafPlace(i, m), b), x);
      } else {
        assert us[..m] == ts[..m] && us[m..] == ts[m..][i - m := Put(ts[i], b, x)];
        PutInRow(ts[m..], i - m, b, x);
        JoinAssoc(Below(Apex, true), LeafPlace(i - m, n - m), b);
        PutSide(Assemble(ts), true, Join(LeafPlace(i - m, n - m), b), x);
      }
    }
  }

  lemma {:induction false} JoinApex(b: Place)
    ensures Join(Apex, b) == b
  {
    if b == Apex {
    } else {
      JoinApex(b.up);
    }
  }

  // ---------------------------------------------------------------- a tip joined to a subtree

  /** Where a place is after a tip has been joined to the subtree at `p`. */
  ghost function Shift(a: Place, p: Place): Place {
    if a == p then Below(p, false) else if a == Apex then Apex else Below(Shift(a.up, p), a.right)
  }

  lemma {:induction false} ShiftElsewhere(a: Place, p: Place)
    requires !Under(a, p)
    ensures Shift(a, p) == a
  {
    if a == Apex {
    } else {
      ShiftElsewhere(a.up, p);
    }
  }

  lemma {:induction false} ShiftUnder(p: Place, z: Place)
    ensures Shift(Join(p, z), p) == Join(Below(p, false), z)
  {
    if z == Apex {
    } else {
      JoinDepth(p, z);
      assert Join(p, z) != p;
      ShiftUnder(p, z.up);
    }
  }

  /** Shifted places are all but that of the joint and that of the new tip and below it. */
  lemma {:induction false} ShiftRange(a: Place, p: Place)
    ensures Shift(a, p) != p && !Under(Shift(a, p), Below(p, true))
    ensures Under(a, p) <==> Under(Shift(a, p), Below(p, false))
  {
    if Under(a, p) {
      ShiftUnder(p, Rest(a, p));
      JoinUnder(Below(p, false), Rest(a, p));
      UnderChild(Shift(a, p), p);
    } else {
      ShiftElsewhere(a, p);
      UnderChild(a, p);
      assert Under(p, p);
    }
  }

  lemma {:induction false} ShiftInjective(a: Place, b: Place, p: Place)
    requires Shift(a, p) == Shift(b, p)
    ensures a == b
  {
    ShiftRange(a, p);
    ShiftRange(b, p);
    if Under(a, p) {
      ShiftUnder(p, Rest(a, p));
      ShiftUnder(p, Rest(b, p));
      JoinInjective(Below(p, false), Rest(a, p), Rest(b, p));
    } else {
      ShiftElsewhere(a, p);
      ShiftElsewhere(b, p);
    }
  }

  /** A tip with hash `x` joined to the subtree at `p`. */
  ghost function JoinTip(t: Tree, p: Place, x: MerkleHash): Tree
    requires Has(t, p)
  {
    Put(t, p, Fork(Sub(t, p), Tip(x)))
  }

  lemma {:induction false} ShiftedSub(t: Tree, p: Place, x: MerkleHash, a: Place)
    requires Has(t, p)
    ensures Has(JoinTip(t, p, x), Shift(a, p)) <==> Has(t, a)
    ensures Has(t, a) ==> (Sub(JoinTip(t, p, x), Shift(a, p)).Fork? <==> Sub(t, a).Fork?)
    ensures Has(t, a) && (Under(a, p) || !Under(p, a)) ==> Sub(JoinTip(t, p, x), Shift(a, p)) == Sub(t, a)
  {
    var f := Fork(Sub(t, p), Tip(x));
    if Under(a, p) {
      var z := Rest(a, p);
      ShiftUnder(p, z);
      JoinLeft(p, z);
      PutBelow(t, p, f, Join(Below(Apex, false), z));
      assert Has(f, Apex) && Has(f, Below(Apex, false));
      SubJoin(f, Below(Apex, false), z);
      SubJoin(t, p, z);
    } else {
      ShiftElsewhere(a, p);
      PutElsewhere(t, p, f, a);
    }
  }

  lemma {:induction false} JoinLeft(p: Place, z: Place)
    ensures Join(p, Join(Below(Apex, false), z)) == Join(Below(p, false), z)
  {
    JoinAssoc(p, Below(Apex, false), z);
    assert Join(p, Apex) == p && Join(p, Below(Apex, false)) == Below(p, false);
  }

  lemma {:induction false} JoinedTip(t: Tree, p: Place, x: MerkleHash)
    requires Has(t, p)
    ensures var t' := JoinTip(t, p, x); Has(t', p) && Sub(t', p) == Fork(Sub(t, p), Tip(x))
    ensures Has(JoinTip(t, p, x), Below(p, true)) && Sub(JoinTip(t, p, x), Below(p, true)) == Tip(x)
  {
    PutHere(t, p, Fork(Sub(t, p), Tip(x)));
  }

  /** What a place was before. */
  lemma {:induction false} Unshift(t: Tree, p: Place, x: MerkleHash, b: Place) returns (a: Place)
    requires Has(t, p) && Has(JoinTip(t, p, x), b) && b != p && b != Below(p, true)
    ensures Has(t, a) && Shift(a, p) == b
  {
    UnderChild(b, p);
    JoinedTip(t, p, x);
    if Under(b, Below(p, true)) { TipAlone(JoinTip(t, p, x), Below(p, true), b); }
    if Under(b, Below(p, false)) {
      a := Join(p, Rest(b, Below(p, false)));
      ShiftUnder(p, Rest(b, Below(p, false)));
    } else {
      a := b;
      ShiftElsewhere(a, p);
    }
    ShiftedSub(t, p, x, a);
  }

  /** Where a place of a row of `n` is after it has grown to `n'`. */
  ghost function Move(a: Place, n: nat, n': nat): Place
    requires 0 < n <= n'
    decreases n' - n
  {
    if n' == n then a else Shift(Move(a, n, n' - 1), Spine(PeakDepth(n' - 1)))
  }

  lemma {:induction false} MoveInjective(a: Place, b: Place, n: nat, n': nat)
    requires 0 < n <= n' && Move(a, n, n') == Move(b, n, n')
    ensures a == b
    decreases n' - n
  {
    if n' == n {
    } else {
      ShiftInjective(Move(a, n, n' - 1), Move(b, n, n' - 1), Spine(PeakDepth(n' - 1)));
      MoveInjective(a, b, n, n' - 1);
    }
  }

  /** What is below a place that is not above the joint goes along with it. */
  lemma {:induction false} ShiftAlong(a: Place, y: Place, p: Place)
    requires Under(p, a) ==> p == a
    ensures Shift(Join(a, y), p) == Join(Shift(a, p), y)
    decreases y
  {
    if y == Apex {
    } else {
      ShiftAlong(a, y.up, p);
      JoinUnder(a, y);
      JoinDepth(a, y);
    }
  }

  lemma {:induction false} SidesFarApart(x: Place, y: Place)
    ensures var l, r := Join(Below(Apex, false), x), Join(Below(Apex, true), y); !Under(l, r) && !Under(r, l)
  {
    var l, r := Join(Below(Apex, false), x), Join(Below(Apex, true), y);
    JoinUnder(Below(Apex, false), x);
    JoinUnder(Below(Apex, true), y);
    UnderChild(l, Apex);
    UnderChild(r, Apex);
    if Under(l, r) { UnderTrans(l, r, Below(Apex, true)); }
    if Under(r, l) { UnderTrans(r, l, Below(Apex, false)); }
  }

  lemma {:induction false} ShiftJoin(c: Place, a: Place, q: Place)
    ensures Shift(Join(c, a), Join(c, q)) == Join(c, Shift(a, q))
    decreases a
  {
    if a == q {
    } else if a == Apex {
      JoinDepth(c, q);
      if Under(c, Join(c, q)) { UnderDepth(c, Join(c, q)); }
      ShiftElsewhere(c, Join(c, q));
    } else {
      if Join(c, a) == Join(c, q) { JoinInjective(c, a, q); }
      ShiftJoin(c, a.up, q);
    }
  }

  lemma {:induction false} UnderJoin(c: Place, y: Place, b: Place)
    ensures Under(Join(c, y), Join(c, b)) ==> Under(y, b)
    decreases y
  {
    if Under(Join(c, y), Join(c, b)) {
      UnderDepth(Join(c, y), Join(c, b));
      JoinDepth(c, y);
      JoinDepth(c, b);
      if Join(c, y) == Join(c, b) {
        JoinInjective(c, y, b);
      } else {
        UnderJoin(c, y.up, b);
      }
    }
  }

  /** The leaves keep their order. */
  lemma {:induction false} ShiftLeaf(i: nat, n: nat)
    requires i < n
    ensures Shift(LeafPlace(i, n), Spine(PeakDepth(n))) == LeafPlace(i, n + 1)
    ensures Under(Spine(PeakDepth(n)), LeafPlace(i, n)) ==> Spine(PeakDepth(n)) == LeafPlace(i, n)
    decreases n
  {
    hide LowBit, PowBelow, PopCount, Join, Shift;
    RowOfOne();
    if n > 1 { RowSplit(n); }
    if n == 1 || LowBit(n) == n {
      JoinApex(LeafPlace(i, n));
      ShiftUnder(Apex, LeafPlace(i, n));
    } else {
      var m := PowBelow(n);
      SpineJoin(PeakDepth(n - m));
      if i < m {
        SidesFarApart(LeafPlace(i, m), Spine(PeakDepth(n - m)));
        ShiftElsewhere(LeafPlace(i, n), Spine(PeakDepth(n)));
      } else {
        ShiftLeaf(i - m, n - m);
        ShiftJoin(Below(Apex, true), LeafPlace(i - m, n - m), Spine(PeakDepth(n - m)));
        UnderJoin(Below(Apex, true), Spine(PeakDepth(n - m)), LeafPlace(i - m, n - m));
      }
    }
  }

  lemma {:induction false} MoveLeaf(i: nat, b: Place, n: nat, n': nat)
    requires i < n <= n'
    ensures Move(Join(LeafPlace(i, n), b), n, n') == Join(LeafPlace(i, n'), b)
    decreases n' - n
  {
    hide LeafPlace, Join, Shift, Spine, PeakDepth;
    if n' == n {
    } else {
      MoveLeaf(i, b, n, n' - 1);
      ShiftLeaf(i, n' - 1);
      ShiftAlong(LeafPlace(i, n' - 1), b, Spine(PeakDepth(n' - 1)));
    }
  }
}
