/** A new leaf joined to a subtree at the right end of a tree: what `append` does before it rehashes. */
module JoinedTrees {
  import opened MerkleSpec
  import opened Trees
  import opened MerklePaths
  import opened NodeStore
  import opened PlacedTrees

  ghost predicate CameFrom(at: Places, p: Place, b: Place) {
    exists a :: a in at && b == Shift(a, p)
  }

  /** The places after a joint has taken place `p`, with what was there on its left and the new leaf on its right. */
  ghost predicate Shifted(at: Places, p: Place, joint: Id, leaf: Id, at': Places) {
    && (forall a {:trigger Shift(a, p)} :: a in at ==> Shift(a, p) in at' && at'[Shift(a, p)] == at[a])
    && p in at' && at'[p] == joint && Below(p, true) in at' && at'[Below(p, true)] == leaf
    && (forall b :: b in at' ==> b == p || b == Below(p, true) || CameFrom(at, p, b))
  }

  lemma {:induction false} ShiftAll(at: Places, p: Place, joint: Id, leaf: Id) returns (at': Places)
    ensures Shifted(at, p, joint, leaf, at')
  {
    forall a ensures Shift(a, p) != p && Shift(a, p) != Below(p, true) {
      ShiftRange(a, p);
      assert Under(Below(p, true), Below(p, true));
    }
    assert Depth(Below(p, true)) == Depth(p) + 1;
    hide Shift, Under;
    var m := ShiftMap(at, p);
    at' := m[p := joint][Below(p, true) := leaf];
  }

  lemma {:induction false} ShiftMap(at: Places, p: Place) returns (m: Places)
    ensures forall a {:trigger Shift(a, p)} :: a in at ==> Shift(a, p) in m && m[Shift(a, p)] == at[a]
    ensures forall b :: b in m ==> CameFrom(at, p, b)
  {
    hide Shift;
    forall a, b | Shift(a, p) == Shift(b, p) ensures a == b { ShiftInjective(a, b, p); }
    m := map a | a in at :: Shift(a, p) := at[a];
  }

  /** A leaf has been joined to the node at `p`, which is a right child or the root. */
  ghost predicate Joining(st: Store, at: Places, t: Tree, p: Place, joint: Id, leaf: Id, x: MerkleHash, st': Store,
                          at': Places) {
    && Partly(st, at, t) && p in at && (p != Apex ==> p.right) && Shifted(at, p, joint, leaf, at')
    && joint !in st && leaf !in st && joint != leaf && NIL !in {joint, leaf} && IsJoin(st, st', at[p], joint, leaf, x)
  }

  /** A child of a node that was there, where it is now. */
  lemma {:induction false} ShiftedChild(at: Places, p: Place, joint: Id, leaf: Id, at': Places, a: Place, s: bool)
    requires Shifted(at, p, joint, leaf, at') && Below(a, s) != p
    ensures Below(Shift(a, p), s) == Shift(Below(a, s), p)
    ensures Below(Shift(a, p), s) in at' <==> Below(a, s) in at
  {
    var b := Shift(Below(a, s), p);
    ShiftRange(Below(a, s), p);
    assert Under(Below(p, true), Below(p, true));
    if b in at' {
      var c :| c in at && b == Shift(c, p);
      ShiftInjective(Below(a, s), c, p);
    }
  }

  lemma {:induction false} JoinedSeated(st: Store, at: Places, t: Tree, p: Place, joint: Id, leaf: Id, x: MerkleHash,
                                        st': Store, at': Places)
    requires Joining(st, at, t, p, joint, leaf, x, st', at')
    ensures Seated(st', at')
  {
    hide Hung;
    if Apex == p {} else {
      assert Shift(Apex, p) == Apex;
    }
    forall b | b in at' ensures at'[b] in st' && at'[b] != NIL {
      if b != p && b != Below(p, true) { var a :| a in at && b == Shift(a, p); }
    }
    forall b, c | b in at' && c in at' && at'[b] == at'[c] ensures b == c {
      if b != p && b != Below(p, true) { var a :| a in at && b == Shift(a, p); }
      if c != p && c != Below(p, true) { var a :| a in at && c == Shift(a, p); }
    }
  }

  /** A node that was there. */
  lemma {:induction false} JoinedOld(st: Store, at: Places, t: Tree, p: Place, joint: Id, leaf: Id, x: MerkleHash,
                                     st': Store, at': Places, a: Place)
    requires Joining(st, at, t, p, joint, leaf, x, st', at') && Seated(st', at') && a in at
    ensures Shift(a, p) in at' && Hung(st', at', Shift(a, p)) && st'[at[a]].hash == st[at[a]].hash
    ensures (p == Apex || a != p.up) ==> HashOk(st', at', Shift(a, p))
    ensures IsTip(at', Shift(a, p)) ==> IsTip(at, a)
  {
    assert Hung(st, at, a) && Hung(st, at, p);
    forall b | b in at ensures st'[at[b]].hash == st[at[b]].hash {}
    JoinedUp(st, at, t, p, joint, leaf, x, st', at', a);
    PartlyFits(st, at, t);
    assert HashOk(st, at, a);
    if p != Apex && a == p.up {
      ParentOfJoint(st, at, t, p, joint, leaf, x, st', at');
    } else {
      assert Below(a, false) != p && Below(a, true) != p;
      ShiftedChild(at, p, joint, leaf, at', a, false);
      ShiftedChild(at, p, joint, leaf, at', a, true);
    }
  }

  lemma {:induction false} JoinedUp(st: Store, at: Places, t: Tree, p: Place, joint: Id, leaf: Id, x: MerkleHash,
                                    st': Store, at': Places, a: Place)
    requires Joining(st, at, t, p, joint, leaf, x, st', at') && Seated(st', at') && a in at
    ensures Shift(a, p) in at' && at'[Shift(a, p)] == at[a]
    ensures var b := Shift(a, p);
      if b == Apex then st'[at[a]].parent == NIL else b.up in at' && st'[at[a]].parent == at'[b.up]
  {
    assert Hung(st, at, a) && Hung(st, at, p);
    if a != p && a != Apex { assert Shift(a, p).up == Shift(a.up, p); }
  }

  lemma {:induction false} ParentOfJoint(st: Store, at: Places, t: Tree, p: Place, joint: Id, leaf: Id, x: MerkleHash,
                                         st': Store, at': Places)
    requires Joining(st, at, t, p, joint, leaf, x, st', at') && Seated(st', at') && p != Apex
    ensures var a := p.up;
      && a in at && Shift(a, p) == a && Below(a, false) in at' && Below(a, true) in at'
      && st'[at[a]].left == at'[Below(a, false)] && st'[at[a]].right == at'[Below(a, true)] && at'[a] == at[a]
  {
    var a := p.up;
    assert Hung(st, at, p) && Hung(st, at, a);
    if Under(a, p) { UnderDepth(a, p); }
    ShiftElsewhere(a, p);
    assert Below(a, true) == p && Below(a, false) != p;
    ShiftedChild(at, p, joint, leaf, at', a, false);
  }

  /** The joint and the new leaf. */
  lemma {:induction false} JoinedNew(st: Store, at: Places, t: Tree, p: Place, joint: Id, leaf: Id, x: MerkleHash,
                                     st': Store, at': Places)
    requires Joining(st, at, t, p, joint, leaf, x, st', at') && Seated(st', at')
    ensures Hung(st', at', p) && HashOk(st', at', p) && !IsTip(at', p)
    ensures Hung(st', at', Below(p, true)) && HashOk(st', at', Below(p, true))
  {
    assert Hung(st, at, p) && Shift(p, p) == Below(p, false);
    if p != Apex { ParentOfJoint(st, at, t, p, joint, leaf, x, st', at'); }
    forall s: bool ensures Below(Below(p, true), s) !in at' {
      var b := Below(Below(p, true), s);
      assert Depth(b) == Depth(p) + 2 && Under(Below(p, true), Below(p, true)) && Under(b, Below(p, true));
      if b in at' {
        var a :| a in at && b == Shift(a, p);
        ShiftRange(a, p);
      }
    }
  }

  /** The joint stands where the subtree stood; only its parent does not fit yet. */
  lemma {:induction false} JoinedShaped(st: Store, at: Places, t: Tree, p: Place, joint: Id, leaf: Id, x: MerkleHash,
                                        st': Store, at': Places)
    requires Joining(st, at, t, p, joint, leaf, x, st', at')
    ensures Shaped(st', at') && FitsBut(st', at', p) && TipsFit(st', at', JoinTip(t, p, x))
  {
    JoinedSeated(st, at, t, p, joint, leaf, x, st', at');
    JoinedNew(st, at, t, p, joint, leaf, x, st', at');
    JoinedTip(t, p, x);
    hide Partly, Shaped;
    forall b | b in at'
      ensures Hung(st', at', b) && ((p == Apex || b != p.up) ==> HashOk(st', at', b))
      ensures Has(JoinTip(t, p, x), b) && (IsTip(at', b) ==> st'[at'[b]].hash == HashIn(JoinTip(t, p, x), b))
    {
      if b != p && b != Below(p, true) {
        var a :| a in at && b == Shift(a, p);
        JoinedPlace(st, at, t, p, joint, leaf, x, st', at', a);
      }
    }
  }

  lemma {:induction false} JoinedPlace(st: Store, at: Places, t: Tree, p: Place, joint: Id, leaf: Id, x: MerkleHash,
                                       st': Store, at': Places, a: Place)
    requires Joining(st, at, t, p, joint, leaf, x, st', at') && Seated(st', at') && a in at
    ensures var b := Shift(a, p);
      && b in at' && Hung(st', at', b) && ((p == Apex || b != p.up) ==> HashOk(st', at', b))
      && Has(JoinTip(t, p, x), b) && (IsTip(at', b) ==> st'[at'[b]].hash == HashIn(JoinTip(t, p, x), b))
  {
    JoinedOld(st, at, t, p, joint, leaf, x, st', at', a);
    ShiftedSub(t, p, x, a);
    if p != Apex && a == p.up { ParentOfJoint(st, at, t, p, joint, leaf, x, st', at'); }
    if IsTip(at, a) && Under(p, a) { NoneBelow(st, at, a, p); }
  }

  lemma {:induction false} JoinedComplete(at: Places, t: Tree, p: Place, joint: Id, leaf: Id, x: MerkleHash,
                                          at': Places)
    requires Has(t, p) && Complete(at, t) && Shifted(at, p, joint, leaf, at')
    ensures Complete(at', JoinTip(t, p, x))
  {
    forall b | Has(JoinTip(t, p, x), b) ensures b in at' {
      if b != p && b != Below(p, true) { var a := Unshift(t, p, x, b); }
    }
  }

  /** Joint and leaf are indexed, and the new leaf marks the joint. */
  lemma {:induction false} JoinedExact(st: Store, index: map<MerkleHash, Id>, at: Places, t: Tree, p: Place,
                                       joint: Id, leaf: Id, x: MerkleHash, st': Store, at': Places)
    requires Joining(st, at, t, p, joint, leaf, x, st', at') && Seated(st', at') && Exact(index, st, at)
    requires forall h :: h in index ==> !Occurs(x, h)
    ensures var index' := index[x := leaf][st'[joint].hash := joint];
      Exact(index', st', at') && Marked(index', st', at', x, p)
  {
    var y := st'[joint].hash;
    var index' := index[x := leaf][y := joint];
    assert y == Node(st[at[p]].hash, x) && Occurs(x, x) && Occurs(x, y) && Size(y) > Size(x);
    forall b | b in at ensures st'[at[b]].hash == st[at[b]].hash {}
    forall b | b in at' ensures st'[at'[b]].hash in index' && index'[st'[at'[b]].hash] == at'[b] {
      if b != p && b != Below(p, true) { var a :| a in at && b == Shift(a, p); }
    }
    forall h | h in index' ensures index'[h] in at'.Values && index'[h] in st' && st'[index'[h]].hash == h {
      if h != x && h != y {
        var a := PlaceOf(index, st, at, h);
        assert at'[Shift(a, p)] == index'[h];
      } else {
        assert at'[p] == joint && at'[Below(p, true)] == leaf;
      }
    }
  }

  /** After the update above the joint, the tree is the one with the leaf joined on. */
  lemma {:induction false} JoinSettled(st: Store, st': Store, at': Places, t': Tree, p: Place)
    requires Shaped(st, at') && TipsFit(st, at', t') && !IsTip(at', p)
    requires Shaped(st', at') && FitsBut(st', at', Apex)
      && forall b :: IsTip(at', b) && b != p ==> st'[at'[b]].hash == st[at'[b]].hash
    ensures Partly(st', at', t')
  {
    FitsPartly(st', at', t');
  }

  // ---------------------------------------------------------------- what an append leaves as it was

  /**
    A row of `n` grew to `n'`: every node is still there, where it moved to, and a node without children took along
    the subtree it stands for.
   */
  ghost predicate Carried(at: Places, t: Tree, at': Places, t': Tree, n: nat, n': nat)
    requires 0 < n <= n'
  {
    && (forall a {:trigger Move(a, n, n')} :: a in at ==>
       Move(a, n, n') in at' && at'[Move(a, n, n')] == at[a] && (IsTip(at', Move(a, n, n')) <==> IsTip(at, a)))
    && (forall a :: IsTip(at, a) ==> TookAlong(t, t', a, n, n'))
    && (Complete(at, t) ==> Complete(at', t'))
  }

  ghost predicate TookAlong(t: Tree, t': Tree, a: Place, n: nat, n': nat)
    requires 0 < n <= n'
  {
    && Has(t, a) && Has(t', Move(a, n, n')) && Sub(t', Move(a, n, n')) == Sub(t, a)
    && forall y {:trigger Join(a, y)} :: Move(Join(a, y), n, n') == Join(Move(a, n, n'), y)
  }

  lemma {:induction false} CarriedComplete(at: Places, t: Tree, at': Places, t': Tree, n: nat, n': nat)
    requires 0 < n <= n' && Carried(at, t, at', t', n, n') && Complete(at, t)
    ensures Complete(at', t')
  {
  }

  lemma {:induction false} CarriedSelf(st: Store, at: Places, t: Tree, n: nat)
    requires Partly(st, at, t) && n > 0
    ensures Carried(at, t, at, t, n, n)
  {
  }

  /** One leaf more. */
  lemma {:induction false} CarriedOn(at: Places, t: Tree, at1: Places, t1: Tree, n: nat, m: nat, at2: Places, t2: Tree)
    requires 0 < n <= m && Carried(at, t, at1, t1, n, m) && Carried(at1, t1, at2, t2, m, m + 1)
    ensures Carried(at, t, at2, t2, n, m + 1)
  {
    hide Complete, IsTip, TookAlong, Move;
    forall a | a in at
      ensures var b := Move(a, n, m + 1); b in at2 && at2[b] == at[a] && (IsTip(at2, b) <==> IsTip(at, a))
    {
      MoveOn(a, n, m);
      assert Move(a, n, m) in at1;
    }
    forall a | IsTip(at, a) ensures TookAlong(t, t2, a, n, m + 1) { CarriedTip(at, t, at1, t1, n, m, at2, t2, a); }
  }

  lemma {:induction false} MoveOn(a: Place, n: nat, m: nat)
    requires 0 < n <= m
    ensures Move(a, n, m + 1) == Move(Move(a, n, m), m, m + 1)
  {
    assert Move(Move(a, n, m), m, m) == Move(a, n, m);
  }

  lemma {:induction false} CarriedTip(at: Places, t: Tree, at1: Places, t1: Tree, n: nat, m: nat, at2: Places,
                                      t2: Tree, a: Place)
    requires 0 < n <= m && Carried(at, t, at1, t1, n, m) && Carried(at1, t1, at2, t2, m, m + 1) && IsTip(at, a)
    ensures TookAlong(t, t2, a, n, m + 1)
  {
    hide Complete, Move;
    var b := Move(a, n, m);
    assert IsTip(at1, b);
    assert TookAlong(t, t1, a, n, m) && TookAlong(t1, t2, b, m, m + 1);
    MoveOn(a, n, m);
    forall y ensures Move(Join(a, y), n, m + 1) == Join(Move(a, n, m + 1), y) {
      MoveOn(Join(a, y), n, m);
      assert Move(Join(a, y), n, m) == Join(b, y);
    }
  }

  lemma {:induction false} JoinedCarries(st: Store, at: Places, t: Tree, p: Place, joint: Id, leaf: Id, x: MerkleHash,
                                         st': Store, at': Places, n: nat)
    requires Joining(st, at, t, p, joint, leaf, x, st', at') && n > 0 && p == Spine(PeakDepth(n))
    ensures Carried(at, t, at', JoinTip(t, p, x), n, n + 1)
  {
    hide Hung, Complete, Move, Shift, PeakDepth, TookAlong;
    forall a | a in at
      ensures var b := Move(a, n, n + 1); b in at' && at'[b] == at[a] && (IsTip(at', b) <==> IsTip(at, a))
    {
      MoveOne(a, n);
      JoinedTips(st, at, t, p, joint, leaf, x, st', at', a);
    }
    forall a | IsTip(at, a) ensures TookAlong(t, JoinTip(t, p, x), a, n, n + 1) { JoinedAlong(st, at, t, p, x, n, a); }
    if Complete(at, t) { JoinedComplete(at, t, p, joint, leaf, x, at'); }
  }

  lemma {:induction false} MoveOne(a: Place, n: nat)
    requires n > 0
    ensures Move(a, n, n + 1) == Shift(a, Spine(PeakDepth(n)))
  {
    assert Move(a, n, n) == a;
  }

  lemma {:induction false} JoinedAlong(st: Store, at: Places, t: Tree, p: Place, x: MerkleHash, n: nat, a: Place)
    requires Partly(st, at, t) && p in at && n > 0 && p == Spine(PeakDepth(n)) && IsTip(at, a)
    ensures Has(t, p) && TookAlong(t, JoinTip(t, p, x), a, n, n + 1)
  {
    hide Hung, Move, PeakDepth;
    MoveOne(a, n);
    ShiftedSub(t, p, x, a);
    if Under(p, a) { NoneBelow(st, at, a, p); }
    forall y ensures Move(Join(a, y), n, n + 1) == Join(Move(a, n, n + 1), y) {
      MoveOne(Join(a, y), n);
      ShiftAlong(a, y, p);
    }
  }

  lemma {:induction false} JoinedTips(st: Store, at: Places, t: Tree, p: Place, joint: Id, leaf: Id, x: MerkleHash,
                                      st': Store, at': Places, a: Place)
    requires Joining(st, at, t, p, joint, leaf, x, st', at') && a in at
    ensures IsTip(at', Shift(a, p)) <==> IsTip(at, a)
  {
    JoinedSeated(st, at, t, p, joint, leaf, x, st', at');
    if p != Apex && a == p.up {
      ParentOfJoint(st, at, t, p, joint, leaf, x, st', at');
      assert p == Below(a, true);
    } else {
      assert Below(a, false) != p && Below(a, true) != p;
      ShiftedChild(at, p, joint, leaf, at', a, false);
      ShiftedChild(at, p, joint, leaf, at', a, true);
    }
  }

  /** What occurs in a tree after a subtree was put in occurs in the old tree, in the new subtree, or has that in it. */
  lemma {:induction false} PutOccurs(t: Tree, a: Place, f: Tree, y: MerkleHash)
    requires Has(t, a) && Occurs(y, RootOf(Put(t, a, f)))
    ensures Occurs(y, RootOf(f)) || Occurs(RootOf(f), y) || Occurs(y, RootOf(t))
    decreases a
  {
    if a == Apex {
    } else {
      var o := Sub(t, a.up);
      var g := if a.right then Fork(o.left, f) else Fork(f, o.right);
      PutOccurs(t, a.up, g, y);
      assert Occurs(RootOf(f), RootOf(f)) && Occurs(RootOf(f), RootOf(g));
      if Occurs(RootOf(g), y) { OccursTrans(RootOf(f), RootOf(g), y); }
      var b := Below(a.up, !a.right);
      UnderApex(b);
      OccursAbove(t, b, Apex);
      if Occurs(y, HashIn(t, b)) { OccursTrans(y, HashIn(t, b), RootOf(t)); }
    }
  }

  /** A hash apart from the tree and from the new leaf is apart from the tree with the leaf. */
  lemma {:induction false} StillApart(t: Tree, p: Place, x: MerkleHash, y: MerkleHash)
    requires Has(t, p) && !Occurs(y, RootOf(t)) && !Occurs(x, y) && !Occurs(y, x)
    ensures !Occurs(y, RootOf(JoinTip(t, p, x)))
  {
    var f := Fork(Sub(t, p), Tip(x));
    if Occurs(y, RootOf(Put(t, p, f))) {
      PutOccurs(t, p, f, y);
      assert Occurs(x, x) && Occurs(x, RootOf(f));
      if Occurs(RootOf(f), y) { OccursTrans(x, RootOf(f), y); }
      UnderApex(p);
      OccursAbove(t, p, Apex);
      if Occurs(y, HashIn(t, p)) { OccursTrans(y, HashIn(t, p), RootOf(t)); }
    }
  }

  /** A hash that does not occur in a tree's root occurs in none of its nodes. */
  lemma {:induction false} NowhereIn(st: Store, index: map<MerkleHash, Id>, at: Places, t: Tree, x: MerkleHash)
    requires Partly(st, at, t) && Exact(index, st, at) && !Occurs(x, RootOf(t))
    ensures forall h :: h in index ==> !Occurs(x, h)
  {
    forall h | h in index ensures !Occurs(x, h) {
      var a := PlaceOf(index, st, at, h);
      UnderApex(a);
      OccursAbove(t, a, Apex);
      if Occurs(x, h) { OccursTrans(x, h, RootOf(t)); }
    }
  }

  /** Only entries that involve one of `xs` were added or changed. */
  ghost predicate Added(index: map<MerkleHash, Id>, index': map<MerkleHash, Id>, xs: seq<MerkleHash>) {
    forall h :: NoneOccurs(xs, h) ==> (h in index <==> h in index') && (h in index ==> index'[h] == index[h])
  }

  ghost predicate NoneOccurs(xs: seq<MerkleHash>, h: MerkleHash) {
    forall i :: 0 <= i < |xs| ==> !Occurs(xs[i], h)
  }

  /** Whatever the index finds is a node of the tree. */
  ghost predicate Placed(index: map<MerkleHash, Id>, at: Places) {
    forall h :: h in index ==> index[h] in at.Values
  }

  lemma {:induction false} PlacedOne(x: MerkleHash, id: Id)
    ensures Placed(map[x := id], map[Apex := id])
  {
    assert map[Apex := id][Apex] == id;
  }

  lemma {:induction false} PlacedPair(index: map<MerkleHash, Id>, at: Places, t: Tree, at': Places, t': Tree, n: nat,
                                      x: MerkleHash, y: MerkleHash, a: Place, b: Place)
    requires Placed(index, at) && 0 < n && Carried(at, t, at', t', n, n + 1) && a in at' && b in at'
    ensures Placed(index[x := at'[a]][y := at'[b]], at')
  {
    var index' := index[x := at'[a]][y := at'[b]];
    forall h | h in index' ensures index'[h] in at'.Values {
      if h != x && h != y {
        var c :| c in at && at[c] == index[h];
        assert at'[Move(c, n, n + 1)] == index'[h];
      }
    }
  }

  lemma {:induction false} AddedOn(a: map<MerkleHash, Id>, b: map<MerkleHash, Id>, c: map<MerkleHash, Id>,
                                   xs: seq<MerkleHash>, x: MerkleHash)
    requires Added(a, b, xs) && Added(b, c, [x])
    ensures Added(a, c, xs + [x])
  {
    forall h | NoneOccurs(xs + [x], h) ensures NoneOccurs(xs, h) && NoneOccurs([x], h) {
      assert (xs + [x])[|xs|] == x;
      forall i | 0 <= i < |xs| ensures !Occurs(xs[i], h) { assert (xs + [x])[i] == xs[i]; }
    }
  }

  /** Before the update above the joint. */
  lemma {:induction false} JoinedReady(st: Store, index: map<MerkleHash, Id>, listening: bool, at: Places, t: Tree,
                                       p: Place, joint: Id, leaf: Id, x: MerkleHash,
                                       st': Store, index': map<MerkleHash, Id>, at': Places, n: nat)
    requires Joining(st, at, t, p, joint, leaf, x, st', at') && index' == index[x := leaf][st'[joint].hash := joint]
    requires listening ==> Exact(index, st, at) && !Occurs(x, RootOf(t))
    requires n > 0 && p == Spine(PeakDepth(n))
    ensures Shaped(st', at') && TipsFit(st', at', JoinTip(t, p, x)) && p in at' && at'[p] == joint && !IsTip(at', p)
    ensures Rising(st', index', listening, at', x, p, false) && st' == Rehash(st', joint, st'[joint].hash)
    ensures Carried(at, t, at', JoinTip(t, p, x), n, n + 1)
  {
    hide Carried, TipsFit, FitsBut, Exact, Marked;
    JoinedShaped(st, at, t, p, joint, leaf, x, st', at');
    JoinedCarries(st, at, t, p, joint, leaf, x, st', at', n);
    if listening {
      NowhereIn(st, index, at, t, x);
      JoinedExact(st, index, at, t, p, joint, leaf, x, st', at');
    }
    StoreSame(st', joint, st'[joint].(hash := st'[joint].hash));
  }

  /** The same for the last peak of a row: it becomes the row with the leaf. */
  lemma {:induction false} JoinedRow(st: Store, index: map<MerkleHash, Id>, listening: bool, at: Places, t: Tree,
                                     ts: seq<Tree>, p: Place, joint: Id, leaf: Id,
                                     x: MerkleHash, st': Store, index': map<MerkleHash, Id>) returns (at': Places)
    requires ts != [] && t == Assemble(ts) && p == Spine(PeakDepth(|ts|)) && Partly(st, at, t) && p in at
    requires joint !in st && leaf !in st && joint != leaf && NIL !in {joint, leaf}
      && IsJoin(st, st', at[p], joint, leaf, x)
    requires index' == index[x := leaf][st'[joint].hash := joint]
      && (listening ==> Exact(index, st, at) && !Occurs(x, RootOf(t)))
    ensures var t' := Assemble(ts + [Tip(x)]);
      && Shaped(st', at') && TipsFit(st', at', t') && p in at' && at'[p] == joint && !IsTip(at', p)
      && Below(p, true) in at' && at'[Below(p, true)] == leaf
      && Rising(st', index', listening, at', x, p, false) && Carried(at, t, at', t', |ts|, |ts| + 1)
  {
    hide PeakDepth, Hung, Carried, TipsFit, FitsBut, Exact, Marked, Has, Sub, IsJoin;
    LastOfRow(ts);
    InsertNext(ts, x);
    at' := ShiftAll(at, p, joint, leaf);
    SpineTurns(PeakDepth(|ts|));
    JoinedReady(st, index, listening, at, t, p, joint, leaf, x, st', index', at', |ts|);
  }

  lemma {:induction false} SpineTurns(d: nat)
    ensures Spine(d) != Apex ==> Spine(d).right
  {
  }

  lemma {:induction false} LastHash(st: Store, at: Places, t: Tree, a: Place, x: MerkleHash)
    requires Partly(st, at, t) && a in at && Has(t, a) && Sub(t, a) == Tip(x)
    ensures Apex in at && at[a] in st && st[at[a]].hash == x
  {
  }

  lemma {:induction false} AddedPair(index: map<MerkleHash, Id>, x: MerkleHash, leaf: Id, y: MerkleHash, joint: Id)
    requires y.Node? && y.right == x
    ensures Added(index, index[x := leaf][y := joint], [x])
  {
    forall h | NoneOccurs([x], h) ensures h != x && h != y {
      assert !Occurs([x][0], h) && Occurs(x, x);
    }
  }

  lemma {:induction false} AddedOne(index: map<MerkleHash, Id>, x: MerkleHash, leaf: Id)
    ensures Added(index, index[x := leaf], [x])
  {
    forall h | NoneOccurs([x], h) ensures h != x {
      assert !Occurs([x][0], h) && Occurs(x, x);
    }
  }

  lemma {:induction false} AddedNone(index: map<MerkleHash, Id>)
    ensures Added(index, index, [])
  {
  }

  /** New leaves do not occur in one another, nor in the row they are added to. */
  ghost predicate Strangers(xs: seq<MerkleHash>, ts: seq<Tree>, t: Tree) {
    Separated(xs) && (ts != [] ==> forall i :: 0 <= i < |xs| ==> !Occurs(xs[i], RootOf(t)))
  }

  lemma {:induction false} StrangersNext(xs: seq<MerkleHash>, ts: seq<Tree>, t: Tree)
    requires xs != [] && Strangers(xs, ts, t) && (ts != [] ==> t == Assemble(ts))
    ensures ts != [] ==> !Occurs(xs[0], RootOf(t))
    ensures Strangers(xs[1..], ts + [Tip(xs[0])], Assemble(ts + [Tip(xs[0])]))
  {
    var us := ts + [Tip(xs[0])];
    forall i | 0 <= i < |xs[1..]| ensures !Occurs(xs[1..][i], RootOf(Assemble(us))) {
      assert !Occurs(xs[i + 1], xs[0]) && !Occurs(xs[0], xs[i + 1]);
      if ts == [] {
        assert Assemble(us) == Tip(xs[0]);
      } else {
        InsertNext(ts, xs[0]);
        StillApart(t, Spine(PeakDepth(|ts|)), xs[0], xs[i + 1]);
      }
    }
  }
}
