/** A second-layer tree copied below the leaf of a top-layer tree that has its root hash. */
module Hooking {
  import opened MerkleSpec
  import opened Trees
  import opened NodeStore
  import opened PlacedTrees
  import opened Building

  /** The nodes at `at` are copies of those of `sub` at and below `b`. */
  ghost predicate CopyOf(at: Places, sub: Places, b: Place) {
    forall y {:trigger Join(b, y)} :: y in at <==> Join(b, y) in sub
  }

  lemma {:induction false} CopyTip(id: Id, st: Store, sub: Places, b: Place)
    requires Shaped(st, sub) && IsTip(sub, b)
    ensures CopyOf(map[Apex := id], sub, b)
  {
    forall y ensures y in map[Apex := id] <==> Join(b, y) in sub {
      JoinUnder(b, y);
      if Join(b, y) in sub {
        NoneBelow(st, sub, b, Join(b, y));
        JoinInjective(b, y, Apex);
      }
    }
  }

  /** A copied node with the copies of what is below its children. */
  lemma {:induction false} CopyFork(id: Id, l: Places, r: Places, at: Places, sub: Places, b: Place)
    requires Grafted(map[Apex := id], Apex, l, r, at) && b in sub
    requires CopyOf(l, sub, Below(b, false)) && CopyOf(r, sub, Below(b, true))
    ensures CopyOf(at, sub, b)
  {
    forall y ensures y in at <==> Join(b, y) in sub {
      if y != Apex { CopyBelow(id, l, r, at, sub, b, y); }
    }
  }

  lemma {:induction false} CopyBelow(id: Id, l: Places, r: Places, at: Places, sub: Places, b: Place, y: Place)
    requires Grafted(map[Apex := id], Apex, l, r, at) && b in sub && y != Apex
    requires CopyOf(l, sub, Below(b, false)) && CopyOf(r, sub, Below(b, true))
    ensures y in at <==> Join(b, y) in sub
  {
    hide CopyOf;
    UnderApex(y);
    UnderChild(y, Apex);
    var right := Under(y, Below(Apex, true));
    var c, m := Below(Apex, right), if right then r else l;
    assert Under(y, c);
    var z := Rest(y, c);
    JoinChild(b, right, z);
    assert z in m <==> Join(Below(b, right), z) in sub by {
      assert CopyOf(m, sub, Below(b, right));
      InCopy(m, sub, Below(b, right), z);
    }
    if y in at {
      var s, w := Origin(map[Apex := id], Apex, l, r, at, y);
      JoinUnder(Below(Apex, s), w);
      assert s == right;
      JoinInjective(c, z, w);
    }
  }

  lemma {:induction false} ChildrenOf(st: Store, at: Places, t: Tree, b: Place)
    requires Partly(st, at, t) && b in at && st[at[b]].left != NIL && st[at[b]].right != NIL
    ensures Has(t, b) && Sub(t, b).Fork? && st[at[b]].hash == HashIn(t, b)
    ensures Below(b, false) in at && at[Below(b, false)] == st[at[b]].left && Sub(t, Below(b, false)) == Sub(t, b).left
    ensures Below(b, true) in at && at[Below(b, true)] == st[at[b]].right && Sub(t, Below(b, true)) == Sub(t, b).right
  {
    assert Hung(st, at, b);
  }

  /** A new node over the copies of what is below its original. */
  lemma {:induction false} CopyJoin(st0: Store, st1: Store, st2: Store, st3: Store, id: Id, l: Places, tl: Tree,
                                    r: Places, tr: Tree, st': Store,
                                    sub: Places, b: Place) returns (at: Places)
    requires id !in st0 && id != NIL && st1 == st0[id := Record(Node(RootOf(tl), RootOf(tr)), NIL, NIL, NIL)]
    requires Built(st1, st2, l, tl) && Built(st2, st3, r, tr) && LinkedUnder(st3, st', id, l[Apex], r[Apex])
    requires b in sub && CopyOf(l, sub, Below(b, false)) && CopyOf(r, sub, Below(b, true))
    ensures Built(st0, st', at, Fork(tl, tr)) && at[Apex] == id && CopyOf(at, sub, b) && id in st'
      && st'[id].hash == Node(RootOf(tl), RootOf(tr))
  {
    BuiltKeeps(st1, st2, l, tl);
    BuiltKeeps(st2, st3, r, tr);
    BuiltNext(st1, st2, st3, l, tl, r, tr);
    hide Built, BuiltBoth, CopyOf;
    at := BuiltJoin(st0, st3, id, l, tl, r, tr, st');
    CopyFork(id, l, r, at, sub, b);
  }

  lemma {:induction false} InCopy(at: Places, sub: Places, b: Place, y: Place)
    requires CopyOf(at, sub, b)
    ensures y in at <==> Join(b, y) in sub
  {
  }

  lemma {:induction false} JoinChild(b: Place, right: bool, z: Place)
    ensures Join(b, Join(Below(Apex, right), z)) == Join(Below(b, right), z)
  {
    JoinAssoc(b, Below(Apex, right), z);
    assert Join(b, Apex) == b && Join(b, Below(Apex, right)) == Below(b, right);
  }

  lemma {:induction false} CopyComplete(at: Places, sub: Places, t: Tree, b: Place)
    requires CopyOf(at, sub, b) && Complete(sub, t) && Has(t, b)
    ensures Complete(at, Sub(t, b))
  {
    forall y | Has(Sub(t, b), y) ensures y in at { SubJoin(t, b, y); }
  }

  /** Two trees with one hash in common, at `a` in the first and at the root of the second. */
  ghost predicate Sharing(index: map<MerkleHash, Id>, index': map<MerkleHash, Id>, root: MerkleHash) {
    forall h :: h in index && h in index' ==> h == root
  }

  /** Then the node of the first has no children, if the root of the second has. */
  lemma {:induction false} SharedIsTip(st: Store, index: map<MerkleHash, Id>, at: Places, t: Tree, a: Place,
                                       subst: Store, subindex: map<MerkleHash, Id>, sub: Places, u: Tree)
    requires Partly(st, at, t) && Exact(index, st, at) && Partly(subst, sub, u) && Exact(subindex, subst, sub)
    requires a in at && HashIn(t, a) == RootOf(u) && Sharing(index, subindex, RootOf(u)) && !IsTip(sub, Apex)
    ensures IsTip(at, a) && u.Fork?
  {
    assert Hung(subst, sub, Apex) && Hung(st, at, a);
    var c := Below(Apex, false);
    assert c in sub && Has(u, c) && HashIn(u, c) == RootOf(u.left);
    NodeNotChild(RootOf(u.left), RootOf(u.right));
  }

  /** The copies of both halves of `u` are ready to be hung under node `a`. */
  ghost predicate HookReady(st0: Store, st: Store, at: Places, t: Tree, a: Place, l: Places, r: Places, sub: Places,
                            u: Tree) {
    && Partly(st0, at, t) && IsTip(at, a) && Has(t, a) && HashIn(t, a) == RootOf(u) && u.Fork?
    && BuiltBoth(st0, st, l, u.left, r, u.right) && CopyOf(l, sub, Below(Apex, false))
    && CopyOf(r, sub, Below(Apex, true))
  }

  lemma {:induction false} HookPartly(st0: Store, st: Store, at: Places, t: Tree, a: Place, l: Places, r: Places,
                                      sub: Places, u: Tree, st': Store)
    returns (at': Places)
    requires HookReady(st0, st, at, t, a, l, r, sub, u) && at[a] in st && LinkedUnder(st, st', at[a], l[Apex], r[Apex])
    ensures Partly(st', at', Put(t, a, u)) && Grafted(at, a, l, r, at')
    ensures Complete(at, t) && Complete(sub, u) ==> Complete(at', Put(t, a, u))
  {
    var t' := Put(t, a, u);
    PutHere(t, a, u);
    forall b | b in at ensures Has(t', b) && HashIn(t', b) == HashIn(t, b) {
      if Under(b, a) { NoneBelow(st0, at, a, b); }
      PutSameHash(t, a, u, b);
    }
    assert Partly(st0, at, t');
    PartlyFrame(st0, st, at, t');
    hide Partly, CopyOf;
    at' := Graft(st, at, a, l, r);
    assert Disjoint(at, l, r) by { HookDisjoint(st0, st, at, l, u.left, r, u.right); }
    GraftPartly(st, at, a, l, r, t', st', at');
    if Complete(at, t) && Complete(sub, u) { HookComplete(at, t, a, l, r, sub, u, at'); }
  }

  lemma {:induction false} HookDisjoint(st0: Store, st: Store, at: Places, l: Places, tl: Tree, r: Places, tr: Tree)
    requires Seated(st0, at) && BuiltBoth(st0, st, l, tl, r, tr)
    ensures Disjoint(at, l, r)
  {
    hide Partly;
  }

  lemma {:induction false} HookComplete(at: Places, t: Tree, a: Place, l: Places, r: Places, sub: Places, u: Tree,
                                        at': Places)
    requires IsTip(at, a) && Has(t, a) && u.Fork? && Grafted(at, a, l, r, at') && Complete(at, t) && Complete(sub, u)
    requires CopyOf(l, sub, Below(Apex, false)) && CopyOf(r, sub, Below(Apex, true))
    ensures Complete(at', Put(t, a, u))
  {
    assert TipIn(t, a) by { assert Has(t, Below(a, false)) <==> Sub(t, a).Fork?; }
    hide Grafted;
    assert Has(u, Apex) && Has(u, Below(Apex, false)) && Has(u, Below(Apex, true));
    CopyComplete(l, sub, u, Below(Apex, false));
    CopyComplete(r, sub, u, Below(Apex, true));
    GraftComplete(at, a, l, r, at', t, u);
  }

  /** A copied node has the hash of its original. */
  lemma {:induction false} Original(st0: Store, st: Store, at: Places, t: Tree, a: Place, l: Places, r: Places,
                                    u: Tree, st': Store, at': Places,
                                    subst: Store, sub: Places, b: Place) returns (z: Place)
    requires HookReady(st0, st, at, t, a, l, r, sub, u) && at[a] in st && LinkedUnder(st, st', at[a], l[Apex], r[Apex])
    requires Grafted(at, a, l, r, at') && Partly(subst, sub, u) && b in at' && b !in at
    ensures z in sub && z != Apex && b == Join(a, z) && at'[b] in st' && st'[at'[b]].hash == subst[sub[z]].hash
  {
    var right, y := Origin(at, a, l, r, at', b);
    JoinChild(a, right, y);
    var c := Below(Apex, right);
    z := Join(c, y);
    JoinDepth(c, y);
    assert Has(u, Apex) && Has(u, c) && Sub(u, c) == if right then u.right else u.left;
    SubJoin(u, c, y);
    InCopy(if right then r else l, sub, c, y);
    HookHashes(st0, st, at, t, a, l, u.left, r, u.right, st');
  }

  /** Linking them changes no hash. */
  lemma {:induction false} HookHashes(st0: Store, st: Store, at: Places, t: Tree, a: Place, l: Places, tl: Tree,
                                      r: Places, tr: Tree, st': Store)
    requires Partly(st0, at, t) && a in at && BuiltBoth(st0, st, l, tl, r, tr) && at[a] in st
      && LinkedUnder(st, st', at[a], l[Apex], r[Apex])
    ensures forall i :: i in st ==> i in st' && st'[i].hash == st[i].hash
    ensures forall b :: b in at ==> at[b] in st && st[at[b]] == st0[at[b]]
  {
    assert at[a] in st0 && l[Apex] !in st0 && r[Apex] !in st0 && l[Apex] != r[Apex];
  }

  /** With the copies indexed, the index is exact. */
  lemma {:induction false} HookExact(st0: Store, index0: map<MerkleHash, Id>, st: Store, index: map<MerkleHash, Id>,
                                     at: Places, t: Tree, a: Place,
                                     l: Places, r: Places, u: Tree, st': Store, at': Places, subst: Store,
                                     subindex: map<MerkleHash, Id>, sub: Places)
    requires HookReady(st0, st, at, t, a, l, r, sub, u) && at[a] in st && LinkedUnder(st, st', at[a], l[Apex], r[Apex])
    requires Grafted(at, a, l, r, at') && Partly(st', at', Put(t, a, u)) && Partly(subst, sub, u)
      && Exact(subindex, subst, sub)
    requires Exact(index0, st0, at) && Sharing(index0, subindex, RootOf(u)) && Filed(index, st, st0.Keys - at.Values)
    ensures Exact(index, st', at')
  {
    hide Grafted, Partly, Exact, Sharing, Filed, BuiltBoth;
    HookDistinct(st0, index0, st, at, t, a, l, r, u, st', at', subst, subindex, sub);
    HookFiled(st0, st, index, at, t, a, l, u.left, r, u.right, st', st0.Keys - at.Values);
    HookIds(st0, st, at, a, l, u.left, r, u.right, st', at');
    FiledExact(index, st', st0.Keys - at.Values, at');
  }

  lemma {:induction false} HookFiled(st0: Store, st: Store, index: map<MerkleHash, Id>, at: Places, t: Tree, a: Place,
                                     l: Places, tl: Tree, r: Places, tr: Tree, st': Store, outside: set<Id>)
    requires Partly(st0, at, t) && a in at && BuiltBoth(st0, st, l, tl, r, tr) && at[a] in st
      && LinkedUnder(st, st', at[a], l[Apex], r[Apex])
    requires Filed(index, st, outside)
    ensures Filed(index, st', outside)
  {
    HookHashes(st0, st, at, t, a, l, tl, r, tr, st');
    hide Partly, BuiltBoth;
  }

  lemma {:induction false} HookIds(st0: Store, st: Store, at: Places, a: Place, l: Places, tl: Tree, r: Places,
                                   tr: Tree, st': Store, at': Places)
    requires BuiltBoth(st0, st, l, tl, r, tr) && Grafted(at, a, l, r, at') && forall id :: id in st' <==> id in st
    ensures (forall b :: b in at' ==> at'[b] !in st0.Keys - at.Values)
      && forall id :: id in st' ==> id in st0.Keys - at.Values || id in at'.Values
  {
    hide Partly;
    forall b | b in at' ensures at'[b] !in st0.Keys - at.Values {
      var right, y := Origin(at, a, l, r, at', b);
    }
    forall id | id in st' ensures id in st0.Keys - at.Values || id in at'.Values {
      if id in l.Values {
        var y :| y in l && l[y] == id;
        assert at'[Join(Below(a, false), y)] == id;
      } else if id in r.Values {
        var y :| y in r && r[y] == id;
        assert at'[Join(Below(a, true), y)] == id;
      } else if id in at.Values {
        var b :| b in at && at[b] == id;
        assert at'[b] == id;
      }
    }
  }

  lemma {:induction false} HookDistinct(st0: Store, index0: map<MerkleHash, Id>, st: Store, at: Places, t: Tree,
                                        a: Place,
                                        l: Places, r: Places, u: Tree, st': Store, at': Places, subst: Store,
                                        subindex: map<MerkleHash, Id>, sub: Places)
    requires HookReady(st0, st, at, t, a, l, r, sub, u) && at[a] in st && LinkedUnder(st, st', at[a], l[Apex], r[Apex])
    requires Grafted(at, a, l, r, at') && Partly(st', at', Put(t, a, u)) && Partly(subst, sub, u)
      && Exact(subindex, subst, sub)
    requires Exact(index0, st0, at) && Sharing(index0, subindex, RootOf(u))
    ensures Seated(st', at') && Distinct(st', at')
  {
    forall b, c | b in at' && c in at' && st'[at'[b]].hash == st'[at'[c]].hash ensures b == c {
      hide Partly, Exact, Grafted, Sharing, HookReady, LinkedUnder;
      HookSame(st0, index0, st, at, t, a, l, r, u, st', at', subst, subindex, sub, b, c);
    }
  }

  lemma {:induction false} HookSame(st0: Store, index0: map<MerkleHash, Id>, st: Store, at: Places, t: Tree, a: Place,
                                    l: Places, r: Places, u: Tree, st': Store, at': Places, subst: Store,
                                    subindex: map<MerkleHash, Id>, sub: Places,
                                    b: Place, c: Place)
    requires HookReady(st0, st, at, t, a, l, r, sub, u) && at[a] in st && LinkedUnder(st, st', at[a], l[Apex], r[Apex])
    requires Grafted(at, a, l, r, at') && Partly(st', at', Put(t, a, u)) && Partly(subst, sub, u)
      && Exact(subindex, subst, sub)
    requires Exact(index0, st0, at) && Sharing(index0, subindex, RootOf(u))
    requires b in at' && c in at' && st'[at'[b]].hash == st'[at'[c]].hash
    ensures b == c
  {
    var y, z := Apex, Apex;
    if b !in at { y := Original(st0, st, at, t, a, l, r, u, st', at', subst, sub, b); }
    if c !in at { z := Original(st0, st, at, t, a, l, r, u, st', at', subst, sub, c); }
    OldHash(st0, index0, st, at, t, a, l, r, sub, u, st', at', b);
    OldHash(st0, index0, st, at, t, a, l, r, sub, u, st', at', c);
    hide LinkedUnder, HookReady, Grafted, Hung, HashIn, Has;
    assert Apex in sub && subst[sub[Apex]].hash == RootOf(u);
  }

  lemma {:induction false} OldHash(st0: Store, index0: map<MerkleHash, Id>, st: Store, at: Places, t: Tree, a: Place,
                                   l: Places, r: Places, sub: Places, u: Tree, st': Store, at': Places, b: Place)
    requires HookReady(st0, st, at, t, a, l, r, sub, u) && at[a] in st && LinkedUnder(st, st', at[a], l[Apex], r[Apex])
    requires Grafted(at, a, l, r, at') && Exact(index0, st0, at) && b in at' && at'[b] in st'
    ensures b in at ==>
      st'[at'[b]].hash == st0[at[b]].hash && st0[at[b]].hash in index0 && index0[st0[at[b]].hash] == at[b]
  {
    HookHashes(st0, st, at, t, a, l, u.left, r, u.right, st');
  }

  /** What was there is still found, under its old id. */
  lemma {:induction false} HookKeeps(st: Store, index: map<MerkleHash, Id>, at: Places, t: Tree, st': Store,
                                     index': map<MerkleHash, Id>, at': Places, a: Place, u: Tree)
    requires Partly(st, at, t) && Exact(index, st, at) && a in at && Has(t, a) && HashIn(t, a) == RootOf(u)
      && IsTip(at, a)
    requires Partly(st', at', Put(t, a, u)) && Exact(index', st', at')
      && forall b :: b in at ==> b in at' && at'[b] == at[b]
    ensures RootOf(Put(t, a, u)) == RootOf(t)
    ensures forall h :: h in index ==> h in index' && index'[h] == index[h]
  {
    UnderApex(a);
    PutSameRoot(t, a, u, Apex);
    forall h | h in index ensures h in index' && index'[h] == index[h] {
      var b := PlaceOf(index, st, at, h);
      if Under(b, a) { NoneBelow(st, at, a, b); }
      PutSameHash(t, a, u, b);
    }
  }

  /** Once the copies are linked under the node, the nodes are those of the tree with the other one hooked. */
  lemma {:induction false} HookDone(st0: Store, index0: map<MerkleHash, Id>, st: Store, index: map<MerkleHash, Id>,
                                    at: Places, t: Tree, a: Place,
                                    l: Places, r: Places, u: Tree, st': Store, subst: Store, subindex: map<MerkleHash,
                                      Id>, sub: Places) returns (at': Places)
    requires HookReady(st0, st, at, t, a, l, r, sub, u) && at[a] in st && LinkedUnder(st, st', at[a], l[Apex], r[Apex])
    requires Partly(subst, sub, u) && Exact(subindex, subst, sub)
    requires Exact(index0, st0, at) && Sharing(index0, subindex, RootOf(u)) && Filed(index, st, st0.Keys - at.Values)
    ensures Partly(st', at', Put(t, a, u)) && Exact(index, st', at') && RootOf(Put(t, a, u)) == RootOf(t)
    ensures (forall h :: h in index0 ==> h in index && index[h] == index0[h])
      && forall b :: b in at ==> b in at' && at'[b] == at[b]
    ensures Complete(at, t) && Complete(sub, u) ==> Complete(at', Put(t, a, u))
  {
    hide LinkedUnder, Exact, Filed, Partly, BuiltBoth, Complete;
    at' := HookPartly(st0, st, at, t, a, l, r, sub, u, st');
    HookExact(st0, index0, st, index, at, t, a, l, r, u, st', at', subst, subindex, sub);
    HookKeeps(st0, index0, at, t, st', index, at', a, u);
  }
}
