/**
  Trees in a store. Each node present is found by its place. Not all nodes of a tree need be present:
  one without children may stand for a whole subtree.
 */
module PlacedTrees {
  import opened MerkleSpec
  import opened Trees
  import opened MerklePaths
  import opened Options
  import opened NodeStore

  type Places = map<Place, Id>

  function IdAt(at: Places, a: Place): Id {
    if a in at then at[a] else NIL
  }

  /** Node `a` hangs from its parent and carries both children or none. */
  ghost predicate Hung(st: Store, at: Places, a: Place)
    requires a in at && at[a] in st
  {
    && (if a == Apex then st[at[a]].parent == NIL else a.up in at && st[at[a]].parent == at[a.up])
    && (Below(a, false) in at <==> Below(a, true) in at)
    && st[at[a]].left == IdAt(at, Below(a, false)) && st[at[a]].right == IdAt(at, Below(a, true))
  }

  ghost predicate Seated(st: Store, at: Places) {
    && Apex in at && (forall a :: a in at ==> at[a] in st && at[a] != NIL)
    && (forall a, b :: a in at && b in at && at[a] == at[b] ==> a == b)
  }

  ghost predicate Shaped(st: Store, at: Places) {
    Seated(st, at) && forall a {:trigger Hung(st, at, a)} :: a in at ==> Hung(st, at, a)
  }

  predicate IsTip(at: Places, a: Place) {
    a in at && Below(a, false) !in at && Below(a, true) !in at
  }

  /** The nodes present are nodes of `t`, with the hashes they have there. */
  ghost predicate Partly(st: Store, at: Places, t: Tree) {
    Shaped(st, at) && forall a :: a in at ==> Has(t, a) && st[at[a]].hash == HashIn(t, a)
  }

  ghost predicate Complete(at: Places, t: Tree) {
    forall a :: Has(t, a) ==> a in at
  }

  /** The tree in the store is `t`. */
  ghost predicate Stands(st: Store, at: Places, t: Tree) {
    Partly(st, at, t) && Complete(at, t)
  }

  /** The index holds exactly the nodes' hashes, each leading to its node. */
  ghost predicate Exact(index: map<MerkleHash, Id>, st: Store, at: Places)
    requires Seated(st, at)
  {
    && (forall a :: a in at ==> st[at[a]].hash in index && index[st[at[a]].hash] == at[a])
    && (forall h :: h in index ==> index[h] in at.Values && index[h] in st && st[index[h]].hash == h)
  }

  lemma {:induction false} PlaceOf(index: map<MerkleHash, Id>, st: Store, at: Places, h: MerkleHash) returns (a: Place)
    requires Seated(st, at) && Exact(index, st, at) && h in index
    ensures a in at && at[a] == index[h] && st[at[a]].hash == h
  {
    a :| a in at && at[a] == index[h];
  }

  /** The neighbours of a node refer back to it. */
  lemma {:induction false} HungAttached(st: Store, at: Places, a: Place)
    requires Shaped(st, at) && a in at
    ensures Attached(st, at[a])
  {
    assert Hung(st, at, a);
    assert Depth(Below(a, false)) > Depth(a) && Depth(Below(a, true)) > Depth(a);
    if Below(a, false) in at {
      assert Hung(st, at, Below(a, false)) && Hung(st, at, Below(a, true));
    }
    if a != Apex {
      assert Hung(st, at, a.up) && a == Below(a.up, a.right);
    }
  }

  /** A node and its sibling under their parent. */
  lemma {:induction false} UnderParent(st: Store, at: Places, c: Place)
    requires Shaped(st, at) && c in at && c != Apex
    ensures c.up in at && st[at[c]].parent == at[c.up] && Sibling(c) in at && at[c] != at[Sibling(c)]
    ensures var r := st[at[c.up]]; r.left == at[Below(c.up, false)] && r.right == at[Below(c.up, true)]
    ensures (if c.right then st[at[c.up]].right else st[at[c.up]].left) == at[c]
  {
    assert Hung(st, at, c) && Hung(st, at, c.up) && c == Below(c.up, c.right);
  }

  lemma {:induction false} UpNil(st: Store, at: Places, c: Place)
    requires Shaped(st, at) && c in at
    ensures st[at[c]].parent == NIL <==> c == Apex
  {
    assert Hung(st, at, c);
  }

  /** Nothing is present below a node without children. */
  lemma {:induction false} NoneBelow(st: Store, at: Places, a: Place, b: Place)
    requires Shaped(st, at) && IsTip(at, a) && b in at && Under(b, a)
    ensures b == a
  {
    if b == a {
    } else {
      assert Hung(st, at, b);
      NoneBelow(st, at, a, b.up);
    }
  }

  /** A tree depends on its own nodes only. */
  lemma {:induction false} PartlyFrame(st: Store, st': Store, at: Places, t: Tree)
    requires Partly(st, at, t) && forall a :: a in at ==> at[a] in st' && st'[at[a]] == st[at[a]]
    ensures Partly(st', at, t)
  {
    forall a | a in at ensures Hung(st', at, a) { assert Hung(st, at, a); }
  }

  /** A single node stands for any tree with its hash. */
  lemma {:induction false} PartlyOne(st: Store, id: Id, t: Tree)
    requires id != NIL && id in st && st[id] == Record(RootOf(t), NIL, NIL, NIL)
    ensures Partly(st, map[Apex := id], t) && (t.Tip? ==> Stands(st, map[Apex := id], t))
  {
    var at := map[Apex := id];
    forall a | a in at ensures Hung(st, at, a) {}
    if t.Tip? {
      forall a | Has(t, a) ensures a in at {
        UnderApex(a);
        TipAlone(t, Apex, a);
      }
    }
  }

  lemma {:induction false} PutSameHash(t: Tree, a: Place, x: Tree, b: Place)
    requires Has(t, a) && RootOf(x) == HashIn(t, a) && Has(t, b) && (Under(b, a) ==> b == a)
    ensures Has(Put(t, a, x), b) && HashIn(Put(t, a, x), b) == HashIn(t, b)
  {
    if b == a {
      PutHere(t, a, x);
    } else {
      PutElsewhere(t, a, x, b);
      if Under(a, b) { PutSameRoot(t, a, x, b); }
    }
  }

  /** What is above the place has the same hash, too. */
  lemma {:induction false} PutSameRoot(t: Tree, a: Place, x: Tree, b: Place)
    requires Has(t, a) && RootOf(x) == HashIn(t, a) && Under(a, b)
    ensures Has(t, b) && Has(Put(t, a, x), b) && HashIn(Put(t, a, x), b) == HashIn(t, b)
    decreases a
  {
    PutHere(t, a, x);
    if a == b {
    } else {
      PutSameRoot(t, a.up, if a.right then Fork(Sub(t, a.up).left, x) else Fork(x, Sub(t, a.up).right), b);
    }
  }

  /** Two complete trees with the same content are the same tree, up to the ids of their nodes. */
  lemma {:induction false} SameTree(st: Store, at: Places, st': Store, at': Places, t: Tree, a: Place)
    requires Stands(st, at, t) && Stands(st', at', t) && a in at
    ensures a in at' && st'[at'[a]].hash == st[at[a]].hash
    ensures st[at[a]].parent == NIL <==> st'[at'[a]].parent == NIL
    ensures st[at[a]].left == NIL <==> st'[at'[a]].left == NIL
    ensures st[at[a]].right == NIL <==> st'[at'[a]].right == NIL
    ensures forall b :: b in at ==>
      && b in at' && (st[at[a]].parent == at[b] <==> st'[at'[a]].parent == at'[b])
      && (st[at[a]].left == at[b] <==> st'[at'[a]].left == at'[b])
      && (st[at[a]].right == at[b] <==> st'[at'[a]].right == at'[b])
  {
    assert Hung(st, at, a) && Hung(st', at', a);
  }

  // ---------------------------------------------------------------- two trees hung under a node

  /** The tree at `l` hangs at place `c` of the one at `at`. */
  ghost predicate HangsAt(at: Places, c: Place, l: Places) {
    forall y {:trigger Join(c, y)} :: y in l ==> Join(c, y) in at && at[Join(c, y)] == l[y]
  }

  ghost predicate From(c: Place, l: Places, b: Place) {
    exists y :: y in l && b == Join(c, y)
  }

  /** The places of three trees, two of them hung under node `a` of the first. */
  ghost predicate Grafted(at: Places, a: Place, l: Places, r: Places, at': Places) {
    && (forall b :: b in at ==> b in at' && at'[b] == at[b])
    && HangsAt(at', Below(a, false), l) && HangsAt(at', Below(a, true), r)
    && (forall b :: b in at' ==> b in at || From(Below(a, false), l, b) || From(Below(a, true), r, b))
  }

  lemma {:induction false} Rebase(c: Place, l: Places) returns (m: Places)
    ensures HangsAt(m, c, l) && forall b :: b in m ==> From(c, l, b)
  {
    forall y, z | Join(c, y) == Join(c, z) ensures y == z { JoinInjective(c, y, z); }
    m := map y | y in l :: Join(c, y) := l[y];
  }

  lemma {:induction false} Graft(st: Store, at: Places, a: Place, l: Places, r: Places) returns (at': Places)
    requires Shaped(st, at) && IsTip(at, a)
    ensures Grafted(at, a, l, r, at')
  {
    hide Shaped, IsTip;
    var ml := Rebase(Below(a, false), l);
    var mr := Rebase(Below(a, true), r);
    forall y
      ensures Join(Below(a, false), y) !in at && Join(Below(a, true), y) !in at && Join(Below(a, false), y) !in mr
    {
      JoinNew(st, at, a, false, y);
      JoinNew(st, at, a, true, y);
      if Join(Below(a, false), y) in mr {
        var z :| z in r && Join(Below(a, false), y) == Join(Below(a, true), z);
        SidesApart(a, y, z);
      }
    }
    at' := at + ml + mr;
  }

  lemma {:induction false} SidesApart(a: Place, y: Place, z: Place)
    ensures Join(Below(a, false), y) != Join(Below(a, true), z)
  {
    JoinUnder(Below(a, false), y);
    JoinUnder(Below(a, true), z);
    UnderChild(Join(Below(a, false), y), a);
  }

  lemma {:induction false} JoinNew(st: Store, at: Places, a: Place, right: bool, y: Place)
    requires Shaped(st, at) && IsTip(at, a)
    ensures Join(Below(a, right), y) !in at
  {
    JoinUnder(Below(a, right), y);
    UnderChild(Join(Below(a, right), y), a);
    if Join(Below(a, right), y) in at { NoneBelow(st, at, a, Join(Below(a, right), y)); }
  }

  /** The ids of three trees in one store are different. */
  ghost predicate Disjoint(at: Places, l: Places, r: Places) {
    && (forall a, y :: a in at && y in l ==> at[a] != l[y]) && (forall a, z :: a in at && z in r ==> at[a] != r[z])
    && (forall y, z :: y in l && z in r ==> l[y] != r[z])
  }

  /** Two trees in the store, about to be hung under node `a` of a third. */
  ghost predicate Graftable(st: Store, at: Places, a: Place, l: Places, r: Places, t: Tree) {
    && Partly(st, at, t) && IsTip(at, a) && Has(t, a) && Sub(t, a).Fork?
    && Partly(st, l, Sub(t, a).left) && Partly(st, r, Sub(t, a).right) && Disjoint(at, l, r)
  }

  /** A place below a child of `a` is in the tree hung there. */
  lemma {:induction false} GraftedAt(st: Store, at: Places, a: Place, l: Places, r: Places, at': Places, right: bool,
                                     y: Place)
    requires Shaped(st, at) && IsTip(at, a) && Grafted(at, a, l, r, at')
    ensures var c, m := Below(a, right), if right then r else l;
      (Join(c, y) in at' <==> y in m) && (y in m ==> at'[Join(c, y)] == m[y])
  {
    var c, m := Below(a, right), if right then r else l;
    var b := Join(c, y);
    JoinNew(st, at, a, right, y);
    if b in at' {
      if From(c, m, b) {
        var z :| z in m && b == Join(c, z);
        JoinInjective(c, y, z);
      } else {
        var z :| z in (if right then l else r) && b == Join(Below(a, !right), z);
        if right { SidesApart(a, z, y); } else { SidesApart(a, y, z); }
      }
    }
  }

  lemma {:induction false} GraftedChild(st: Store, at: Places, a: Place, l: Places, r: Places, at': Places,
                                        right: bool, y: Place, s: bool)
    requires Shaped(st, at) && IsTip(at, a) && Grafted(at, a, l, r, at')
    ensures var c, m := Below(a, right), if right then r else l;
      Below(Join(c, y), s) == Join(c, Below(y, s)) && (Join(c, Below(y, s)) in at' <==> Below(y, s) in m)
  {
    GraftedAt(st, at, a, l, r, at', right, Below(y, s));
  }

  /** Only `a` gets new children. */
  lemma {:induction false} OldChild(st: Store, at: Places, a: Place, l: Places, r: Places, at': Places, x: Place,
                                    s: bool)
    requires Shaped(st, at) && IsTip(at, a) && Grafted(at, a, l, r, at') && x in at && x != a
    ensures Below(x, s) in at' <==> Below(x, s) in at
  {
    if Below(x, s) in at' && Below(x, s) !in at {
      var right, y := Origin(at, a, l, r, at', Below(x, s));
      assert Join(Below(a, right), Apex) == Below(a, right);
      if y != Apex { JoinNew(st, at, a, right, y.up); }
    }
  }

  lemma {:induction false} GraftSeated(st: Store, at: Places, a: Place, l: Places, r: Places, t: Tree, st': Store,
                                       at': Places)
    requires Graftable(st, at, a, l, r, t) && Grafted(at, a, l, r, at') && LinkedUnder(st, st', at[a], l[Apex], r[Apex])
    ensures Seated(st', at')
  {
    hide Hung, HangsAt, Has, Sub;
    forall b | b in at' ensures at'[b] in st' && at'[b] != NIL && (b !in at ==> at'[b] in l.Values + r.Values) {
      var right, y := Origin(at, a, l, r, at', b);
    }
    forall b, c | b in at' && c in at' && at'[b] == at'[c] ensures b == c {
      GraftInjective(at, a, l, r, at', b, c);
    }
  }

  lemma {:induction false} Origin(at: Places, a: Place, l: Places, r: Places, at': Places, b: Place)
    returns (right: bool, y: Place)
    requires Grafted(at, a, l, r, at') && b in at'
    ensures b !in at ==> var m := if right then r else l; y in m && b == Join(Below(a, right), y) && at'[b] == m[y]
  {
    right, y := false, Apex;
    if b !in at {
      if From(Below(a, false), l, b) {
        y :| y in l && b == Join(Below(a, false), y);
      } else {
        right := true;
        y :| y in r && b == Join(Below(a, true), y);
      }
    }
  }

  lemma {:induction false} GraftInjective(at: Places, a: Place, l: Places, r: Places, at': Places, b: Place, c: Place)
    requires Grafted(at, a, l, r, at') && Disjoint(at, l, r) && b in at' && c in at' && at'[b] == at'[c]
    requires (forall x, y :: x in at && y in at && at[x] == at[y] ==> x == y)
    requires (forall x, y :: x in l && y in l && l[x] == l[y] ==> x == y)
      && (forall x, y :: x in r && y in r && r[x] == r[y] ==> x == y)
    ensures b == c
  {
    hide HangsAt, From;
    var rb, y := Origin(at, a, l, r, at', b);
    var rc, z := Origin(at, a, l, r, at', c);
  }

  /** A node that was there. */
  lemma {:induction false} GraftOld(st: Store, at: Places, a: Place, l: Places, r: Places, t: Tree, st': Store,
                                    at': Places, b: Place)
    requires Graftable(st, at, a, l, r, t) && Grafted(at, a, l, r, at') && LinkedUnder(st, st', at[a], l[Apex], r[Apex])
    requires b in at && Seated(st', at')
    ensures Hung(st', at', b) && Has(t, b) && st'[at'[b]].hash == HashIn(t, b)
  {
    assert Hung(st, at, b);
    if b == a {
      assert Join(Below(a, false), Apex) == Below(a, false) && Join(Below(a, true), Apex) == Below(a, true);
    } else {
      OldChild(st, at, a, l, r, at', b, false);
      OldChild(st, at, a, l, r, at', b, true);
    }
  }

  /** A node of one of the trees hung there. */
  lemma {:induction false} GraftNew(st: Store, at: Places, a: Place, l: Places, r: Places, t: Tree, st': Store,
                                    at': Places, right: bool, y: Place)
    requires Graftable(st, at, a, l, r, t) && Grafted(at, a, l, r, at') && LinkedUnder(st, st', at[a], l[Apex], r[Apex])
    requires y in (if right then r else l) && Seated(st', at')
    ensures var b := Join(Below(a, right), y);
      b in at' && Hung(st', at', b) && Has(t, b) && st'[at'[b]].hash == HashIn(t, b)
  {
    var c, m := Below(a, right), if right then r else l;
    assert Hung(st, m, y) && Has(t, c);
    SubJoin(t, c, y);
    GraftedChild(st, at, a, l, r, at', right, y, false);
    GraftedChild(st, at, a, l, r, at', right, y, true);
    if y == Apex {
      assert Join(c, y) == c && Hung(st, at, a);
    } else {
      assert Join(c, y).up == Join(c, y.up) && m[y] != m[Apex];
      assert st'[m[y]] == st[m[y]];
    }
  }

  /** Hanging two trees under a node that stood for them gives one tree. */
  lemma {:induction false} GraftPartly(st: Store, at: Places, a: Place, l: Places, r: Places, t: Tree, st': Store,
                                       at': Places)
    requires Graftable(st, at, a, l, r, t) && Grafted(at, a, l, r, at') && LinkedUnder(st, st', at[a], l[Apex], r[Apex])
    ensures Partly(st', at', t)
  {
    GraftSeated(st, at, a, l, r, t, st', at');
    hide Graftable, Grafted, LinkedUnder;
    forall b | b in at' ensures Hung(st', at', b) && Has(t, b) && st'[at'[b]].hash == HashIn(t, b) {
      var right, y := Origin(at, a, l, r, at', b);
      if b in at {
        GraftOld(st, at, a, l, r, t, st', at', b);
      } else {
        GraftNew(st, at, a, l, r, t, st', at', right, y);
      }
    }
  }

  lemma {:induction false} GraftComplete(at: Places, a: Place, l: Places, r: Places, at': Places, t: Tree, f: Tree)
    requires TipIn(t, a) && f.Fork? && Complete(at, t) && Complete(l, f.left) && Complete(r, f.right)
      && Grafted(at, a, l, r, at')
    ensures Complete(at', Put(t, a, f))
  {
    forall b | Has(Put(t, a, f), b) ensures b in at' { GraftHas(at, a, l, r, at', t, f, b); }
  }

  lemma {:induction false} GraftHas(at: Places, a: Place, l: Places, r: Places, at': Places, t: Tree, f: Tree, b: Place)
    requires TipIn(t, a) && f.Fork? && Complete(at, t) && Complete(l, f.left) && Complete(r, f.right)
      && Grafted(at, a, l, r, at')
    requires Has(Put(t, a, f), b)
    ensures b in at'
  {
    if Under(b, a) && b != a {
      PutHere(t, a, f);
      UnderChild(b, a);
      var right := Under(b, Below(a, true));
      var c := Below(a, right);
      assert Under(b, c);
      SubJoin(Put(t, a, f), c, Rest(b, c));
    } else if b != a {
      PutElsewhere(t, a, f, b);
    }
  }

  // ---------------------------------------------------------------- rehashing on the way up

  /** Its hash is the hash of its children, if it has any. */
  ghost predicate HashOk(st: Store, at: Places, a: Place)
    requires Seated(st, at) && a in at
  {
    Below(a, false) in at && Below(a, true) in at ==>
      st[at[a]].hash == Node(st[at[Below(a, false)]].hash, st[at[Below(a, true)]].hash)
  }

  /** Every node but the parent of `c` fits its children. */
  ghost predicate FitsBut(st: Store, at: Places, c: Place)
    requires Seated(st, at)
  {
    forall a {:trigger HashOk(st, at, a)} :: a in at && (c == Apex || a != c.up) ==> HashOk(st, at, a)
  }

  /** The nodes present are nodes of `t`, and those without children have the hashes they have there. */
  ghost predicate TipsFit(st: Store, at: Places, t: Tree)
    requires Seated(st, at)
  {
    forall a :: a in at ==> Has(t, a) && (IsTip(at, a) ==> st[at[a]].hash == HashIn(t, a))
  }

  lemma {:induction false} PartlyFits(st: Store, at: Places, t: Tree)
    requires Partly(st, at, t)
    ensures FitsBut(st, at, Apex) && TipsFit(st, at, t)
  {
    forall a | a in at ensures HashOk(st, at, a) {
      if Below(a, false) in at && Below(a, true) in at {
        assert HashIn(t, a) == Node(HashIn(t, Below(a, false)), HashIn(t, Below(a, true)));
      }
    }
  }

  lemma {:induction false} FitsPartly(st: Store, at: Places, t: Tree)
    requires Shaped(st, at) && FitsBut(st, at, Apex) && TipsFit(st, at, t)
    ensures Partly(st, at, t)
  {
    forall a | a in at ensures Has(t, a) && st[at[a]].hash == HashIn(t, a) { FitsHash(st, at, t, a); }
  }

  lemma {:induction false} FitsHash(st: Store, at: Places, t: Tree, a: Place)
    requires Shaped(st, at) && FitsBut(st, at, Apex) && TipsFit(st, at, t) && a in at
    ensures Has(t, a) && st[at[a]].hash == HashIn(t, a)
    decreases Sub(t, a)
  {
    assert Hung(st, at, a) && HashOk(st, at, a);
    if Below(a, false) in at {
      FitsHash(st, at, t, Below(a, false));
      FitsHash(st, at, t, Below(a, true));
    }
  }

  /** An update marked by the new hash `x` has done node `c`: every indexed hash with `x` in it is in that of `c`. */
  ghost predicate Marked(index: map<MerkleHash, Id>, st: Store, at: Places, x: MerkleHash, c: Place)
    requires Seated(st, at) && c in at
  {
    Occurs(x, st[at[c]].hash) && forall h :: h in index && Occurs(x, h) ==> Occurs(h, st[at[c]].hash)
  }

  /** An update has done node `c`. If it is `idle`, nothing has changed and nothing will. */
  ghost predicate Rising(st: Store, index: map<MerkleHash, Id>, listening: bool, at: Places, x: MerkleHash, c: Place,
                         idle: bool) {
    && Shaped(st, at) && c in at && FitsBut(st, at, if idle then Apex else c)
    && (listening ==> Exact(index, st, at) && (!idle ==> Marked(index, st, at, x, c)))
  }

  lemma {:induction false} RehashShaped(st: Store, at: Places, c: Place, y: MerkleHash)
    requires Shaped(st, at) && c in at
    ensures Shaped(Rehash(st, at[c], y), at)
  {
    var st' := Rehash(st, at[c], y);
    forall b | b in at ensures Hung(st', at, b) { assert Hung(st, at, b); }
  }

  lemma {:induction false} RehashExact(st: Store, index: map<MerkleHash, Id>, at: Places, c: Place, y: MerkleHash)
    requires Shaped(st, at) && c in at && Exact(index, st, at) && y !in index && Seated(Rehash(st, at[c], y), at)
    ensures Exact(Reindex(index, at[c], st[at[c]].hash, y), Rehash(st, at[c], y), at)
  {
    var st', index' := Rehash(st, at[c], y), Reindex(index, at[c], st[at[c]].hash, y);
    forall b | b in at ensures st'[at[b]].hash in index' && index'[st'[at[b]].hash] == at[b] {}
    forall h | h in index' ensures index'[h] in at.Values && index'[h] in st' && st'[index'[h]].hash == h {
      if h != y {
        var b := PlaceOf(index, st, at, h);
        assert b != c;
      }
    }
  }

  /** A leaf gets a new hash. */
  lemma {:induction false} RiseStart(st: Store, index: map<MerkleHash, Id>, listening: bool, at: Places,
                                     x: MerkleHash, a: Place)
    requires Shaped(st, at) && FitsBut(st, at, Apex) && IsTip(at, a) && (listening ==> Exact(index, st, at))
    requires listening && x != st[at[a]].hash ==> forall h :: h in index ==> !Occurs(x, h)
    ensures Rising(Rehash(st, at[a], x), if listening then Reindex(index, at[a], st[at[a]].hash, x)
      else index, listening, at, x, a, x == st[at[a]].hash)
  {
    var st' := Rehash(st, at[a], x);
    if x == st[at[a]].hash {
      StoreSame(st, at[a], st[at[a]].(hash := x));
    } else {
      RehashShaped(st, at, a, x);
      forall b | b in at && (a == Apex || b != a.up) ensures HashOk(st', at, b) { assert HashOk(st, at, b); }
      if listening {
        assert x !in index;
        RehashExact(st, index, at, a, x);
      }
    }
  }

  /** The parent of `c`, once that is done. */
  lemma {:induction false} RiseStep(st: Store, index: map<MerkleHash, Id>, listening: bool, at: Places, x: MerkleHash,
                                    c: Place, idle: bool, y: MerkleHash)
    requires Rising(st, index, listening, at, x, c, idle) && c != Apex && c.up in at && Below(c.up, false) in at
      && Below(c.up, true) in at
    requires y == Node(st[at[Below(c.up, false)]].hash, st[at[Below(c.up, true)]].hash)
    ensures Rising(Rehash(st, at[c.up], y), if listening then Reindex(index, at[c.up], st[at[c.up]].hash, y)
      else index, listening, at, x, c.up, idle)
    ensures idle ==> y == st[at[c.up]].hash
    ensures listening && y != st[at[c.up]].hash ==> y !in index
  {
    hide Exact, Marked;
    var p := c.up;
    if idle {
      assert HashOk(st, at, p);
      StoreSame(st, at[p], st[at[p]].(hash := y));
    } else {
      RehashShaped(st, at, p, y);
      RiseFits(st, at, c, y);
      if listening { RiseExact(st, index, at, x, c, y); }
    }
  }

  lemma {:induction false} RiseFits(st: Store, at: Places, c: Place, y: MerkleHash)
    requires Shaped(st, at) && c in at && FitsBut(st, at, c) && c != Apex && c.up in at && Below(c.up, false) in at
      && Below(c.up, true) in at
    requires y == Node(st[at[Below(c.up, false)]].hash, st[at[Below(c.up, true)]].hash)
      && Seated(Rehash(st, at[c.up], y), at)
    ensures FitsBut(Rehash(st, at[c.up], y), at, c.up)
  {
    var p, st' := c.up, Rehash(st, at[c.up], y);
    assert Depth(Below(p, false)) > Depth(p) && Depth(Below(p, true)) > Depth(p);
    forall b | b in at && (p == Apex || b != p.up) ensures HashOk(st', at, b) {
      if b != p { assert HashOk(st, at, b); }
    }
  }

  lemma {:induction false} RiseExact(st: Store, index: map<MerkleHash, Id>, at: Places, x: MerkleHash, c: Place,
                                     y: MerkleHash)
    requires Shaped(st, at) && c in at && Exact(index, st, at) && Marked(index, st, at, x, c) && c != Apex && c.up in at
    requires Below(c.up, false) in at && Below(c.up, true) in at
      && y == Node(st[at[Below(c.up, false)]].hash, st[at[Below(c.up, true)]].hash)
    requires Seated(Rehash(st, at[c.up], y), at)
    ensures y !in index
    ensures var st', index' := Rehash(st, at[c.up], y), Reindex(index, at[c.up], st[at[c.up]].hash, y);
      Exact(index', st', at) && Marked(index', st', at, x, c.up)
  {
    var p, h0 := c.up, st[at[c]].hash;
    assert c == Below(p, c.right) && Occurs(h0, y) by { assert Occurs(h0, h0); }
    OccursTrans(x, h0, y);
    if y in index { OccursSize(y, h0); }
    RehashExact(st, index, at, p, y);
    forall h | h in Reindex(index, at[p], st[at[p]].hash, y) && Occurs(x, h) ensures Occurs(h, y) {
      if h != y { OccursTrans(h, h0, y); }
    }
  }

  lemma {:induction false} RiseEnd(st: Store, index: map<MerkleHash, Id>, listening: bool, at: Places, x: MerkleHash,
                                   idle: bool)
    requires Rising(st, index, listening, at, x, Apex, idle)
    ensures Shaped(st, at) && FitsBut(st, at, Apex) && (listening ==> Exact(index, st, at))
  {
  }

  /** The recorded last hash goes on leading to its node. */
  lemma {:induction false} TrackStep(index: map<MerkleHash, Id>, st: Store, at: Places, c: Place, y: MerkleHash,
                                     last: Option<MerkleHash>, id: Id)
    requires Seated(st, at) && Exact(index, st, at) && c in at && (y != st[at[c]].hash ==> y !in index)
      && Tracks(index, last, id)
    ensures Tracks(Reindex(index, at[c], st[at[c]].hash, y), if last == Some(st[at[c]].hash) then Some(y) else last, id)
  {
  }

  /** The tips but `a` carry the hashes they had. */
  ghost predicate TipsKept(st: Store, st': Store, at: Places, a: Place, x: MerkleHash)
    requires Seated(st, at) && Seated(st', at)
  {
    forall b :: IsTip(at, b) ==> st'[at[b]].hash == if b == a then x else st[at[b]].hash
  }

  /** After an update the tree is the one with that tip replaced. */
  lemma {:induction false} Updated(st: Store, at: Places, t: Tree, a: Place, x: MerkleHash, st': Store)
    requires Partly(st, at, t) && a in at && TipIn(t, a)
    requires Shaped(st', at) && FitsBut(st', at, Apex) && TipsKept(st, st', at, a, x)
    ensures Partly(st', at, Put(t, a, Tip(x))) && (Complete(at, t) ==> Complete(at, Put(t, a, Tip(x))))
  {
    var t' := Put(t, a, Tip(x));
    forall b ensures Has(t', b) <==> Has(t, b) { PutTip(t, a, x, b); }
    forall b | b in at && IsTip(at, b) ensures st'[at[b]].hash == HashIn(t', b) {
      if b == a {
        PutHere(t, a, Tip(x));
      } else {
        if Under(a, b) { NoneBelow(st, at, b, a); }
        if Under(b, a) { TipAlone(t, a, b); }
        PutElsewhere(t, a, Tip(x), b);
      }
    }
    FitsPartly(st', at, t');
  }
}
