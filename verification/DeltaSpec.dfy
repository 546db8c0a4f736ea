/** What a delta tree knows of a tree of which it has only the root: the nodes of the paths it was given. */
module DeltaSpec {
  import opened MerkleSpec
  import opened Trees
  import opened MerklePaths
  import opened NodeStore
  import opened PlacedTrees
  import opened Building
  import opened Hooking

  /**
    The original tree, the tree as it is now, and the places of the original one whose nodes are known.
    When the size is known, it was `n0` and is `n` now.
   */
  datatype View = View(orig: Tree, now: Tree, known: set<Place>, n0: nat, n: nat)

  /** Where a node of the original tree is now. */
  ghost function Now(v: View, o: Place): Place {
    if 0 < v.n0 <= v.n then Move(o, v.n0, v.n) else o
  }

  lemma {:induction false} NowInjective(v: View, o: Place, p: Place)
    requires Now(v, o) == Now(v, p)
    ensures o == p
  {
    if 0 < v.n0 <= v.n { MoveInjective(o, p, v.n0, v.n); }
  }

  /** A known node is indexed by its original hash, and its parent and its sibling are known. */
  ghost predicate Listed(v: View, index: map<MerkleHash, Id>, at: Places, o: Place) {
    && Has(v.orig, o) && Now(v, o) in at && HashIn(v.orig, o) in index && index[HashIn(v.orig, o)] == at[Now(v, o)]
    && (o != Apex ==> o.up in v.known && Sibling(o) in v.known)
  }

  /** Nothing below the node is known: it stands for its original subtree, or is a leaf. */
  ghost predicate Bare(v: View, at: Places, o: Place) {
    && Has(v.orig, o) && IsTip(at, Now(v, o)) && Has(v.now, Now(v, o))
    && (if Sub(v.orig, o).Fork? then Sub(v.now, Now(v, o)) == Sub(v.orig, o) else Sub(v.now, Now(v, o)).Tip?)
    && forall y {:trigger Join(o, y)} :: Now(v, Join(o, y)) == Join(Now(v, o), y)
  }

  /** What a delta tree keeps. */
  ghost predicate Knows(v: View, st: Store, index: map<MerkleHash, Id>, at: Places) {
    && (if v.known == {} then at == map[] && v.now == v.orig && v.n0 == 0 else Apex in v.known && Partly(st, at, v.now))
    && (forall o :: o in v.known ==> Listed(v, index, at, o))
    && (forall o :: o in v.known && Below(o, false) !in v.known ==> Bare(v, at, o))
    && (forall o :: Has(v.orig, o) && HashIn(v.orig, o) in index ==> o in v.known)
  }

  // ---------------------------------------------------------------- along a path

  /** From its hash `i` on, the path is that of node `c`. */
  ghost predicate Along(t: Tree, p: MerklePath, i: nat, c: Place) {
    && Has(t, c) && WellFormed(p) && i <= |p.proofPath| && p.hashes[i + 1..] == Proof(t, c)
    && SameSides(p.proofPath[i..], Sides(c))
  }

  lemma {:induction false} AlongStart(t: Tree, p: MerklePath, o: Place)
    requires Has(t, o) && IsPathAt(t, o, p)
    ensures Along(t, p, 0, o) && p.hashes[0] == HashIn(t, o)
  {
    assert p.hashes[1..] == Proof(t, o) && p.proofPath[0..] == p.proofPath;
  }

  lemma {:induction false} SameLength(p: seq<Pos>, q: seq<Pos>)
    requires SameSides(p, q)
    ensures |p| == |q|
  {
  }

  lemma {:induction false} SidesTail(p: seq<Pos>, q: seq<Pos>)
    requires SameSides(p, q) && p != []
    ensures SameSides(p[1..], q[1..]) && (p[0] == LEFT <==> q[0] == LEFT)
  {
  }

  lemma {:induction false} AlongStep(t: Tree, p: MerklePath, i: nat, c: Place)
    requires Along(t, p, i, c)
    ensures WellFormed(p) && (i == |p.proofPath| <==> c == Apex)
    ensures c != Apex ==>
      && i < |p.proofPath| && Has(t, Sibling(c)) && p.hashes[i + 1] == HashIn(t, Sibling(c))
      && (p.proofPath[i] == LEFT <==> c.right)
      && Along(t, p, i + 1, c.up) && Hash(HashIn(t, c), p.hashes[i + 1], p.proofPath[i]) == HashIn(t, c.up)
  {
    SameLength(p.proofPath[i..], Sides(c));
    if c != Apex {
      hide SameSides;
      var q := Sides(c);
      assert Proof(t, c) == [HashIn(t, Sibling(c))] + Proof(t, c.up) && p.hashes[i + 1..][1..] == p.hashes[i + 2..];
      assert q[1..] == Sides(c.up) && p.proofPath[i..][1..] == p.proofPath[i + 1..];
      SidesTail(p.proofPath[i..], q);
      assert HashIn(t, c.up) == Node(HashIn(t, Below(c.up, false)), HashIn(t, Below(c.up, true)));
    }
  }

  // ---------------------------------------------------------------- nodes not yet part of the tree

  /** Exactly the nodes `fresh'`, given by their original places, were added to the index. */
  ghost predicate Indexed(t: Tree, index0: map<MerkleHash, Id>, index: map<MerkleHash, Id>, fresh': Places) {
    && (forall o :: o in fresh' ==> Has(t, o) && HashIn(t, o) in index && index[HashIn(t, o)] == fresh'[o])
    && (forall h :: h in index0 ==> h in index && index[h] == index0[h])
    && (forall h :: h in index ==> h in index0 || IsHashOf(t, fresh', h))
  }

  ghost predicate IsHashOf(t: Tree, fresh': Places, h: MerkleHash) {
    exists o :: o in fresh' && Has(t, o) && HashIn(t, o) == h
  }

  /** The new nodes are those of the tree at `m`, which hangs at `c`. */
  ghost predicate HungAt(c: Place, m: Places, fresh': Places) {
    HangsAt(fresh', c, m) && forall o :: o in fresh' ==> From(c, m, o)
  }

  /** The part of a path up to `c` was built and does not yet hang in the tree. */
  ghost predicate Loose(v: View, st0: Store, st: Store, index0: map<MerkleHash, Id>, index: map<MerkleHash, Id>,
                        c: Place, m: Places, fresh': Places) {
    && Has(v.orig, c) && c !in v.known && Built(st0, st, m, Sub(v.orig, c)) && HungAt(c, m, fresh')
    && Indexed(v.orig, index0, index, fresh')
  }

  lemma {:induction false} IndexOne(t: Tree, index0: map<MerkleHash, Id>, index: map<MerkleHash, Id>, fresh': Places,
                                    o: Place, id: Id)
    requires Indexed(t, index0, index, fresh') && Has(t, o) && HashIn(t, o) !in index
    ensures Indexed(t, index0, index[HashIn(t, o) := id], fresh'[o := id])
  {
    var index', f := index[HashIn(t, o) := id], fresh'[o := id];
    assert f[o] == id;
    forall h | h in index' ensures h in index0 || IsHashOf(t, f, h) {
      if h == HashIn(t, o) {
        assert o in f;
      } else if h !in index0 {
        var p :| p in fresh' && Has(t, p) && HashIn(t, p) == h;
        assert p in f;
      }
    }
  }

  lemma {:induction false} LooseStart(v: View, st0: Store, index0: map<MerkleHash, Id>, at: Places, o: Place, id: Id)
    returns (m: Places, fresh': Places)
    requires Knows(v, st0, index0, at) && Has(v.orig, o) && HashIn(v.orig, o) !in index0 && id !in st0 && id != NIL
    ensures Loose(v, st0, st0[id := Record(HashIn(v.orig, o), NIL, NIL, NIL)], index0,
      index0[HashIn(v.orig, o) := id], o, m, fresh')
    ensures m == map[Apex := id] && fresh' == map[o := id]
  {
    m := BuiltOne(st0, id, HashIn(v.orig, o), Sub(v.orig, o));
    fresh' := map[o := id];
    assert Join(o, Apex) == o && From(o, m, o);
    assert o in v.known ==> Listed(v, index0, at, o);
    IndexOne(v.orig, index0, index0, map[], o, id);
    assert map[][o := id] == fresh';
  }

  /** A node beside or above what is built is not among the new ones. */
  lemma {:induction false} NotFresh(t: Tree, c: Place, m: Places, fresh': Places, o: Place)
    requires Apart(t) && HungAt(c, m, fresh') && Has(t, o) && !Under(o, c)
    ensures !IsHashOf(t, fresh', HashIn(t, o))
  {
    if IsHashOf(t, fresh', HashIn(t, o)) {
      var p :| p in fresh' && Has(t, p) && HashIn(t, p) == HashIn(t, o);
      HashInjective(t, p, o);
      var y :| y in m && o == Join(c, y);
      JoinUnder(c, y);
    }
  }

  lemma {:induction false} UnderSame(y: Place, b: Place)
    requires Under(y, b) && Depth(y) == Depth(b)
    ensures y == b
  {
    if y != b { UnderDepth(y.up, b); }
  }

  lemma {:induction false} Beside(c: Place)
    requires c != Apex
    ensures !Under(Sibling(c), c) && !Under(c.up, c)
  {
    if Under(c.up, c) { UnderDepth(c.up, c); }
    assert Depth(Sibling(c)) == Depth(c) && Depth(c) == Depth(c.up) + 1;
    if Under(Sibling(c), c) { UnderSame(Sibling(c), c); }
  }

  /** The sibling of what is built is new. */
  lemma {:induction false} SiblingNew(v: View, st0: Store, st: Store, index0: map<MerkleHash, Id>,
                                      index: map<MerkleHash, Id>, at: Places,
                                      c: Place, m: Places, fresh': Places)
    requires Apart(v.orig) && Knows(v, st0, index0, at) && Loose(v, st0, st, index0, index, c, m, fresh') && c != Apex
    ensures Has(v.orig, Sibling(c)) && HashIn(v.orig, Sibling(c)) !in index && Sibling(c) !in v.known
  {
    var s := Sibling(c);
    assert Has(v.orig, c.up) && Sub(v.orig, c.up).Fork? && Has(v.orig, s);
    assert Sibling(s) == c;
    assert s in v.known ==> Listed(v, index0, at, s);
    Beside(c);
    NotFresh(v.orig, c, m, fresh', s);
  }

  /** The parent is indexed if and only if it was known, and then under its node. */
  lemma {:induction false} ParentKnown(v: View, st0: Store, st: Store, index0: map<MerkleHash, Id>,
                                       index: map<MerkleHash, Id>, at: Places,
                                       c: Place, m: Places, fresh': Places, id: Id)
    requires Apart(v.orig) && Knows(v, st0, index0, at) && Loose(v, st0, st, index0, index, c, m, fresh') && c != Apex
      && Has(v.orig, Sibling(c))
    ensures Has(v.orig, c.up)
    ensures var index' := index[HashIn(v.orig, Sibling(c)) := id]; HashIn(v.orig, c.up) in index' <==> c.up in v.known
    ensures c.up in v.known ==>
      HashIn(v.orig, c.up) in index && Now(v, c.up) in at && index[HashIn(v.orig, c.up)] == at[Now(v, c.up)]
    ensures HashIn(v.orig, c.up) != HashIn(v.orig, Sibling(c))
  {
    Beside(c);
    NotFresh(v.orig, c, m, fresh', c.up);
    assert HashIn(v.orig, c.up) == Node(HashIn(v.orig, Below(c.up, false)), HashIn(v.orig, Below(c.up, true)));
    NodeNotChild(HashIn(v.orig, Below(c.up, false)), HashIn(v.orig, Below(c.up, true)));
    if c.up in v.known { assert Listed(v, index0, at, c.up); }
  }

  // ---------------------------------------------------------------- joining the two halves

  /** Both halves below `p` were built, given by their original places. */
  ghost predicate Pair(p: Place, l: Places, r: Places, fresh': Places) {
    && HangsAt(fresh', Below(p, false), l) && HangsAt(fresh', Below(p, true), r)
    && forall o :: o in fresh' ==> From(Below(p, false), l, o) || From(Below(p, true), r, o)
  }

  lemma {:induction false} PairUp(c: Place, m: Places, fresh': Places, id: Id)
    requires c != Apex && HungAt(c, m, fresh') && Sibling(c) !in fresh'
    ensures var one := map[Apex := id];
      Pair(c.up, if c.right then one else m, if c.right then m else one, fresh'[Sibling(c) := id])
  {
    var one, f := map[Apex := id], fresh'[Sibling(c) := id];
    assert Join(Sibling(c), Apex) == Sibling(c) && From(Sibling(c), one, Sibling(c));
    assert HangsAt(f, Sibling(c), one);
    assert HangsAt(f, c, m);
    assert c == Below(c.up, c.right);
  }

  /** In original places, the new nodes below `p` are those below `q` in the tree. */
  ghost predicate Mirror(fresh': Places, p: Place, at: Places, q: Place) {
    && (forall o :: o in fresh' ==> Under(o, p) && o != p)
    && forall z {:trigger Join(p, z)} {:trigger Join(q, z)} :: z != Apex ==>
         (Join(p, z) in fresh' <==> Join(q, z) in at) && (Join(p, z) in fresh' ==> fresh'[Join(p, z)] == at[Join(q, z)])
  }

  lemma {:induction false} PairAt(p: Place, l: Places, r: Places, fresh': Places, right: bool, y: Place)
    requires Pair(p, l, r, fresh')
    ensures var c, m := Below(p, right), if right then r else l;
      (Join(c, y) in fresh' <==> y in m) && (y in m ==> fresh'[Join(c, y)] == m[y])
  {
    var c, m := Below(p, right), if right then r else l;
    var b := Join(c, y);
    if b in fresh' {
      if From(c, m, b) {
        var z :| z in m && b == Join(c, z);
        JoinInjective(c, y, z);
      } else {
        var z :| z in (if right then l else r) && b == Join(Below(p, !right), z);
        if right { SidesApart(p, z, y); } else { SidesApart(p, y, z); }
      }
    }
  }

  lemma {:induction false} PairUnder(p: Place, l: Places, r: Places, fresh': Places, o: Place)
    requires Pair(p, l, r, fresh') && o in fresh'
    ensures Under(o, p) && o != p
  {
    var right := From(Below(p, true), r, o);
    var y :| y in (if right then r else l) && o == Join(Below(p, right), y);
    JoinUnder(Below(p, right), y);
    UnderChild(o, p);
  }

  lemma {:induction false} MirrorAt(st: Store, at: Places, q: Place, l: Places, r: Places, at': Places, p: Place,
                                    fresh': Places, z: Place)
    requires Shaped(st, at) && IsTip(at, q) && Grafted(at, q, l, r, at') && Pair(p, l, r, fresh') && z != Apex
    ensures Join(p, z) in fresh' <==> Join(q, z) in at'
    ensures Join(p, z) in fresh' ==> fresh'[Join(p, z)] == at'[Join(q, z)]
  {
    UnderApex(z);
    UnderChild(z, Apex);
    var right := Under(z, Below(Apex, true));
    assert Under(z, Below(Apex, right));
    var y := Rest(z, Below(Apex, right));
    JoinChild(p, right, y);
    JoinChild(q, right, y);
    PairAt(p, l, r, fresh', right, y);
    GraftedAt(st, at, q, l, r, at', right, y);
  }

  lemma {:induction false} MirrorAll(st: Store, at: Places, q: Place, l: Places, r: Places, at': Places, p: Place,
                                     fresh': Places)
    requires Shaped(st, at) && IsTip(at, q) && Grafted(at, q, l, r, at') && Pair(p, l, r, fresh')
    ensures Mirror(fresh', p, at', q)
  {
    hide Shaped, Grafted, Pair, IsTip;
    forall o | o in fresh' ensures Under(o, p) && o != p { PairUnder(p, l, r, fresh', o); }
    forall z | z != Apex
      ensures (Join(p, z) in fresh' <==> Join(q, z) in at')
        && (Join(p, z) in fresh' ==> fresh'[Join(p, z)] == at'[Join(q, z)])
    {
      MirrorAt(st, at, q, l, r, at', p, fresh', z);
    }
  }

  /** With a new parent, the halves are a larger part that does not yet hang in the tree. */
  lemma {:induction false} LooseJoin(v: View, st0: Store, st: Store, index0: map<MerkleHash, Id>,
                                     index: map<MerkleHash, Id>, at: Places,
                                     p: Place, l: Places, r: Places, fresh': Places, id: Id,
                                     st': Store) returns (m: Places)
    requires Apart(v.orig) && Has(v.orig, p) && Sub(v.orig, p).Fork? && p !in v.known && HashIn(v.orig, p) !in index
      && id !in st && id != NIL
    requires BuiltBoth(st0, st, l, Sub(v.orig, p).left, r, Sub(v.orig, p).right) && Pair(p, l, r, fresh')
      && Indexed(v.orig, index0, index, fresh')
    requires LinkedUnder(st[id := Record(HashIn(v.orig, p), NIL, NIL, NIL)], st', id, l[Apex], r[Apex])
    ensures Loose(v, st0, st', index0, index[HashIn(v.orig, p) := id], p, m, fresh'[p := id]) && Apex in m
      && m[Apex] == id
  {
    var t, rec := Sub(v.orig, p), Record(HashIn(v.orig, p), NIL, NIL, NIL);
    hide Partly, Indexed;
    BuiltBeside(st0, st, l, t.left, r, t.right, id, rec);
    m := BuiltJoin(st0, st[id := rec], id, l, t.left, r, t.right, st');
    IndexOne(v.orig, index0, index, fresh', p, id);
    LooseHung(p, l, r, fresh', id, m);
  }

  lemma {:induction false} LooseHung(p: Place, l: Places, r: Places, fresh': Places, id: Id, m: Places)
    requires Pair(p, l, r, fresh') && Grafted(map[Apex := id], Apex, l, r, m)
    ensures HungAt(p, m, fresh'[p := id])
  {
    var one, f := map[Apex := id], fresh'[p := id];
    hide Pair, Grafted;
    forall y | y in m ensures Join(p, y) in f && f[Join(p, y)] == m[y] { LooseDown(p, l, r, fresh', id, m, y); }
    forall o | o in f ensures From(p, m, o) { LooseFrom(p, l, r, fresh', id, m, o); }
  }

  lemma {:induction false} LooseDown(p: Place, l: Places, r: Places, fresh': Places, id: Id, m: Places, y: Place)
    requires Pair(p, l, r, fresh') && Grafted(map[Apex := id], Apex, l, r, m) && y in m
    ensures var f := fresh'[p := id]; Join(p, y) in f && f[Join(p, y)] == m[y]
  {
    if y != Apex {
      var right, w := Origin(map[Apex := id], Apex, l, r, m, y);
      JoinChild(p, right, w);
      PairAt(p, l, r, fresh', right, w);
      PairUnder(p, l, r, fresh', Join(p, y));
    }
  }

  lemma {:induction false} LooseFrom(p: Place, l: Places, r: Places, fresh': Places, id: Id, m: Places, o: Place)
    requires Pair(p, l, r, fresh') && Grafted(map[Apex := id], Apex, l, r, m) && o in fresh'[p := id]
    ensures From(p, m, o)
  {
    if o == p {
      assert Apex in m && Join(p, Apex) == p;
    } else {
      var right := From(Below(p, true), r, o);
      var y :| y in (if right then r else l) && o == Join(Below(p, right), y);
      JoinChild(p, right, y);
      assert Join(Below(Apex, right), y) in m;
    }
  }

  // ---------------------------------------------------------------- hanging them in the tree

  /** The new nodes below known node `p`, and the tree they now hang in. */
  ghost predicate Attached(v: View, st0: Store, index0: map<MerkleHash, Id>, at: Places, index: map<MerkleHash, Id>,
                           p: Place, fresh': Places, st': Store, at': Places) {
    && Apart(v.orig) && Knows(v, st0, index0, at) && p in v.known && Has(v.orig, p) && Sub(v.orig, p).Fork?
    && Bare(v, at, p)
    && Partly(st', at', v.now) && (forall b :: b in at ==> b in at' && at'[b] == at[b])
    && (forall b :: b in at && b != Now(v, p) ==> (IsTip(at', b) <==> IsTip(at, b)))
    && Mirror(fresh', p, at', Now(v, p)) && Indexed(v.orig, index0, index, fresh') && Below(p, false) in fresh'
    && Below(p, true) in fresh'
  }

  /** A node that was known. */
  lemma {:induction false} AttachOld(v: View, st0: Store, index0: map<MerkleHash, Id>, at: Places,
                                     index: map<MerkleHash, Id>, p: Place, fresh': Places,
                                     st': Store, at': Places, v': View, o: Place)
    requires Attached(v, st0, index0, at, index, p, fresh', st', at') && v' == v.(known := v.known + fresh'.Keys)
      && o in v.known
    ensures Listed(v', index, at', o) && (Below(o, false) !in v'.known ==> Bare(v', at', o))
  {
    assert Listed(v, index0, at, o);
    if Below(o, false) !in v'.known {
      assert Bare(v, at, o);
      if Now(v, o) == Now(v, p) { NowInjective(v, o, p); }
      forall y ensures Now(v', Join(o, y)) == Join(Now(v', o), y) { assert Now(v, Join(o, y)) == Join(Now(v, o), y); }
    }
  }

  /** A new node. */
  lemma {:induction false} AttachNew(v: View, st0: Store, index0: map<MerkleHash, Id>, at: Places,
                                     index: map<MerkleHash, Id>, p: Place, fresh': Places,
                                     st': Store, at': Places, v': View, o: Place)
    requires Attached(v, st0, index0, at, index, p, fresh', st', at') && v' == v.(known := v.known + fresh'.Keys)
      && o in fresh'
    ensures Listed(v', index, at', o) && (Below(o, false) !in v'.known ==> Bare(v', at', o))
  {
    var q, z := Now(v, p), Rest(o, p);
    assert o == Join(p, z) && z != Apex && Now(v', o) == Join(q, z) && Join(q, z) in at';
    AttachUp(fresh', p, st', at', q, z);
    if Below(o, false) !in v'.known {
      AttachBare(v, at, p, at', v', z);
      assert Join(p, Below(z, false)) == Below(o, false);
      AttachTip(st', at', q, z, fresh', p);
    }
  }

  lemma {:induction false} AttachTip(st': Store, at': Places, q: Place, z: Place, fresh': Places, p: Place)
    requires Shaped(st', at') && Mirror(fresh', p, at', q) && Join(q, z) in at' && Join(p, Below(z, false)) !in fresh'
    ensures IsTip(at', Join(q, z))
  {
    assert Hung(st', at', Join(q, z));
    assert Join(q, Below(z, false)) == Below(Join(q, z), false);
  }

  lemma {:induction false} AttachUp(fresh': Places, p: Place, st': Store, at': Places, q: Place, z: Place)
    requires Shaped(st', at') && Mirror(fresh', p, at', q) && z != Apex && Join(p, z) in fresh'
      && Below(p, false) in fresh' && Below(p, true) in fresh'
    ensures Join(p, z).up == p || Join(p, z).up in fresh'
    ensures Sibling(Join(p, z)) in fresh'
  {
    assert Join(p, z).up == Join(p, z.up) && Sibling(Join(p, z)) == Join(p, Sibling(z))
      && Sibling(Join(q, z)) == Join(q, Sibling(z));
    UnderParent(st', at', Join(q, z));
    assert Join(q, z).up == Join(q, z.up);
  }

  /** It stands for what it stood for as part of `p`. */
  lemma {:induction false} AttachBare(v: View, at: Places, p: Place, at': Places, v': View, z: Place)
    requires Bare(v, at, p) && Sub(v.orig, p).Fork? && Has(v.orig, Join(p, z)) && v'.orig == v.orig && v'.now == v.now
      && v'.n0 == v.n0 && v'.n == v.n
    ensures var o := Join(p, z);
      && Has(v'.orig, o) && Now(v', o) == Join(Now(v, p), z) && Has(v'.now, Now(v', o))
      && Sub(v'.now, Now(v', o)) == Sub(v'.orig, o)
      && forall y {:trigger Join(o, y)} :: Now(v', Join(o, y)) == Join(Now(v', o), y)
  {
    var o, q := Join(p, z), Now(v, p);
    SubJoin(v.orig, p, z);
    SubJoin(v.now, q, z);
    forall y ensures Now(v', Join(o, y)) == Join(Now(v', o), y) {
      JoinAssoc(p, z, y);
      JoinAssoc(q, z, y);
      assert Now(v, Join(p, Join(z, y))) == Join(q, Join(z, y));
    }
  }

  /** The new nodes are known, like those before. */
  lemma {:induction false} AttachKnown(v: View, st0: Store, index0: map<MerkleHash, Id>, at: Places,
                                       index: map<MerkleHash, Id>, p: Place, fresh': Places,
                                       st': Store, at': Places)
    requires Attached(v, st0, index0, at, index, p, fresh', st', at')
    ensures Knows(v.(known := v.known + fresh'.Keys), st', index, at')
  {
    var v' := v.(known := v.known + fresh'.Keys);
    hide Partly, Listed, Bare, Mirror;
    forall o | o in v'.known ensures Listed(v', index, at', o) && (Below(o, false) !in v'.known ==> Bare(v', at', o)) {
      hide Attached;
      if o in v.known {
        AttachOld(v, st0, index0, at, index, p, fresh', st', at', v', o);
      } else {
        AttachNew(v, st0, index0, at, index, p, fresh', st', at', v', o);
      }
    }
    forall o | Has(v.orig, o) && HashIn(v.orig, o) in index ensures o in v'.known {
      OnlyKnown(v, index0, index, fresh', o);
    }
  }

  lemma {:induction false} OnlyKnown(v: View, index0: map<MerkleHash, Id>, index: map<MerkleHash, Id>, fresh': Places,
                                     o: Place)
    requires Apart(v.orig) && Indexed(v.orig, index0, index, fresh') && Has(v.orig, o) && HashIn(v.orig, o) in index
    requires HashIn(v.orig, o) in index0 ==> o in v.known
    ensures o in v.known || o in fresh'
  {
    if HashIn(v.orig, o) !in index0 {
      assert IsHashOf(v.orig, fresh', HashIn(v.orig, o));
      var p :| p in fresh' && Has(v.orig, p) && HashIn(v.orig, p) == HashIn(v.orig, o);
      HashInjective(v.orig, o, p);
    }
  }

  /** The halves hung under known node `p`. */
  lemma {:induction false} HangUnder(v: View, st0: Store, st: Store, index0: map<MerkleHash, Id>,
                                     index: map<MerkleHash, Id>, at: Places,
                                     p: Place, l: Places, r: Places, fresh': Places, st': Store) returns (at': Places)
    requires Apart(v.orig) && Knows(v, st0, index0, at) && p in v.known && Below(p, false) !in v.known
      && Has(v.orig, p) && Sub(v.orig, p).Fork?
    requires BuiltBoth(st0, st, l, Sub(v.orig, p).left, r, Sub(v.orig, p).right) && Pair(p, l, r, fresh')
      && Indexed(v.orig, index0, index, fresh')
    requires Now(v, p) in at && at[Now(v, p)] in st && LinkedUnder(st, st', at[Now(v, p)], l[Apex], r[Apex])
    ensures Knows(v.(known := v.known + fresh'.Keys), st', index, at')
    ensures forall b :: b in at ==> b in at' && at'[b] == at[b]
  {
    hide Partly, Listed, BuiltBoth, Mirror, Indexed, Pair, LinkedUnder;
    HangReady(v, st0, st, at, p, l, r);
    at' := HangParts(st, at, v.now, Now(v, p), l, r, st', p, fresh');
    PairTop(st, p, l, Sub(v.orig, p).left, r, Sub(v.orig, p).right, fresh');
    AttachKnown(v, st0, index0, at, index, p, fresh', st', at');
  }

  lemma {:induction false} HangReady(v: View, st0: Store, st: Store, at: Places, p: Place, l: Places, r: Places)
    requires Partly(st0, at, v.now) && Bare(v, at, p) && Sub(v.orig, p).Fork?
    requires BuiltBoth(st0, st, l, Sub(v.orig, p).left, r, Sub(v.orig, p).right)
    ensures Graftable(st, at, Now(v, p), l, r, v.now)
  {
    PartlyFrame(st0, st, at, v.now);
    HookDisjoint(st0, st, at, l, Sub(v.orig, p).left, r, Sub(v.orig, p).right);
  }

  lemma {:induction false} PairTop(st: Store, p: Place, l: Places, tl: Tree, r: Places, tr: Tree, fresh': Places)
    requires Pair(p, l, r, fresh') && Partly(st, l, tl) && Partly(st, r, tr)
    ensures Below(p, false) in fresh' && Below(p, true) in fresh'
  {
    assert Join(Below(p, false), Apex) == Below(p, false) && Join(Below(p, true), Apex) == Below(p, true);
  }

  lemma {:induction false} HangParts(st: Store, at: Places, now: Tree, q: Place, l: Places, r: Places, st': Store,
                                     p: Place, fresh': Places)
    returns (at': Places)
    requires Graftable(st, at, q, l, r, now) && LinkedUnder(st, st', at[q], l[Apex], r[Apex]) && Pair(p, l, r, fresh')
    ensures Partly(st', at', now) && Mirror(fresh', p, at', q) && forall b :: b in at ==> b in at' && at'[b] == at[b]
    ensures forall b :: b in at && b != q ==> (IsTip(at', b) <==> IsTip(at, b))
  {
    at' := Graft(st, at, q, l, r);
    GraftPartly(st, at, q, l, r, now, st', at');
    MirrorAll(st, at, q, l, r, at', p, fresh');
    forall b | b in at && b != q ensures IsTip(at', b) <==> IsTip(at, b) {
      OldChild(st, at, q, l, r, at', b, false);
      OldChild(st, at, q, l, r, at', b, true);
    }
  }

  /** A path built up to the root of a tree of which nothing was known. */
  lemma {:induction false} HangWhole(v: View, st0: Store, st: Store, index0: map<MerkleHash, Id>,
                                     index: map<MerkleHash, Id>, at: Places, m: Places, fresh': Places)
    requires Apart(v.orig) && Knows(v, st0, index0, at) && Loose(v, st0, st, index0, index, Apex, m, fresh')
    ensures v.known == {} && fresh' == m && Knows(v.(known := m.Keys), st, index, m)
  {
    hide Partly, Listed, Bare, HungAt, Apart, IsHashOf;
    WholeFresh(m, fresh');
    assert v.known == {};
    forall o | Has(v.orig, o) && HashIn(v.orig, o) in index ensures o in m { OnlyKnown(v, index0, index, fresh', o); }
    hide Knows;
    WholeKnows(v.(known := m.Keys), st, index, m);
  }

  lemma {:induction false} WholeKnows(v: View, st: Store, index: map<MerkleHash, Id>, m: Places)
    requires v.now == v.orig && v.n0 == 0 && v.known == m.Keys && Partly(st, m, v.orig)
    requires forall o :: o in m ==> Has(v.orig, o) && HashIn(v.orig, o) in index && index[HashIn(v.orig, o)] == m[o]
    requires forall o :: Has(v.orig, o) && HashIn(v.orig, o) in index ==> o in m
    ensures Knows(v, st, index, m)
  {
    assert Apex in m;
    hide Partly, Listed, Bare;
    forall o | o in m ensures Listed(v, index, m, o) && (Below(o, false) !in m ==> Bare(v, m, o)) {
      WholeKnown(v, st, index, m, o);
    }
  }

  lemma {:induction false} WholeFresh(m: Places, fresh': Places)
    requires HungAt(Apex, m, fresh')
    ensures fresh' == m
  {
    forall y ensures Join(Apex, y) == y { JoinApex(y); }
    forall y | y in m ensures y in fresh' && fresh'[y] == m[y] { assert Join(Apex, y) in fresh'; }
    forall o | o in fresh' ensures o in m {
      var y :| y in m && o == Join(Apex, y);
    }
  }

  lemma {:induction false} WholeKnown(v: View, st: Store, index: map<MerkleHash, Id>, m: Places, o: Place)
    requires v.now == v.orig && v.n0 == 0 && v.known == m.Keys && Partly(st, m, v.orig) && o in m && Has(v.orig, o)
      && HashIn(v.orig, o) in index && index[HashIn(v.orig, o)] == m[o]
    ensures Listed(v, index, m, o) && (Below(o, false) !in m ==> Bare(v, m, o))
  {
    assert Hung(st, m, o);
    if o != Apex { UnderParent(st, m, o); }
  }

  // ---------------------------------------------------------------- what is in the index

  /** `h` is the hash of a known node in the original tree. */
  ghost predicate IsOld(t: Tree, known: set<Place>, h: MerkleHash) {
    exists o :: o in known && Has(t, o) && HashIn(t, o) == h
  }

  /** The index has original hashes of known nodes only. */
  ghost predicate OnlyOld(t: Tree, known: set<Place>, index: map<MerkleHash, Id>) {
    forall h :: h in index ==> IsOld(t, known, h)
  }

  /** Only such hashes were added. */
  ghost predicate Extends(t: Tree, index0: map<MerkleHash, Id>, index: map<MerkleHash, Id>, known: set<Place>) {
    && (forall h :: h in index0 ==> h in index && index[h] == index0[h])
    && (forall h :: h in index ==> h in index0 || IsOld(t, known, h))
  }

  lemma {:induction false} OldGrew(t: Tree, known0: set<Place>, known: set<Place>, index0: map<MerkleHash, Id>,
                                   index: map<MerkleHash, Id>)
    requires known0 <= known && Extends(t, index0, index, known)
    ensures OnlyOld(t, known0, index0) ==> OnlyOld(t, known, index)
  {
  }

  lemma {:induction false} AttachExtends(t: Tree, index0: map<MerkleHash, Id>, index: map<MerkleHash, Id>,
                                         fresh': Places, known: set<Place>)
    requires Indexed(t, index0, index, fresh') && fresh'.Keys <= known
    ensures Extends(t, index0, index, known)
  {
    forall h | h in index && h !in index0 ensures IsOld(t, known, h) {
      var o :| o in fresh' && Has(t, o) && HashIn(t, o) == h;
      assert o in fresh'.Keys;
    }
  }

  lemma {:induction false} WholeExtends(v: View, st0: Store, st: Store, index0: map<MerkleHash, Id>,
                                        index: map<MerkleHash, Id>, at: Places, m: Places, fresh': Places)
    requires Loose(v, st0, st, index0, index, Apex, m, fresh') && fresh' == m
    ensures Extends(v.orig, index0, index, m.Keys)
  {
    AttachExtends(v.orig, index0, index, fresh', m.Keys);
  }

  lemma {:induction false} SiblingKnown(v: View, st: Store, index: map<MerkleHash, Id>, at: Places, c: Place)
    requires Knows(v, st, index, at) && c in v.known && c != Apex
    ensures Has(v.orig, Sibling(c)) && HashIn(v.orig, Sibling(c)) in index
  {
    assert Listed(v, index, at, c) && Listed(v, index, at, Sibling(c));
  }

  lemma {:induction false} AlongEnd(t: Tree, p: MerklePath, i: nat, c: Place)
    requires Along(t, p, i, c) && i == |p.proofPath|
    ensures c == Apex
  {
  }

  /** The node and its sibling are the halves below their parent. */
  lemma {:induction false} PairReady(v: View, st0: Store, st1: Store, index0: map<MerkleHash, Id>,
                                     index1: map<MerkleHash, Id>, at: Places,
                                     c: Place, m: Places, fresh': Places, id: Id) returns (l: Places, r: Places,
                                     f: Places)
    requires Apart(v.orig) && Knows(v, st0, index0, at) && Loose(v, st0, st1, index0, index1, c, m, fresh') && c != Apex
    requires Has(v.orig, Sibling(c)) && HashIn(v.orig, Sibling(c)) !in index1 && id !in st1 && id != NIL
    ensures f == fresh'[Sibling(c) := id] && Has(v.orig, c.up) && Sub(v.orig, c.up).Fork? && Pair(c.up, l, r, f)
    ensures var one := map[Apex := id]; l == (if c.right then one else m) && r == (if c.right then m else one)
    ensures var h := HashIn(v.orig, Sibling(c));
      && BuiltBoth(st0, st1[id := Record(h, NIL, NIL, NIL)], l, Sub(v.orig, c.up).left, r, Sub(v.orig, c.up).right)
      && Indexed(v.orig, index0, index1[h := id], f)
  {
    hide Knows, Partly;
    var s, h := Sibling(c), HashIn(v.orig, Sibling(c));
    var t, st2 := Sub(v.orig, c.up), st1[id := Record(h, NIL, NIL, NIL)];
    assert c == Below(c.up, c.right) && s == Below(c.up, !c.right);
    var one := BuiltOne(st1, id, h, Sub(v.orig, s));
    BuiltNext(st0, st1, st2, m, Sub(v.orig, c), one, Sub(v.orig, s));
    if c.right { BuiltOtherWay(st0, st2, m, Sub(v.orig, c), one, Sub(v.orig, s)); }
    IndexOne(v.orig, index0, index1, fresh', s, id);
    SiblingFresh(c, m, fresh');
    PairUp(c, m, fresh', id);
    l, r, f := if c.right then one else m, if c.right then m else one, fresh'[s := id];
  }

  lemma {:induction false} SiblingFresh(c: Place, m: Places, fresh': Places)
    requires c != Apex && HungAt(c, m, fresh')
    ensures Sibling(c) !in fresh'
  {
    Beside(c);
    if Sibling(c) in fresh' {
      var y :| y in m && Sibling(c) == Join(c, y);
      JoinUnder(c, y);
    }
  }

  /** The parent is none of the new nodes. */
  lemma {:induction false} ParentApart(v: View, st0: Store, st: Store, index0: map<MerkleHash, Id>, at: Places,
                                       p: Place, l: Places, tl: Tree, r: Places, tr: Tree, id: Id)
    requires Knows(v, st0, index0, at) && BuiltBoth(st0, st, l, tl, r, tr)
    requires id !in st || (p in v.known && Now(v, p) in at && id == at[Now(v, p)])
    ensures id != l[Apex] && id != r[Apex] && l[Apex] != r[Apex] && l[Apex] in st && r[Apex] in st
    ensures p in v.known && Now(v, p) in at ==> at[Now(v, p)] in st && at[Now(v, p)] in st0
  {
    hide Listed, Bare;
  }

  /** What is not known has a sibling that is not. */
  lemma {:induction false} NotBelow(v: View, st: Store, index: map<MerkleHash, Id>, at: Places, c: Place)
    requires Knows(v, st, index, at) && c != Apex && c !in v.known
    ensures Below(c.up, false) !in v.known
  {
    var s := Below(c.up, false);
    assert s in v.known ==> Listed(v, index, at, s);
  }
}
