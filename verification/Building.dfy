/** Trees built bottom up: nodes without neighbours, joined two at a time under new ones. */
module Building {
  import opened Bits
  import opened MerkleSpec
  import opened Trees
  import opened NodeStore
  import opened PlacedTrees

  /** The nodes added to `st0` are those of one tree, a part of `t`. */
  ghost predicate Built(st0: Store, st: Store, at: Places, t: Tree) {
    && Partly(st, at, t) && (forall a :: a in at ==> at[a] !in st0)
    && (forall id :: id in st0 ==> id in st && st[id] == st0[id])
    && (forall id :: id in st ==> id in st0 || id in at.Values)
  }

  /** The nodes added are those of two trees. */
  ghost predicate BuiltBoth(st0: Store, st: Store, l: Places, tl: Tree, r: Places, tr: Tree) {
    && Partly(st, l, tl) && Partly(st, r, tr) && (forall a :: a in l ==> l[a] !in st0)
    && (forall a :: a in r ==> r[a] !in st0)
    && (forall y, z :: y in l && z in r ==> l[y] != r[z])
    && (forall id :: id in st0 ==> id in st && st[id] == st0[id])
    && (forall id :: id in st ==> id in st0 || id in l.Values || id in r.Values)
  }

  lemma {:induction false} BuiltOne(st0: Store, id: Id, h: MerkleHash, t: Tree) returns (at: Places)
    requires id !in st0 && id != NIL && h == RootOf(t)
    ensures at == map[Apex := id] && Built(st0, st0[id := Record(h, NIL, NIL, NIL)], at, t)
      && (t.Tip? ==> Complete(at, t))
  {
    at := map[Apex := id];
    PartlyOne(st0[id := Record(h, NIL, NIL, NIL)], id, t);
    assert at[Apex] == id;
  }

  lemma {:induction false} BuiltKeeps(st0: Store, st: Store, at: Places, t: Tree)
    requires Built(st0, st, at, t)
    ensures forall id :: id in st0 ==> id in st && st[id] == st0[id]
    ensures at[Apex] in st && at[Apex] !in st0 && st[at[Apex]].hash == RootOf(t)
  {
  }

  lemma {:induction false} BuiltNext(st0: Store, st1: Store, st2: Store, l: Places, tl: Tree, r: Places, tr: Tree)
    requires Built(st0, st1, l, tl) && Built(st1, st2, r, tr)
    ensures BuiltBoth(st0, st2, l, tl, r, tr)
  {
    PartlyFrame(st1, st2, l, tl);
    hide Partly;
    forall id | id in st2 ensures id in st0 || id in l.Values || id in r.Values {}
  }

  lemma {:induction false} BuiltOtherWay(st0: Store, st: Store, l: Places, tl: Tree, r: Places, tr: Tree)
    requires BuiltBoth(st0, st, l, tl, r, tr)
    ensures BuiltBoth(st0, st, r, tr, l, tl)
  {
    hide Partly;
  }

  /** A node without neighbours beside them. */
  lemma {:induction false} BuiltBeside(st0: Store, st: Store, l: Places, tl: Tree, r: Places, tr: Tree, id: Id,
                                       rec: Record)
    requires BuiltBoth(st0, st, l, tl, r, tr) && id !in st
    ensures BuiltBoth(st0[id := rec], st[id := rec], l, tl, r, tr)
  {
    PartlyFrame(st, st[id := rec], l, tl);
    PartlyFrame(st, st[id := rec], r, tr);
    hide Partly;
  }

  lemma {:induction false} ApexPlaced(st: Store, at: Places, t: Tree)
    requires Partly(st, at, t)
    ensures Apex in at && forall a :: a in at ==> at[a] in st
  {
  }

  /** Two trees joined under a new node are one tree. */
  lemma {:induction false} BuiltJoin(st0: Store, st: Store, id: Id, l: Places, tl: Tree, r: Places, tr: Tree,
                                     st': Store)
    returns (at': Places)
    requires id !in st0 && id != NIL
      && BuiltBoth(st0[id := Record(Node(RootOf(tl), RootOf(tr)), NIL, NIL, NIL)], st, l, tl, r, tr)
    requires LinkedUnder(st, st', id, l[Apex], r[Apex])
    ensures Built(st0, st', at', Fork(tl, tr)) && at'[Apex] == id && Grafted(map[Apex := id], Apex, l, r, at')
    ensures Complete(l, tl) && Complete(r, tr) ==> Complete(at', Fork(tl, tr))
  {
    hide Partly, Complete;
    var t, one := Fork(tl, tr), map[Apex := id];
    ApexPlaced(st, l, tl);
    ApexPlaced(st, r, tr);
    PartlyOne(st, id, t);
    assert Sub(t, Apex) == t;
    at' := Graft(st, one, Apex, l, r);
    GraftPartly(st, one, Apex, l, r, t, st', at');
    JoinedIds(st0, st, id, l, r, st', at');
    if Complete(l, tl) && Complete(r, tr) { JoinComplete(st, id, l, tl, r, tr, at'); }
  }

  lemma {:induction false} JoinComplete(st: Store, id: Id, l: Places, tl: Tree, r: Places, tr: Tree, at': Places)
    requires id in st && id != NIL && st[id] == Record(Node(RootOf(tl), RootOf(tr)), NIL, NIL, NIL)
    requires Grafted(map[Apex := id], Apex, l, r, at') && Complete(l, tl) && Complete(r, tr)
    ensures Complete(at', Fork(tl, tr))
  {
    hide Partly;
    var t := Fork(tl, tr);
    PartlyOne(st, id, Tip(RootOf(t)));
    assert Sub(t, Apex) == t;
    GraftComplete(map[Apex := id], Apex, l, r, at', Tip(RootOf(t)), t);
  }

  lemma {:induction false} JoinedIds(st0: Store, st: Store, id: Id, l: Places, r: Places, st': Store, at': Places)
    requires Grafted(map[Apex := id], Apex, l, r, at') && id !in st0 && id in st && Apex in l && Apex in r
      && l[Apex] in st && r[Apex] in st
    requires (forall a :: a in l ==> l[a] !in st0) && (forall a :: a in r ==> r[a] !in st0)
    requires (forall i :: i in st0 ==> i in st && st[i] == st0[i]) && LinkedUnder(st, st', id, l[Apex], r[Apex])
    requires forall i :: i in st ==> i in st0 || i == id || i in l.Values || i in r.Values
    ensures (forall a :: a in at' ==> at'[a] !in st0) && (forall i :: i in st0 ==> i in st' && st'[i] == st0[i])
    ensures forall i :: i in st' ==> i in st0 || i in at'.Values
  {
    forall a | a in at' ensures at'[a] !in st0 {
      var right, y := Origin(map[Apex := id], Apex, l, r, at', a);
    }
    forall i | i in st' ensures i in st0 || i in at'.Values {
      if i in l.Values {
        var y :| y in l && l[y] == i;
        assert at'[Join(Below(Apex, false), y)] == i;
      } else if i in r.Values {
        var y :| y in r && r[y] == i;
        assert at'[Join(Below(Apex, true), y)] == i;
      } else if i == id {
        assert at'[Apex] == i;
      }
    }
  }

  // ---------------------------------------------------------------- what a build leaves in the index

  /** Every node but those outside has its hash indexed, and every entry leads to such a node with that hash. */
  ghost predicate Filed(index: map<MerkleHash, Id>, st: Store, outside: set<Id>) {
    && (forall id :: id in st && id !in outside ==> st[id].hash in index)
    && (forall h :: h in index ==> index[h] in st && index[h] !in outside && st[index[h]].hash == h)
  }

  lemma {:induction false} FiledNew(index: map<MerkleHash, Id>, st: Store, outside: set<Id>, id: Id, r: Record)
    requires Filed(index, st, outside) && id !in st && id !in outside
    ensures Filed(index[r.hash := id], st[id := r], outside)
  {
  }

  /** A node not indexed yet. */
  lemma {:induction false} FiledAside(index: map<MerkleHash, Id>, st: Store, outside: set<Id>, id: Id, r: Record)
    requires Filed(index, st, outside) && id !in st && id !in outside
    ensures Filed(index, st[id := r], outside + {id})
  {
  }

  lemma {:induction false} FiledEnter(index: map<MerkleHash, Id>, st: Store, outside: set<Id>, id: Id, h: MerkleHash)
    requires Filed(index, st, outside + {id}) && id in st && id !in outside && st[id].hash == h
    ensures Filed(index[h := id], st, outside)
  {
  }

  lemma {:induction false} FiledAgain(index: map<MerkleHash, Id>, st: Store, outside: set<Id>, id: Id)
    requires Filed(index, st, outside) && id in st && id !in outside
    ensures Filed(index[st[id].hash := id], st, outside)
  {
  }

  /** Links do not matter. */
  lemma {:induction false} FiledLinked(index: map<MerkleHash, Id>, st: Store, outside: set<Id>, st': Store, id: Id,
                                       l: Id, r: Id)
    requires Filed(index, st, outside) && id in st && l in st && r in st && LinkedUnder(st, st', id, l, r) && id != l
      && id != r
    ensures Filed(index, st', outside)
  {
    forall i | i in st ensures st'[i].hash == st[i].hash {}
  }

  /** No two nodes present share a hash. */
  ghost predicate Distinct(st: Store, at: Places)
    requires Seated(st, at)
  {
    forall a, b :: a in at && b in at && st[at[a]].hash == st[at[b]].hash ==> a == b
  }

  lemma {:induction false} FiledExact(index: map<MerkleHash, Id>, st: Store, outside: set<Id>, at: Places)
    requires Filed(index, st, outside) && Seated(st, at) && Distinct(st, at)
    requires (forall a :: a in at ==> at[a] !in outside) && forall id :: id in st ==> id in outside || id in at.Values
    ensures Exact(index, st, at)
  {
    forall a | a in at ensures st[at[a]].hash in index && index[st[at[a]].hash] == at[a] {
      var i := index[st[at[a]].hash];
      assert i in at.Values;
      var b :| b in at && at[b] == i;
    }
  }

  lemma {:induction false} ExactFiled(index: map<MerkleHash, Id>, st: Store, at: Places)
    requires Seated(st, at) && Exact(index, st, at)
    ensures Filed(index, st, st.Keys - at.Values) && Distinct(st, at)
  {
    forall id | id in st && id !in st.Keys - at.Values ensures st[id].hash in index {
      var a :| a in at && at[a] == id;
    }
  }

  // ---------------------------------------------------------------- rows of leaves by their peaks

  /** `m` leaves of `n` are left when the peaks of the last binary digits of `n` are done. */
  ghost predicate Cleared(m: nat, n: nat) {
    0 < m <= n && n - m < LowBit(m)
  }

  lemma {:induction false} ClearNext(m: nat, n: nat)
    requires Cleared(m, n) && m > LowBit(m)
    ensures Cleared(m - LowBit(m), n)
  {
    LowBitNeighbours(m);
  }

  /** The peak that ends at leaf `m` and the row behind it are the halves of the row that starts with the peak. */
  lemma {:induction false} PeakSplit(m: nat, n: nat)
    requires Cleared(m, n) && m < n
    ensures PowBelow(n - m + LowBit(m)) == LowBit(m)
  {
    LowBitIdempotent(m);
    PowBelowUnique(n - m + LowBit(m), LowBit(m));
  }

  lemma {:induction false} PeakJoin(ts: seq<Tree>, m: nat)
    requires Cleared(m, |ts|) && m < |ts|
    ensures var k := m - LowBit(m); Assemble(ts[k..]) == Fork(Assemble(ts[k..m]), Assemble(ts[m..]))
  {
    hide LowBit, PowBelow;
    PeakSplit(m, |ts|);
    var k := m - LowBit(m);
    assert ts[k..][..m - k] == ts[k..m] && ts[k..][m - k..] == ts[m..];
  }

  /** A power of two is split in halves. */
  lemma {:induction false} PowerHalves(n: nat)
    requires n > 1 && LowBit(n) == n
    ensures PowBelow(n) == n / 2 && n == 2 * (n / 2) && LowBit(n / 2) == n / 2
  {
    PowBelowUnique(n, n / 2);
  }
}
