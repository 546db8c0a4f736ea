/** The on-disk tree's nodes: snapshots of records in a store, which the tree changes as it changes nodes in memory. */
module DiskTree {
  import opened MerkleSpec
  import opened Trees
  import opened Options
  import opened NodeStore
  import opened PlacedTrees
  import opened DiskDb

  /** A node as it was when it was read; setters write it back whole. */
  class DiskMerkleNode {
    const id: Id
    var v: Record

    constructor (id: Id, v: Record)
      ensures this.id == id && this.v == v
    {
      this.id, this.v := id, v;
    }
  }

  lemma {:induction false} RefileSame(level: Kv, ws: Option<Kv>, id: Id, rec: Record, level': Kv, ws': Option<Kv>,
                                      l: Kv, w: Option<Kv>)
    requires SetsHash(level, ws, id, rec, level', ws') && Puts(level', ws', HashKey(rec.hash), IdVal(id), l, w)
    ensures l == level' && w == ws'
  {
    var l0, w0 :| Puts(level, ws, HashKey(rec.hash), IdVal(id), l0, w0)
      && Puts(l0, w0, IdKey(id), RecVal(rec), level', ws');
    if ws.Some? {
      assert ws'.value[HashKey(rec.hash)] == IdVal(id) && ws'.value[IdKey(id)] == RecVal(rec);
      assert w.value == ws'.value;
    }
  }

  lemma {:induction false} BackedRecords(level: Kv, ws: Option<Kv>, st: Store, index: map<MerkleHash, Id>)
    requires Backed(level, ws, st, index)
    ensures Records(level, ws, st)
  {
  }

  lemma {:induction false} RecordsAfter(level: Kv, ws: Option<Kv>, st: Store, id: Id, rec: Record, level': Kv,
                                        ws': Option<Kv>)
    requires Records(level, ws, st) && SetsHash(level, ws, id, rec, level', ws')
    ensures Records(level', ws', st[id := rec])
  {
    var l, w :| Puts(level, ws, HashKey(rec.hash), IdVal(id), l, w) && Puts(l, w, IdKey(id), RecVal(rec), level', ws');
    forall i ensures Find(level', ws', IdKey(i)) == if i == id then Some(RecVal(rec)) else Find(level, ws, IdKey(i)) {}
  }

  /** The node is found under its hash. */
  ghost predicate FiledUnder(st: Store, index: map<MerkleHash, Id>, id: Id) {
    id in st && st[id].hash in index && index[st[id].hash] == id
  }

  /** A node can be rehashed: it and the left child of its parent are found under their hashes. */
  ghost predicate Rehashable(st: Store, index: map<MerkleHash, Id>, id: Id) {
    && Attached(st, id) && FiledUnder(st, index, id)
    && (st[id].parent != NIL ==> st[st[id].parent].left != NIL && FiledUnder(st, index, st[st[id].parent].left))
  }

  lemma {:induction false} PlacedRehashable(st: Store, index: map<MerkleHash, Id>, at: Places, c: Place)
    requires Shaped(st, at) && Exact(index, st, at) && c in at
    ensures Rehashable(st, index, at[c])
  {
    HungAttached(st, at, c);
    UpNil(st, at, c);
    if c != Apex { UnderParent(st, at, c); }
  }

  class DiskNodes {
    const db: Db
    var cursor: Id
    /** The last hash of the tree, which listens to hash changes. */
    var lastNodeHash: Option<MerkleHash>
    /** The nodes and the index that reads give. */
    ghost var st: Store
    ghost var index: map<MerkleHash, Id>

    ghost predicate Inv()
      reads this, db
    {
      Backed(db.level, db.writeSet, st, index) && forall id :: id in st ==> 0 < id <= cursor
    }

    constructor (db: Db)
      requires db.level == map[] && db.writeSet == None
      ensures this.db == db && Inv() && st == map[] && index == map[] && lastNodeHash == None
    {
      this.db := db;
      cursor, lastNodeHash, st, index := 0, None, map[], map[];
    }

    /** The snapshot is what a read would give now. */
    ghost predicate Current(n: DiskMerkleNode)
      reads this, n
    {
      n.id in st && n.v == st[n.id]
    }

    /** The node's record is in the open write set, if there is one. */
    ghost predicate Saved(id: Id)
      reads db
    {
      SavedIn(db.writeSet, id)
    }

    /** `getByID`. */
    method GetById(id: Id) returns (n: DiskMerkleNode?)
      requires Records(db.level, db.writeSet, st) && (id != NIL ==> id in st)
      ensures n == null <==> id == NIL
      ensures n != null ==> fresh(n) && n.id == id && n.v == st[id]
    {
      if id == NIL {
        return null;
      }
      assert Find(db.level, db.writeSet, IdKey(id)) == Some(RecVal(st[id]));
      n := new DiskMerkleNode(id, db.Get(IdKey(id)).value.rec);
    }

    /** `get`. */
    method Get(hash: MerkleHash) returns (n: DiskMerkleNode?)
      requires Inv() && (hash in index ==> index[hash] in st)
      ensures n == null <==> hash !in index
      ensures n != null ==> fresh(n) && n.id == index[hash] && Current(n)
    {
      assert Find(db.level, db.writeSet, HashKey(hash)) == if hash in index then Some(IdVal(index[hash])) else None;
      var k := db.Get(HashKey(hash));
      if k == None {
        return null;
      }
      n := GetById(k.value.id);
    }

    /** `newNode`, given its hash and filed under it. */
    method NewNode(hash: MerkleHash) returns (n: DiskMerkleNode)
      requires Inv()
      modifies this`cursor, this`st, this`index, db
      ensures Inv() && fresh(n) && n.id !in old(st) && n.id != NIL && Current(n)
      ensures st == old(st)[n.id := Record(hash, NIL, NIL, NIL)] && index == old(index)[hash := n.id]
      ensures Saved(n.id) && forall i :: old(Saved(i)) ==> Saved(i)
    {
      cursor := cursor + 1;
      db.Put(CursorKey, NumVal(cursor));
      CursorBacked(old(db.level), old(db.writeSet), st, index, cursor, db.level, db.writeSet);
      n := new DiskMerkleNode(cursor, Record(hash, NIL, NIL, NIL));
      ghost var level, ws := db.level, db.writeSet;
      SetHash(n, hash, level, ws);
      CreateBacked(level, ws, st, index, n.id, n.v, db.level, db.writeSet);
      ghost var level', ws' := db.level, db.writeSet;
      db.Put(HashKey(hash), IdVal(n.id));
      RefileSame(level, ws, n.id, n.v, level', ws', db.level, db.writeSet);
      st, index := st[n.id := n.v], index[hash := n.id];
    }

    /** `save` of a record whose hash is as before. */
    method Save(n: DiskMerkleNode)
      requires Inv() && n.id in st && n.v.hash == st[n.id].hash
      modifies db, this`st
      ensures Inv() && st == old(st)[n.id := n.v] && forall i :: old(Saved(i)) ==> Saved(i)
    {
      db.Put(IdKey(n.id), RecVal(n.v));
      SaveBacked(old(db.level), old(db.writeSet), st, index, n.id, n.v, db.level, db.writeSet);
      st := st[n.id := n.v];
    }

    /** `setParent`: written back only if it is another. */
    method SetParent(n: DiskMerkleNode, pid: Id)
      requires Inv() && Current(n)
      modifies n, db, this`st
      ensures Inv() && Current(n) && st == old(st)[n.id := old(st)[n.id].(parent := pid)]
        && forall i :: old(Saved(i)) ==> Saved(i)
    {
      if n.v.parent != pid {
        n.v := n.v.(parent := pid);
        Save(n);
      } else {
        StoreSame(st, n.id, st[n.id].(parent := pid));
      }
    }

    /** `setLeftChild`. */
    method SetLeftChild(n: DiskMerkleNode, lid: Id)
      requires Inv() && Current(n)
      modifies n, db, this`st
      ensures Inv() && Current(n) && st == old(st)[n.id := old(st)[n.id].(left := lid)]
        && forall i :: old(Saved(i)) ==> Saved(i)
    {
      if n.v.left != lid {
        n.v := n.v.(left := lid);
        Save(n);
      } else {
        StoreSame(st, n.id, st[n.id].(left := lid));
      }
    }

    /** `setRightChild`. */
    method SetRightChild(n: DiskMerkleNode, rid: Id)
      requires Inv() && Current(n)
      modifies n, db, this`st
      ensures Inv() && Current(n) && st == old(st)[n.id := old(st)[n.id].(right := rid)]
        && forall i :: old(Saved(i)) ==> Saved(i)
    {
      if n.v.right != rid {
        n.v := n.v.(right := rid);
        Save(n);
      } else {
        StoreSame(st, n.id, st[n.id].(right := rid));
      }
    }

    /** A new node over two others, below `parent`. */
    method NewJoint(hash: MerkleHash, parent: Id, left: Id, right: Id) returns (n: DiskMerkleNode)
      requires Inv()
      modifies this`cursor, this`st, this`index, db
      ensures Inv() && fresh(n) && n.id !in old(st) && n.id != NIL && Current(n)
      ensures st == old(st)[n.id := Record(hash, parent, left, right)] && index == old(index)[hash := n.id]
    {
      hide Backed;
      n := NewNode(hash);
      SetParent(n, parent);
      SetLeftChild(n, left);
      SetRightChild(n, right);
    }

    /** The round of `append` that puts a joint over a peak and a new leaf: the same as in memory. */
    method JoinLeaf(hashToInsert: MerkleHash, nodeToReplace: DiskMerkleNode)
      returns (nodeToInsert: DiskMerkleNode, newJointNode: DiskMerkleNode)
      requires Inv() && Current(nodeToReplace) && st[nodeToReplace.id].parent in st.Keys + {NIL}
        && st[nodeToReplace.id].parent != nodeToReplace.id
      modifies this`cursor, this`st, this`index, db, nodeToReplace
      ensures Inv() && Current(nodeToInsert) && Current(newJointNode) && fresh(nodeToInsert) && fresh(newJointNode)
      ensures {nodeToInsert.id, newJointNode.id} !! old(st).Keys + {NIL} && nodeToInsert.id != newJointNode.id
      ensures IsJoin(old(st), st, nodeToReplace.id, newJointNode.id, nodeToInsert.id, hashToInsert)
      ensures index == old(index)[hashToInsert := nodeToInsert.id][st[newJointNode.id].hash := newJointNode.id]
    {
      hide Backed, Records;
      nodeToInsert := NewNode(hashToInsert);
      var newJointNodeHash := Hash(hashToInsert, nodeToReplace.v.hash, LEFT);
      BackedRecords(db.level, db.writeSet, st, index);
      var pn := GetById(nodeToReplace.v.parent);
      newJointNode := NewJoint(newJointNodeHash, nodeToReplace.v.parent, nodeToReplace.id, nodeToInsert.id);
      Hang(nodeToInsert, nodeToReplace, newJointNode, pn);
    }

    /** The neighbours of a new joint. */
    method Hang(nodeToInsert: DiskMerkleNode, nodeToReplace: DiskMerkleNode, newJointNode: DiskMerkleNode,
                pn: DiskMerkleNode?)
      requires Inv() && Current(nodeToInsert) && Current(nodeToReplace) && Current(newJointNode)
        && (pn != null ==> Current(pn))
      requires nodeToInsert.id != nodeToReplace.id && newJointNode.id !in {nodeToInsert.id, nodeToReplace.id}
      requires pn != null ==> pn.id !in {nodeToInsert.id, nodeToReplace.id, newJointNode.id}
      modifies this`st, db, nodeToInsert, nodeToReplace, pn
      ensures Inv() && Current(nodeToInsert) && Current(nodeToReplace) && Current(newJointNode)
      ensures var s := old(st)[nodeToInsert.id := old(st)[nodeToInsert.id].(parent := newJointNode.id)];
        var s' := s[nodeToReplace.id := s[nodeToReplace.id].(parent := newJointNode.id)];
        st == if pn == null then s' else s'[pn.id := s'[pn.id].(right := newJointNode.id)]
    {
      hide Backed;
      SetParent(nodeToInsert, newJointNode.id);
      SetParent(nodeToReplace, newJointNode.id);
      if pn != null {
        SetRightChild(pn, newJointNode.id);
      }
    }

    /** `setHash`: files the node, then saves it. */
    method SetHash(n: DiskMerkleNode, hash: MerkleHash, ghost level: Kv, ghost ws: Option<Kv>)
      requires level == db.level && ws == db.writeSet
      modifies n, db
      ensures n.v == old(n.v).(hash := hash) && SetsHash(level, ws, n.id, n.v, db.level, db.writeSet)
    {
      n.v := n.v.(hash := hash);
      db.Put(HashKey(hash), IdVal(n.id));
      ghost var l, w := db.level, db.writeSet;
      db.Put(IdKey(n.id), RecVal(n.v));
      assert Puts(level, ws, HashKey(n.v.hash), IdVal(n.id), l, w)
        && Puts(l, w, IdKey(n.id), RecVal(n.v), db.level, db.writeSet);
    }

    /**
      `setNodeHash` with its listener: the record, the index and the last hash change as in memory, whether a
      transaction is open or not.
     */
    method SetNodeHash(node: DiskMerkleNode, newHash: MerkleHash)
      requires Inv() && Current(node) && Rehashable(st, index, node.id)
      modifies this`st, this`index, this`lastNodeHash, db, node
      ensures Inv() && Current(node)
      ensures st == Rehash(old(st), node.id, newHash)
        && index == Reindex(old(index), node.id, old(st[node.id].hash), newHash)
      ensures lastNodeHash == if old(lastNodeHash) == Some(old(st[node.id].hash)) then Some(newHash)
        else old(lastNodeHash)
    {
      hide Records, Hashes, Tidy;
      var originalHash := node.v.hash;
      var pn := GetById(node.v.parent);
      var isLeftChild := false;
      if pn != null {
        var left := GetById(pn.v.left);
        isLeftChild := left.v.hash == node.v.hash;
      }
      ghost var level, ws := db.level, db.writeSet;
      SetHash(node, newHash, level, ws);
      ghost var level', ws' := db.level, db.writeSet;
      RecordsAfter(level, ws, st, node.id, node.v, level', ws');
      Reattach(node, pn, isLeftChild, st[node.id := node.v]);
      if originalHash != newHash {
        db.Put(HashKey(newHash), IdVal(node.id));
        RefileSame(level, ws, node.id, node.v, level', ws', db.level, db.writeSet);
        db.Delete(HashKey(originalHash));
        RehashBacked(level, ws, st, index, node.id, newHash, level', ws');
        if lastNodeHash.Some? && lastNodeHash.value == originalHash {
          lastNodeHash := Some(newHash);
        }
      } else {
        SameHashBacked(level, ws, st, index, node.id, level', ws');
        StoreSame(st, node.id, node.v);
      }
      st, index := st[node.id := node.v], Reindex(index, node.id, originalHash, newHash);
    }

    /** The neighbours of a rehashed node are attached to it already: the setters find nothing to write. */
    method Reattach(node: DiskMerkleNode, pn: DiskMerkleNode?, isLeftChild: bool, ghost st': Store)
      requires Rehashable(st, index, node.id) && st' == st[node.id := node.v]
        && node.v == st[node.id].(hash := node.v.hash)
      requires Records(db.level, db.writeSet, st')
      requires pn == null <==> node.v.parent == NIL
      requires pn != null ==> pn.id == node.v.parent && pn.v == st[pn.id] && pn.v.left in st
      requires pn != null ==> (isLeftChild <==> st[pn.v.left].hash == st[node.id].hash)
      modifies this`st
      ensures st == old(st)
    {
      hide Records;
      st := st';
      var lc := GetById(node.v.left);
      if lc != null {
        assert lc.v.parent == node.id;
      }
      var rc := GetById(node.v.right);
      if rc != null {
        assert rc.v.parent == node.id;
      }
      if pn != null {
        assert if isLeftChild then pn.v.left == node.id else pn.v.right == node.id;
      }
      st := old(st);
    }

    /** `updateNode`: the node and everything above it, each read when its turn comes. */
    method UpdateNode(first: DiskMerkleNode, newHash: MerkleHash, ghost a: Place, ghost at: Places,
                      ghost x: MerkleHash, ghost idle: bool)
      requires Inv() && Current(first) && Shaped(st, at) && Exact(index, st, at) && a in at && at[a] == first.id
      requires newHash != st[first.id].hash ==> newHash !in index
      requires Rising(Rehash(st, first.id, newHash), Reindex(index, first.id, st[first.id].hash, newHash), true, at,
        x, a, idle)
      modifies this`st, this`index, this`lastNodeHash, db, first
      ensures Inv() && Shaped(st, at) && FitsBut(st, at, Apex) && Exact(index, st, at)
      ensures (forall id :: id in st <==> id in old(st)) && TipsKept(old(st), st, at, a, newHash)
      ensures forall id :: Tracks(old(index), old(lastNodeHash), id) ==> Tracks(index, lastNodeHash, id)
    {
      hide Backed, Records, Exact, Marked, FitsBut, Rehashable;
      PlacedRehashable(st, index, at, a);
      StillTracked(st, index, at, a, newHash, lastNodeHash);
      SetNodeHash(first, newHash);
      ghost var c := a;
      UpNil(st, at, c);
      var node := Parent(first, c, at);
      while node != null
        invariant Inv() && Rising(st, index, true, at, x, c, idle) && (node == null <==> c == Apex)
        invariant node != null ==> fresh(node) && Current(node) && node.id == st[at[c]].parent
        invariant (forall id :: id in st <==> id in old(st)) && TipsKept(old(st), st, at, a, newHash)
        invariant forall id :: Tracks(old(index), old(lastNodeHash), id) ==> Tracks(index, lastNodeHash, id)
        decreases c
      {
        RehashParent(node, c, at, x, idle);
        c := c.up;
        node := Parent(node, c, at);
      }
      RiseEnd(st, index, true, at, x, idle);
    }

    /** `getParent` of a current snapshot. */
    method Parent(n: DiskMerkleNode, ghost c: Place, ghost at: Places) returns (p: DiskMerkleNode?)
      requires Inv() && Current(n) && Shaped(st, at) && c in at && at[c] == n.id
      ensures (p == null <==> c == Apex)
        && (p != null ==> fresh(p) && Current(p) && c.up in at && p.id == at[c.up] == st[at[c]].parent)
    {
      hide Records;
      UpNil(st, at, c);
      if c != Apex { UnderParent(st, at, c); }
      p := GetById(n.v.parent);
    }

    /** One round of it. */
    method RehashParent(node: DiskMerkleNode, ghost c: Place, ghost at: Places, ghost x: MerkleHash, ghost idle: bool)
      requires Inv() && Current(node) && Rising(st, index, true, at, x, c, idle) && c != Apex
        && node.id == st[at[c]].parent
      modifies this`st, this`index, this`lastNodeHash, db, node
      ensures Inv() && Current(node) && c.up in at && node.id == at[c.up] && Rising(st, index, true, at, x, c.up, idle)
      ensures (forall id :: id in st <==> id in old(st))
        && forall b :: IsTip(at, b) ==> st[at[b]].hash == old(st)[at[b]].hash
      ensures forall id :: Tracks(old(index), old(lastNodeHash), id) ==> Tracks(index, lastNodeHash, id)
    {
      hide Backed, Records, Marked, FitsBut, Exact, Rehashable;
      UnderParent(st, at, c);
      PlacedRehashable(st, index, at, c.up);
      BackedRecords(db.level, db.writeSet, st, index);
      var left := GetById(node.v.left);
      var right := GetById(node.v.right);
      var y := Hash(left.v.hash, right.v.hash, RIGHT);
      RiseStep(st, index, true, at, x, c, idle, y);
      StillTracked(st, index, at, c.up, y, lastNodeHash);
      SetNodeHash(node, y);
    }

    /** Two nodes become the children of a third. */
    method LinkChildren(n: DiskMerkleNode, l: DiskMerkleNode, r: DiskMerkleNode)
      requires Inv() && Current(n) && Current(l) && Current(r) && n.id != l.id && n.id != r.id && l.id != r.id
      modifies this`st, db, n, l, r
      ensures Inv() && Current(n) && Current(l) && Current(r) && LinkedUnder(old(st), st, n.id, l.id, r.id)
      ensures forall i :: old(Saved(i)) ==> Saved(i)
    {
      hide Backed;
      SetLeftChild(n, l.id);
      SetRightChild(n, r.id);
      SetParent(l, n.id);
      SetParent(r, n.id);
    }

    /** `set` of a saved node under the hash it has. */
    method Refile(n: DiskMerkleNode)
      requires Inv() && Current(n) && Saved(n.id)
      modifies this`index, db
      ensures Inv() && index == old(index)[n.v.hash := n.id] && forall i :: old(Saved(i)) ==> Saved(i)
    {
      db.Put(HashKey(n.v.hash), IdVal(n.id));
      RefileBacked(old(db.level), old(db.writeSet), st, index, n.id, db.level, db.writeSet);
      index := index[n.v.hash := n.id];
    }

    method StartTransactionRecord()
      requires Inv() && db.writeSet == None
      modifies db
      ensures Inv()
    {
      StartBacked(db.level, st, index);
      db.StartTransactionRecord();
    }

    method CommitTransaction()
      requires Inv()
      modifies db
      ensures Inv() && db.writeSet == None
    {
      if db.writeSet.Some? { CommitBacked(db.level, db.writeSet.value, st, index); }
      db.CommitTransaction();
    }
  }

  lemma {:induction false} StillTracked(st: Store, index: map<MerkleHash, Id>, at: Places, c: Place, y: MerkleHash,
                                        last: Option<MerkleHash>)
    requires Seated(st, at) && Exact(index, st, at) && c in at && (y != st[at[c]].hash ==> y !in index)
    ensures forall id :: Tracks(index, last, id) ==>
      Tracks(Reindex(index, at[c], st[at[c]].hash, y), if last == Some(st[at[c]].hash) then Some(y) else last, id)
  {
    forall id | Tracks(index, last, id)
      ensures Tracks(Reindex(index, at[c], st[at[c]].hash, y), if last == Some(st[at[c]].hash) then Some(y)
        else last, id)
    {
      TrackStep(index, st, at, c, y, last, id);
    }
  }
}
