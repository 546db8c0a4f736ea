/**
  The key-value store under the on-disk tree: a persistent map, and a write set over it while a transaction is
  open.
 */
module DiskDb {
  import opened MerkleSpec
  import opened Options
  import opened NodeStore

  /** Node records under ids and ids under hashes share one store. Hash keys are told by their length. */
  datatype DbKey = HashKey(hash: MerkleHash) | IdKey(id: Id) | CursorKey

  datatype DbVal = IdVal(id: Id) | RecVal(rec: Record) | NumVal(n: nat)

  type Kv = map<DbKey, DbVal>

  /** What a read finds. */
  function Find(level: Kv, ws: Option<Kv>, k: DbKey): Option<DbVal> {
    if ws.Some? && k in ws.value then Some(ws.value[k]) else if k in level then Some(level[k]) else None
  }

  /** `Put` into an open write set: a new hash for a node drops the hash its record in the write set has. */
  function Record'(w: Kv, k: DbKey, v: DbVal): Kv {
    var w' :=
      if k.HashKey? && v.IdVal? && IdKey(v.id) in w && w[IdKey(v.id)].RecVal? then
        w - {HashKey(w[IdKey(v.id)].rec.hash)} else w;
    w'[k := v]
  }

  class Db {
    var level: Kv
    var writeSet: Option<Kv>

    constructor ()
      ensures level == map[] && writeSet == None
    {
      level, writeSet := map[], None;
    }

    /** `Get`. */
    function Get(k: DbKey): Option<DbVal>
      reads this
    {
      Find(level, writeSet, k)
    }

    /** `Put`. */
    method Put(k: DbKey, v: DbVal)
      modifies this
      ensures writeSet == if old(writeSet).Some? then Some(Record'(old(writeSet).value, k, v)) else None
      ensures level == if old(writeSet).Some? then old(level) else old(level)[k := v]
    {
      if writeSet.Some? {
        var w := writeSet.value;
        if k.HashKey? && v.IdVal? && IdKey(v.id) in w && w[IdKey(v.id)].RecVal? {
          w := w - {HashKey(w[IdKey(v.id)].rec.hash)};
        }
        writeSet := Some(w[k := v]);
        return;
      }
      level := level[k := v];
    }

    /** `Delete` goes to the persistent map, transaction or not. */
    method Delete(k: DbKey)
      modifies this`level
      ensures level == old(level) - {k}
    {
      level := level - {k};
    }

    method StartTransactionRecord()
      modifies this`writeSet
      ensures writeSet == Some(map[])
    {
      writeSet := Some(map[]);
    }

    /** `CommitTransaction`: the write set goes into the persistent map, key by key. */
    method CommitTransaction()
      modifies this
      ensures writeSet == None && level == if old(writeSet).Some? then old(level) + old(writeSet).value else old(level)
    {
      if writeSet.Some? {
        var imem := writeSet.value;
        writeSet := None;
        var todo := imem.Keys;
        while todo != {}
          invariant todo <= imem.Keys && writeSet == None
          invariant forall k :: k in level <==> k in old(level) || k in imem.Keys - todo
          invariant forall k :: k in level ==> level[k] == if k in imem.Keys - todo then imem[k] else old(level)[k]
        {
          var k :| k in todo;
          level := level[k := imem[k]];
          todo := todo - {k};
        }
        assert level == old(level) + imem;
      }
    }
  }

  // ---------------------------------------------------------------- simulation

  /** In the write set, a hash leads to a record that has it. */
  ghost predicate Tidy(ws: Option<Kv>) {
    ws.Some? ==> forall h :: HashKey(h) in ws.value ==> Leads(ws.value, h)
  }

  ghost predicate Leads(w: Kv, h: MerkleHash)
    requires HashKey(h) in w
  {
    w[HashKey(h)].IdVal? && IdKey(w[HashKey(h)].id) in w && w[IdKey(w[HashKey(h)].id)].RecVal?
      && w[IdKey(w[HashKey(h)].id)].rec.hash == h
  }

  ghost predicate Records(level: Kv, ws: Option<Kv>, st: Store) {
    forall id :: Find(level, ws, IdKey(id)) == if id in st then Some(RecVal(st[id])) else None
  }

  ghost predicate Hashes(level: Kv, ws: Option<Kv>, index: map<MerkleHash, Id>) {
    forall h :: Find(level, ws, HashKey(h)) == if h in index then Some(IdVal(index[h])) else None
  }

  /** Reads of the store give the nodes `st` and the index `index`. */
  ghost predicate Backed(level: Kv, ws: Option<Kv>, st: Store, index: map<MerkleHash, Id>) {
    Records(level, ws, st) && Hashes(level, ws, index) && Tidy(ws)
  }

  /** Opening or committing a transaction does not change what is read. */
  lemma {:induction false} StartBacked(level: Kv, st: Store, index: map<MerkleHash, Id>)
    requires Backed(level, None, st, index)
    ensures Backed(level, Some(map[]), st, index)
  {
    forall id ensures Find(level, Some(map[]), IdKey(id)) == Find(level, None, IdKey(id)) {}
    forall h ensures Find(level, Some(map[]), HashKey(h)) == Find(level, None, HashKey(h)) {}
  }

  lemma {:induction false} CommitBacked(level: Kv, w: Kv, st: Store, index: map<MerkleHash, Id>)
    requires Backed(level, Some(w), st, index)
    ensures Backed(level + w, None, st, index)
  {
    forall id ensures Find(level + w, None, IdKey(id)) == Find(level, Some(w), IdKey(id)) {}
    forall h ensures Find(level + w, None, HashKey(h)) == Find(level, Some(w), HashKey(h)) {}
  }

  /** One `Put`. */
  ghost predicate Puts(level: Kv, ws: Option<Kv>, k: DbKey, v: DbVal, level': Kv, ws': Option<Kv>) {
    && ws' == (if ws.Some? then Some(Record'(ws.value, k, v)) else None)
    && level' == if ws.Some? then level else level[k := v]
  }

  /** Saving a node's record when its hash is not new. */
  lemma {:induction false} SaveBacked(level: Kv, ws: Option<Kv>, st: Store, index: map<MerkleHash, Id>, id: Id,
                                      rec: Record, level': Kv, ws': Option<Kv>)
    requires Backed(level, ws, st, index) && id in st && rec.hash == st[id].hash
      && Puts(level, ws, IdKey(id), RecVal(rec), level', ws')
    ensures Backed(level', ws', st[id := rec], index)
  {
    forall i
      ensures Find(level', ws', IdKey(i)) == if i in st[id := rec] then Some(RecVal(st[id := rec][i])) else None
    {
      assert Find(level, ws, IdKey(i)) == if i in st then Some(RecVal(st[i])) else None;
    }
    forall h ensures Find(level', ws', HashKey(h)) == Find(level, ws, HashKey(h)) {}
    if ws.Some? {
      assert Find(level, ws, IdKey(id)) == Some(RecVal(st[id]));
      forall h | HashKey(h) in ws'.value ensures Leads(ws'.value, h) { assert Leads(ws.value, h); }
    }
  }

  /** Saving the cursor. */
  lemma {:induction false} CursorBacked(level: Kv, ws: Option<Kv>, st: Store, index: map<MerkleHash, Id>, n: nat,
                                        level': Kv, ws': Option<Kv>)
    requires Backed(level, ws, st, index) && Puts(level, ws, CursorKey, NumVal(n), level', ws')
    ensures Backed(level', ws', st, index)
  {
    forall i ensures Find(level', ws', IdKey(i)) == Find(level, ws, IdKey(i)) {}
    forall h ensures Find(level', ws', HashKey(h)) == Find(level, ws, HashKey(h)) {}
    if ws.Some? {
      forall h | HashKey(h) in ws'.value ensures Leads(ws'.value, h) { assert Leads(ws.value, h); }
    }
  }

  /** `setHash`: file the node under the hash, then save its record. */
  ghost predicate SetsHash(level: Kv, ws: Option<Kv>, id: Id, rec: Record, level': Kv, ws': Option<Kv>) {
    exists l, w :: Puts(level, ws, HashKey(rec.hash), IdVal(id), l, w)
      && Puts(l, w, IdKey(id), RecVal(rec), level', ws')
  }

  /** A new node. */
  lemma {:induction false} CreateBacked(level: Kv, ws: Option<Kv>, st: Store, index: map<MerkleHash, Id>, id: Id,
                                        rec: Record, level': Kv, ws': Option<Kv>)
    requires Backed(level, ws, st, index) && id !in st && SetsHash(level, ws, id, rec, level', ws')
    ensures Backed(level', ws', st[id := rec], index[rec.hash := id])
  {
    var l, w :| Puts(level, ws, HashKey(rec.hash), IdVal(id), l, w) && Puts(l, w, IdKey(id), RecVal(rec), level', ws');
    assert Find(level, ws, IdKey(id)) == None;
    forall i ensures Find(level', ws', IdKey(i)) == if i == id then Some(RecVal(rec)) else Find(level, ws, IdKey(i)) {}
    forall h
      ensures Find(level', ws', HashKey(h)) == if h == rec.hash then Some(IdVal(id)) else Find(level, ws, HashKey(h))
    {
    }
    if ws.Some? {
      forall h | HashKey(h) in ws'.value ensures Leads(ws'.value, h) {
        if h != rec.hash { assert Leads(ws.value, h); }
      }
    }
  }

  /** The node's record is in the open write set, if there is one. */
  ghost predicate SavedIn(ws: Option<Kv>, id: Id) {
    ws.Some? ==> IdKey(id) in ws.value
  }

  /** Filing a saved node again under the hash its record has. */
  lemma {:induction false} RefileBacked(level: Kv, ws: Option<Kv>, st: Store, index: map<MerkleHash, Id>, id: Id,
                                        level': Kv, ws': Option<Kv>)
    requires Backed(level, ws, st, index) && id in st && SavedIn(ws, id)
      && Puts(level, ws, HashKey(st[id].hash), IdVal(id), level', ws')
    ensures Backed(level', ws', st, index[st[id].hash := id]) && forall i :: SavedIn(ws, i) ==> SavedIn(ws', i)
  {
    assert Find(level, ws, IdKey(id)) == Some(RecVal(st[id]));
    forall i ensures Find(level', ws', IdKey(i)) == Find(level, ws, IdKey(i)) {}
    forall h
      ensures Find(level', ws', HashKey(h)) == if h == st[id].hash then Some(IdVal(id)) else Find(level, ws, HashKey(h))
    {
    }
    if ws.Some? {
      forall h | HashKey(h) in ws'.value ensures Leads(ws'.value, h) {
        if h != st[id].hash { assert Leads(ws.value, h); }
      }
    }
  }

  /**
    A node's hash changes, and the old one is deleted: nothing of it is left, whether the write set or the
    persistent map had it.
   */
  lemma {:induction false} RehashBacked(level: Kv, ws: Option<Kv>, st: Store, index: map<MerkleHash, Id>, id: Id,
                                        hash: MerkleHash, level': Kv, ws': Option<Kv>)
    requires Backed(level, ws, st, index) && id in st && st[id].hash in index && index[st[id].hash] == id
    requires st[id].hash != hash && SetsHash(level, ws, id, st[id].(hash := hash), level', ws')
    ensures Backed(level' - {HashKey(st[id].hash)}, ws', Rehash(st, id, hash), Reindex(index, id, st[id].hash, hash))
  {
    var old', rec := st[id].hash, st[id].(hash := hash);
    var level'' := level' - {HashKey(old')};
    RehashReads(level, ws, st, index, id, hash, level', ws');
    hide Find;
    forall i
      ensures Find(level'', ws', IdKey(i)) == if i in st then Some(RecVal(if i == id then rec else st[i])) else None
    {
      assert Find(level, ws, IdKey(i)) == if i in st then Some(RecVal(st[i])) else None;
    }
    forall h
      ensures Find(level'', ws', HashKey(h)) == if h == hash then Some(IdVal(id))
        else if h != old' && h in index then Some(IdVal(index[h])) else None
    {
      assert Find(level, ws, HashKey(h)) == if h in index then Some(IdVal(index[h])) else None;
    }
  }

  lemma {:induction false} ReadsNode(level: Kv, ws: Option<Kv>, st: Store, index: map<MerkleHash, Id>, id: Id)
    requires Backed(level, ws, st, index) && id in st && st[id].hash in index && index[st[id].hash] == id
    ensures Find(level, ws, IdKey(id)) == Some(RecVal(st[id]))
      && Find(level, ws, HashKey(st[id].hash)) == Some(IdVal(id))
  {
  }

  lemma {:induction false} RehashReads(level: Kv, ws: Option<Kv>, st: Store, index: map<MerkleHash, Id>, id: Id,
                                       hash: MerkleHash, level': Kv, ws': Option<Kv>)
    requires Backed(level, ws, st, index) && id in st && st[id].hash in index && index[st[id].hash] == id
    requires st[id].hash != hash && SetsHash(level, ws, id, st[id].(hash := hash), level', ws')
    ensures var level'' := level' - {HashKey(st[id].hash)};
      && (forall i :: Find(level'', ws', IdKey(i)) == if i == id then Some(RecVal(st[id].(hash := hash)))
         else Find(level, ws, IdKey(i)))
      && (forall h :: Find(level'', ws', HashKey(h)) ==
            if h == st[id].hash then None else if h == hash then Some(IdVal(id)) else Find(level, ws, HashKey(h)))
      && Tidy(ws')
  {
    hide Records, Hashes;
    var old', rec := st[id].hash, st[id].(hash := hash);
    var l, w :| Puts(level, ws, HashKey(hash), IdVal(id), l, w) && Puts(l, w, IdKey(id), RecVal(rec), level', ws');
    ReadsNode(level, ws, st, index, id);
    if ws.Some? {
      if HashKey(old') in ws.value { assert Leads(ws.value, old'); }
      assert HashKey(old') !in w.value;
      RehashTidy(ws.value, id, rec, w.value, ws'.value);
    }
  }

  /** Dropping the old hash keeps the write set tidy. */
  lemma {:induction false} RehashTidy(ws: Kv, id: Id, rec: Record, w: Kv, ws': Kv)
    requires Tidy(Some(ws)) && w == Record'(ws, HashKey(rec.hash), IdVal(id))
      && ws' == Record'(w, IdKey(id), RecVal(rec))
    requires IdKey(id) in ws ==> ws[IdKey(id)].RecVal?
    ensures Tidy(Some(ws'))
  {
    forall h | HashKey(h) in ws' ensures Leads(ws', h) {
      if h != rec.hash { assert Leads(ws, h); }
    }
  }

  /** `setHash` with the hash the node has changes nothing. */
  lemma {:induction false} SameHashBacked(level: Kv, ws: Option<Kv>, st: Store, index: map<MerkleHash, Id>, id: Id,
                                          level': Kv, ws': Option<Kv>)
    requires Backed(level, ws, st, index) && id in st && st[id].hash in index && index[st[id].hash] == id
    requires SetsHash(level, ws, id, st[id], level', ws')
    ensures Backed(level', ws', st, index)
  {
    var hash := st[id].hash;
    var l, w :| Puts(level, ws, HashKey(hash), IdVal(id), l, w) && Puts(l, w, IdKey(id), RecVal(st[id]), level', ws');
    assert Find(level, ws, IdKey(id)) == Some(RecVal(st[id])) && Find(level, ws, HashKey(hash)) == Some(IdVal(id));
    forall i ensures Find(level', ws', IdKey(i)) == Find(level, ws, IdKey(i)) {}
    forall h ensures Find(level', ws', HashKey(h)) == Find(level, ws, HashKey(h)) {}
    if ws.Some? {
      forall h | HashKey(h) in ws'.value ensures Leads(ws'.value, h) {
        if h != hash { assert Leads(ws.value, h); }
      }
    }
  }
}
