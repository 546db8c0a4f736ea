/**
  Merkle nodes as records addressed by id. A node refers to its parent and children by id,
  with `NIL` for none.
 */
module NodeStore {
  import opened MerkleSpec
  import opened Options

  type Id = nat
  const NIL: Id := 0

  datatype Record = Record(hash: MerkleHash, parent: Id, left: Id, right: Id)

  type Store = map<Id, Record>

  /** Nothing but hashes differ. */
  ghost predicate SameLinks(st: Store, st': Store) {
    && (forall id :: id in st <==> id in st')
    && forall id :: id in st ==>
         st'[id].parent == st[id].parent && st'[id].left == st[id].left && st'[id].right == st[id].right
  }

  /** The neighbours of a node refer back to it. */
  predicate Attached(st: Store, id: Id) {
    && id in st
    && (st[id].left != NIL ==> st[id].left in st && st[id].left != id && st[st[id].left].parent == id)
    && (st[id].right != NIL ==> st[id].right in st && st[id].right != id && st[st[id].right].parent == id)
    && (st[id].parent != NIL ==>
          && st[id].parent in st && st[id].parent != id
          && (st[st[id].parent].left == id || st[st[id].parent].right == id))
  }

  /** Another hash for one node. */
  function Rehash(st: Store, id: Id, hash: MerkleHash): (st': Store)
    requires id in st
    ensures SameLinks(st, st')
  {
    st[id := st[id].(hash := hash)]
  }

  /** What a listener makes of it in the index. */
  function Reindex(index: map<MerkleHash, Id>, id: Id, old': MerkleHash, new': MerkleHash): map<MerkleHash, Id> {
    if old' == new' then index else index[new' := id] - {old'}
  }

  /** The recorded last hash finds node `id`. */
  ghost predicate Tracks(index: map<MerkleHash, Id>, last: Option<MerkleHash>, id: Id) {
    last.Some? && last.value in index && index[last.value] == id
  }

  /** `l` and `r` became the children of `id`. */
  ghost predicate LinkedUnder(st: Store, st': Store, id: Id, l: Id, r: Id)
    requires id in st && l in st && r in st
  {
    && (forall i :: i in st' <==> i in st)
    && st'[id] == st[id].(left := l, right := r)
    && st'[l] == st[l].(parent := id) && st'[r] == st[r].(parent := id)
    && forall i :: i in st && i != id && i != l && i != r ==> st'[i] == st[i]
  }

  /** A new joint took the place of the last peak, with the peak on its left and the new leaf on its right. */
  predicate IsJoin(st: Store, st': Store, peak: Id, joint: Id, leaf: Id, leafHash: MerkleHash)
    requires peak in st
  {
    var pn := st[peak].parent;
    && st'.Keys == st.Keys + {joint, leaf}
    && st'[leaf] == Record(leafHash, joint, NIL, NIL)
    && st'[joint] == Record(Node(st[peak].hash, leafHash), pn, peak, leaf)
    && st'[peak] == st[peak].(parent := joint)
    && (pn in st ==> st'[pn] == st[pn].(right := joint))
    && forall id :: id in st && id != peak && id != pn ==> st'[id] == st[id]
  }

  /** Storing what is already there changes nothing. */
  lemma {:induction false} StoreSame(st: Store, id: Id, r: Record)
    requires id in st && st[id] == r
    ensures st[id := r] == st
  {
  }
}
