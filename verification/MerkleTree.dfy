/** The Merkle tree code shared by the full and the delta tree, over a store of nodes. */
module MerkleTrees {
  import opened Bits
  import opened MerkleSpec
  import opened Trees
  import opened MerklePaths
  import opened Options
  import opened NodeStore
  import opened PlacedTrees
  import opened JoinedTrees

  datatype AppendResult = Appended | UnknownSize | NilLastNode

  class MerkleTree {
    var store: Store
    var cursor: Id
    var nodeMap: map<MerkleHash, Id>
    var size: int
    var merkleRoot: Option<MerkleHash>
    var lastNodeHash: Option<MerkleHash>
    /** Whether the tree listens to its own hash changes, as the full tree does. */
    const listening: bool

    /** Where the nodes are, and the tree they are (a part of), if there is any. */
    ghost var at: Places
    ghost var content: Tree

    /** `newEmptyRAMMerkleTree`. */
    constructor (listening: bool)
      ensures this.listening == listening && size == 0 && merkleRoot == None && lastNodeHash == None
      ensures Empty()
    {
      this.listening := listening;
      store, cursor, nodeMap := map[], 0, map[];
      size, merkleRoot, lastNodeHash := 0, None, None;
      at, content := map[], Tip(Atom([]));
    }

    ghost predicate Empty()
      reads this
    {
      store == map[] && cursor == 0 && nodeMap == map[] && at == map[]
    }

    ghost predicate Bounded()
      reads this
    {
      forall id :: id in store ==> 0 < id <= cursor
    }

    /** The nodes present are a part of the tree, and a listening index has exactly them. */
    ghost predicate Sound()
      reads this
    {
      Bounded() && Partly(store, at, content) && (listening ==> Exact(nodeMap, store, at))
    }

    /** `setNodeHash`: rehash one node, re-attach it to its neighbours, and tell the listener. */
    method SetNodeHash(node: Id, newHash: MerkleHash)
      requires Attached(store, node)
      modifies this`store, this`nodeMap, this`lastNodeHash
      ensures store == Rehash(old(store), node, newHash)
      ensures nodeMap == if listening then Reindex(old(nodeMap), node, old(store[node].hash), newHash) else old(nodeMap)
      ensures lastNodeHash ==
        if listening && old(lastNodeHash) == Some(old(store[node].hash)) then Some(newHash) else old(lastNodeHash)
    {
      var originalHash := store[node].hash;
      var pn := store[node].parent;
      var isLeftChild := pn != NIL && store[pn].left == node;
      store := store[node := store[node].(hash := newHash)];
      var lc := store[node].left;
      if lc != NIL {
        StoreSame(store, lc, store[lc].(parent := node));
        store := store[lc := store[lc].(parent := node)];
      }
      var rc := store[node].right;
      if rc != NIL {
        StoreSame(store, rc, store[rc].(parent := node));
        store := store[rc := store[rc].(parent := node)];
      }
      if pn != NIL {
        if isLeftChild {
          StoreSame(store, pn, store[pn].(left := node));
          store := store[pn := store[pn].(left := node)];
        } else {
          StoreSame(store, pn, store[pn].(right := node));
          store := store[pn := store[pn].(right := node)];
        }
      }
      if listening {
        OnNodeHashChanged(node, originalHash, newHash);
      }
    }

    /** `onNodeHashChanged`: the full tree keeps its index and its last hash current. */
    method OnNodeHashChanged(node: Id, originalHash: MerkleHash, newHash: MerkleHash)
      modifies this`nodeMap, this`lastNodeHash
      ensures nodeMap == Reindex(old(nodeMap), node, originalHash, newHash)
      ensures lastNodeHash == if old(lastNodeHash) == Some(originalHash) then Some(newHash) else old(lastNodeHash)
    {
      if originalHash == newHash {
        return;
      }
      nodeMap := nodeMap[newHash := node];
      nodeMap := nodeMap - {originalHash};
      if lastNodeHash.Some? && lastNodeHash.value == originalHash {
        lastNodeHash := Some(newHash);
      }
    }

    /** `updateNode`: rehash a node and everything above it. */
    method UpdateNode(node: Id, newHash: MerkleHash, ghost a: Place, ghost x: MerkleHash, ghost idle: bool)
      requires Shaped(store, at) && a in at && at[a] == node && (listening ==> Exact(nodeMap, store, at))
      requires listening && newHash != store[node].hash ==> newHash !in nodeMap
      requires Rising(Rehash(store, node, newHash), if listening then
        Reindex(nodeMap, node, store[node].hash, newHash) else nodeMap,
                      listening, at, x, a, idle)
      modifies this`store, this`nodeMap, this`lastNodeHash
      ensures Shaped(store, at) && FitsBut(store, at, Apex) && (listening ==> Exact(nodeMap, store, at))
      ensures (forall id :: id in store <==> id in old(store)) && TipsKept(old(store), store, at, a, newHash)
      ensures !listening ==> nodeMap == old(nodeMap) && lastNodeHash == old(lastNodeHash)
      ensures listening ==>
        forall id :: Tracks(old(nodeMap), old(lastNodeHash), id) ==> Tracks(nodeMap, lastNodeHash, id)
    {
      hide Exact, Marked, FitsBut;
      HungAttached(store, at, a);
      assert Hung(store, at, a);
      if listening {
        forall id | Tracks(nodeMap, lastNodeHash, id)
          ensures Tracks(Reindex(nodeMap, node, store[node].hash, newHash),
            if lastNodeHash == Some(store[node].hash) then Some(newHash) else lastNodeHash, id)
        {
          TrackStep(nodeMap, store, at, a, newHash, lastNodeHash, id);
        }
      }
      SetNodeHash(node, newHash);
      ghost var c := a;
      var cur := store[node].parent;
      while cur != NIL
        invariant Rising(store, nodeMap, listening, at, x, c, idle) && cur == store[at[c]].parent
          && (cur == NIL <==> c == Apex)
        invariant (forall id :: id in store <==> id in old(store)) && TipsKept(old(store), store, at, a, newHash)
        invariant !listening ==> nodeMap == old(nodeMap) && lastNodeHash == old(lastNodeHash)
        invariant listening ==>
          forall id :: Tracks(old(nodeMap), old(lastNodeHash), id) ==> Tracks(nodeMap, lastNodeHash, id)
        decreases c
      {
        RehashParent(cur, c, x, idle);
        c := c.up;
        assert Hung(store, at, c);
        cur := store[cur].parent;
      }
      RiseEnd(store, nodeMap, listening, at, x, idle);
    }

    /** One round of it. */
    method RehashParent(cur: Id, ghost c: Place, ghost x: MerkleHash, ghost idle: bool)
      requires Rising(store, nodeMap, listening, at, x, c, idle) && c != Apex && cur == store[at[c]].parent
      modifies this`store, this`nodeMap, this`lastNodeHash
      ensures c.up in at && cur == at[c.up] && Rising(store, nodeMap, listening, at, x, c.up, idle)
      ensures forall id :: id in store <==> id in old(store)
      ensures forall b :: IsTip(at, b) ==> store[at[b]].hash == old(store)[at[b]].hash
      ensures !listening ==> nodeMap == old(nodeMap) && lastNodeHash == old(lastNodeHash)
      ensures listening ==>
        forall id :: Tracks(old(nodeMap), old(lastNodeHash), id) ==> Tracks(nodeMap, lastNodeHash, id)
    {
      hide Marked, FitsBut, Exact;
      UnderParent(store, at, c);
      HungAttached(store, at, c.up);
      var y := Hash(store[store[cur].left].hash, store[store[cur].right].hash, RIGHT);
      RiseStep(store, nodeMap, listening, at, x, c, idle, y);
      if listening {
        forall id | Tracks(nodeMap, lastNodeHash, id)
          ensures Tracks(Reindex(nodeMap, cur, store[cur].hash, y), if lastNodeHash == Some(store[cur].hash) then
            Some(y) else lastNodeHash, id)
        {
          TrackStep(nodeMap, store, at, c.up, y, lastNodeHash, id);
        }
      }
      SetNodeHash(cur, y);
    }

    /**
      The climb of `append`: one parent per bit below the lowest set bit of the size, from the last leaf to the
      last peak.
     */
    method ClimbToPeak(lastNode: Id, n: nat, ghost ts: seq<Tree>) returns (nodeToReplace: Id)
      requires Shaped(store, at) && 0 < n == |ts| && Spine(PopCount(n - 1)) in at
        && at[Spine(PopCount(n - 1))] == lastNode
      ensures Spine(PeakDepth(n)) in at && nodeToReplace == at[Spine(PeakDepth(n))]
    {
      hide PopCount, LowBit, PeakDepth, Hung;
      var depthToReplace := DepthToReplace(n);
      PeakClimb(n);
      nodeToReplace := lastNode;
      for i := 0 to depthToReplace
        invariant Spine(PopCount(n - 1) - i) in at && nodeToReplace == at[Spine(PopCount(n - 1) - i)]
      {
        UnderParent(store, at, Spine(PopCount(n - 1) - i));
        nodeToReplace := store[nodeToReplace].parent;
      }
    }

    /** The height of the last peak of a tree of size `n`. */
    static method DepthToReplace(n: nat) returns (depthToReplace: nat)
      requires n > 0
      ensures depthToReplace == PopCount(LowBit(n) - 1)
    {
      var leastSignificantBit := AndNot(n, n - 1);
      AndNotIsolatesLowBit(n);
      depthToReplace := CountOne(leastSignificantBit - 1);
    }

    /** A new, unattached node. */
    method NewNode(hash: MerkleHash) returns (id: Id)
      requires forall i :: i in store ==> 0 < i <= cursor
      modifies this`store, this`cursor
      ensures id !in old(store) && id == cursor == old(cursor) + 1
        && store == old(store)[id := Record(hash, NIL, NIL, NIL)]
      ensures forall i :: i in store ==> 0 < i <= cursor
    {
      cursor := cursor + 1;
      id := cursor;
      store := store[id := Record(hash, NIL, NIL, NIL)];
    }

    method SetParent(node: Id, parent: Id)
      requires node in store
      modifies this`store
      ensures store == old(store)[node := old(store)[node].(parent := parent)]
    {
      store := store[node := store[node].(parent := parent)];
    }

    method SetLeftChild(node: Id, left: Id)
      requires node in store
      modifies this`store
      ensures store == old(store)[node := old(store)[node].(left := left)]
    {
      store := store[node := store[node].(left := left)];
    }

    method SetRightChild(node: Id, right: Id)
      requires node in store
      modifies this`store
      ensures store == old(store)[node := old(store)[node].(right := right)]
    {
      store := store[node := store[node].(right := right)];
    }

    /** Make `l` and `r` the children of `id`. */
    method LinkChildren(id: Id, l: Id, r: Id)
      requires id in store && l in store && r in store && id != l && id != r && l != r
      modifies this`store
      ensures LinkedUnder(old(store), store, id, l, r)
    {
      SetLeftChild(id, l);
      SetRightChild(id, r);
      SetParent(l, id);
      SetParent(r, id);
    }

    /** A new node over two others, below `parent`. */
    method NewJoint(hash: MerkleHash, parent: Id, left: Id, right: Id) returns (id: Id)
      requires forall i :: i in store ==> 0 < i <= cursor
      modifies this`store, this`cursor
      ensures id !in old(store) && id != NIL && store == old(store)[id := Record(hash, parent, left, right)]
      ensures forall i :: i in store ==> 0 < i <= cursor
    {
      id := NewNode(hash);
      SetParent(id, parent);
      SetLeftChild(id, left);
      SetRightChild(id, right);
    }

    /** The body of the loop of `append` up to the rehash: put a joint over the last peak and the new leaf. */
    method JoinLeaf(hashToInsert: MerkleHash, nodeToReplace: Id) returns (nodeToInsert: Id, newJointNode: Id)
      requires forall i :: i in store ==> 0 < i <= cursor
      requires nodeToReplace in store && store[nodeToReplace].parent in store.Keys + {NIL}
      requires store[nodeToReplace].parent != nodeToReplace
      modifies this`store, this`cursor, this`nodeMap
      ensures forall i :: i in store ==> 0 < i <= cursor
      ensures {nodeToInsert, newJointNode} !! old(store).Keys + {NIL} && nodeToInsert != newJointNode
      ensures IsJoin(old(store), store, nodeToReplace, newJointNode, nodeToInsert, hashToInsert)
      ensures nodeMap == old(nodeMap)[hashToInsert := nodeToInsert][store[newJointNode].hash := newJointNode]
    {
      nodeToInsert := NewNode(hashToInsert);
      nodeMap := nodeMap[hashToInsert := nodeToInsert];
      var newJointNodeHash := Hash(hashToInsert, store[nodeToReplace].hash, LEFT);
      var pn := store[nodeToReplace].parent;
      newJointNode := NewJoint(newJointNodeHash, pn, nodeToReplace, nodeToInsert);
      nodeMap := nodeMap[newJointNodeHash := newJointNode];
      SetParent(nodeToInsert, newJointNode);
      SetParent(nodeToReplace, newJointNode);
      if pn != NIL {
        SetRightChild(pn, newJointNode);
      }
    }

    /** One round of `append`, up to the rehash: the tree has a joint over its last peak and the new leaf. */
    method JoinLast(hashToInsert: MerkleHash, lastNode: Id, n: nat, ghost ts: seq<Tree>)
      returns (nodeToInsert: Id, newJointNode: Id, ghost p: Place)
      requires Sound() && 0 < n == |ts| && content == Assemble(ts) && Spine(PopCount(n - 1)) in at
        && at[Spine(PopCount(n - 1))] == lastNode
      requires listening ==> !Occurs(hashToInsert, RootOf(content))
      modifies this`store, this`cursor, this`nodeMap, this`at, this`content
      ensures p == Spine(PeakDepth(n)) && content == Assemble(ts + [Tip(hashToInsert)]) && Bounded()
      ensures Shaped(store, at) && TipsFit(store, at, content) && p in at && at[p] == newJointNode && !IsTip(at, p)
      ensures Rising(store, nodeMap, listening, at, hashToInsert, p, false)
        && Carried(old(at), old(content), at, content, n, n + 1)
      ensures Below(p, true) in at && at[Below(p, true)] == nodeToInsert
      ensures nodeMap == old(nodeMap)[hashToInsert := nodeToInsert][store[newJointNode].hash := newJointNode]
      ensures newJointNode in store && store[newJointNode].hash.Node? && store[newJointNode].hash.right == hashToInsert
    {
      hide PopCount, PeakDepth, Hung, Carried, TipsFit, Rising, Exact, Has, Sub, Assemble;
      var nodeToReplace := ClimbToPeak(lastNode, n, ts);
      p := Spine(PeakDepth(n));
      HungAttached(store, at, p);
      nodeToInsert, newJointNode := JoinLeaf(hashToInsert, nodeToReplace);
      at := JoinedRow(old(store), old(nodeMap), listening, at, content, ts, p, newJointNode, nodeToInsert,
        hashToInsert, store, nodeMap);
      content := Assemble(ts + [Tip(hashToInsert)]);
    }

    /** The rehash above the joint at `p`. */
    method SettleJoint(joint: Id, ghost p: Place, ghost x: MerkleHash)
      requires Bounded() && Shaped(store, at) && TipsFit(store, at, content) && p in at && at[p] == joint
        && !IsTip(at, p)
      requires Rising(store, nodeMap, listening, at, x, p, false)
      modifies this`store, this`nodeMap, this`lastNodeHash
      ensures Sound() && (!listening ==> nodeMap == old(nodeMap) && lastNodeHash == old(lastNodeHash))
    {
      hide Partly, Exact, Marked, FitsBut, TipsFit, Hung;
      StoreSame(store, joint, store[joint].(hash := store[joint].hash));
      UpdateNode(joint, store[joint].hash, p, x, false);
      JoinSettled(old(store), store, at, content, p);
    }

    /** One round of `append` on a row of `n` leaves. */
    method AppendLeaf(hashToInsert: MerkleHash, lastNode: Id, n: nat, ghost ts: seq<Tree>) returns (nodeToInsert: Id)
      requires Sound() && 0 < n == |ts| && content == Assemble(ts) && Spine(PopCount(n - 1)) in at
        && at[Spine(PopCount(n - 1))] == lastNode
      requires listening ==> !Occurs(hashToInsert, RootOf(content))
      modifies this`store, this`cursor, this`nodeMap, this`lastNodeHash, this`at, this`content
      ensures Sound() && content == Assemble(ts + [Tip(hashToInsert)])
      ensures Spine(PopCount(n)) in at && at[Spine(PopCount(n))] == nodeToInsert && Apex in at
        && nodeToInsert in store && store[nodeToInsert].hash == hashToInsert
      ensures Carried(old(at), old(content), at, content, n, n + 1)
        && (!listening ==> Tracks(nodeMap, Some(hashToInsert), nodeToInsert))
      ensures !listening ==>
        Added(old(nodeMap), nodeMap, [hashToInsert]) && (old(Placed(nodeMap, at)) ==> Placed(nodeMap, at))
    {
      hide Shaped, Exact, Rising, Carried, PopCount, PeakDepth, Assemble, TipsFit, Added, Placed;
      var newJointNode;
      ghost var p;
      nodeToInsert, newJointNode, p := JoinLast(hashToInsert, lastNode, n, ts);
      var hash := store[newJointNode].hash;
      SettleJoint(newJointNode, p, hashToInsert);
      PeakClimb(n);
      LastOfRow(ts + [Tip(hashToInsert)]);
      LastHash(store, at, content, Spine(PopCount(n)), hashToInsert);
      NodeNotChild(hash.left, hashToInsert);
      if !listening {
        AddedPair(old(nodeMap), hashToInsert, nodeToInsert, hash, newJointNode);
        if old(Placed(nodeMap, at)) {
          PlacedPair(old(nodeMap), old(at), old(content), at, content, n, hashToInsert, hash, Below(p, true), p);
        }
      }
    }

    /** One round of `append` on an empty tree. */
    method InsertFirst(hashToInsert: MerkleHash) returns (nodeToInsert: Id)
      requires Empty()
      modifies this`store, this`cursor, this`nodeMap, this`merkleRoot, this`at, this`content
      ensures Sound() && content == Tip(hashToInsert) && Complete(at, content) && at == map[Apex := nodeToInsert]
      ensures nodeToInsert in store && store[nodeToInsert].hash == hashToInsert
        && nodeMap == map[hashToInsert := nodeToInsert]
    {
      nodeToInsert := NewNode(hashToInsert);
      nodeMap := nodeMap[hashToInsert := nodeToInsert];
      merkleRoot := Some(hashToInsert);
      at, content := map[Apex := nodeToInsert], Tip(hashToInsert);
      PartlyOne(store, nodeToInsert, content);
      assert at[Apex] == nodeToInsert;
    }

    /** The tree is the row of `ts`, and `lastNode` is its last. */
    ghost predicate RowOf(ts: seq<Tree>, lastNode: Id)
      reads this
    {
      if ts == [] then Empty() else
        && Sound() && content == Assemble(ts) && Apex in at && lastNode in store
        && Spine(PopCount(|ts| - 1)) in at && at[Spine(PopCount(|ts| - 1))] == lastNode
    }

    /** Every node of `at0` is still there, and no node of the row is missing that was not missing then. */
    ghost predicate Grown(at0: Places, t0: Tree, n0: nat, n: nat)
      requires n0 <= n
      reads this
    {
      if n0 == 0 then Apex in at ==> Complete(at, content) else Carried(at0, t0, at, content, n0, n)
    }

    /** One round of `append`. */
    method AppendNext(hashToInsert: MerkleHash, lastNode: Id, n: nat, ghost ts: seq<Tree>, ghost at0: Places,
                      ghost t0: Tree, ghost n0: nat)
      returns (nodeToInsert: Id)
      requires n0 <= n == |ts| && RowOf(ts, lastNode) && Grown(at0, t0, n0, n)
      requires listening && ts != [] ==> !Occurs(hashToInsert, RootOf(content))
      modifies this`store, this`cursor, this`nodeMap, this`lastNodeHash, this`merkleRoot, this`at, this`content
      ensures RowOf(ts + [Tip(hashToInsert)], nodeToInsert) && Grown(at0, t0, n0, n + 1)
        && store[nodeToInsert].hash == hashToInsert
      ensures !listening ==>
        Tracks(nodeMap, Some(hashToInsert), nodeToInsert) && Added(old(nodeMap), nodeMap, [hashToInsert])
      ensures !listening && old(Placed(nodeMap, at)) ==> Placed(nodeMap, at)
      ensures ts != [] ==> merkleRoot == old(merkleRoot)
    {
      hide Carried, Partly, Exact, Complete, PopCount, Added, Placed;
      if n == 0 {
        nodeToInsert := InsertFirst(hashToInsert);
        RowOfOne();
        AddedOne(map[], hashToInsert, nodeToInsert);
        PlacedOne(hashToInsert, nodeToInsert);
      } else {
        nodeToInsert := AppendLeaf(hashToInsert, lastNode, n, ts);
        if n0 > 0 {
          CarriedOn(at0, t0, old(at), old(content), n0, n, at, content);
        } else {
          CarriedComplete(old(at), old(content), at, content, n, n + 1);
        }
      }
    }

    /** The loop of `append`. */
    method AppendAll(leafHashes: seq<MerkleHash>, firstLast: Id, size0: nat, ghost ts: seq<Tree>)
      returns (lastNode: Id, n: nat)
      requires size0 == |ts| && RowOf(ts, firstLast) && (listening ==> Strangers(leafHashes, ts, content))
      modifies this`store, this`cursor, this`nodeMap, this`lastNodeHash, this`merkleRoot, this`at, this`content
      ensures RowOf(ts + Tips(leafHashes), lastNode) && n == size0 + |leafHashes|
        && Grown(old(at), old(content), size0, n)
      ensures if leafHashes == [] then lastNode == firstLast else store[lastNode].hash == leafHashes[|leafHashes| - 1]
      ensures !listening ==>
        Added(old(nodeMap), nodeMap, leafHashes) && (old(Placed(nodeMap, at)) ==> Placed(nodeMap, at))
      ensures !listening && leafHashes != [] ==> Tracks(nodeMap, Some(leafHashes[|leafHashes| - 1]), lastNode)
      ensures leafHashes == [] ==>
        nodeMap == old(nodeMap) && lastNodeHash == old(lastNodeHash) && at == old(at) && content == old(content)
          && store == old(store)
      ensures ts != [] ==> merkleRoot == old(merkleRoot)
    {
      hide Carried, Partly, Exact, Complete, PopCount, Added, Placed, Assemble, Tracks, Strangers, Spine;
      n, lastNode := size0, firstLast;
      if ts != [] { CarriedSelf(store, at, content, n); }
      AddedNone(nodeMap);
      assert ts + Tips([]) == ts;
      for i := 0 to |leafHashes|
        invariant n == size0 + i && RowOf(ts + Tips(leafHashes[..i]), lastNode)
          && Grown(old(at), old(content), size0, n)
        invariant if i == 0 then lastNode == firstLast else store[lastNode].hash == leafHashes[i - 1]
        invariant listening ==> Strangers(leafHashes[i..], ts + Tips(leafHashes[..i]), content)
        invariant !listening ==>
          Added(old(nodeMap), nodeMap, leafHashes[..i]) && (old(Placed(nodeMap, at)) ==> Placed(nodeMap, at))
        invariant !listening && i > 0 ==> Tracks(nodeMap, Some(leafHashes[i - 1]), lastNode)
        invariant i == 0 ==>
          nodeMap == old(nodeMap) && lastNodeHash == old(lastNodeHash) && at == old(at) && content == old(content)
            && store == old(store)
        invariant ts != [] ==> merkleRoot == old(merkleRoot)
      {
        ghost var us, rest := ts + Tips(leafHashes[..i]), leafHashes[i..];
        ghost var index := nodeMap;
        if listening { StrangersNext(rest, us, content); }
        assert rest[0] == leafHashes[i] && rest[1..] == leafHashes[i + 1..]
          && leafHashes[..i + 1] == leafHashes[..i] + [leafHashes[i]];
        assert us + [Tip(leafHashes[i])] == ts + Tips(leafHashes[..i + 1]);
        lastNode := AppendNext(leafHashes[i], lastNode, n, us, old(at), old(content), size0);
        if !listening { AddedOn(old(nodeMap), index, nodeMap, leafHashes[..i], leafHashes[i]); }
        n := n + 1;
      }
      assert leafHashes[..|leafHashes|] == leafHashes;
    }

    /** The last leaf of the row can be found. */
    ghost predicate LastFound()
      reads this
    {
      lastNodeHash.Some? && lastNodeHash.value in nodeMap
    }

    /** The tree is the row of `ts` as far as it is known, and its last leaf, if found, is the row's. */
    ghost predicate Ready(ts: seq<Tree>)
      reads this
    {
      && size == |ts| && (ts == [] ==> Empty())
      && (ts != [] ==> Sound() && content == Assemble(ts) && (LastFound() ==> RowOf(ts, nodeMap[lastNodeHash.value])))
    }

    /** `append`: an error when the size is unknown; a nil dereference when there is no last leaf to end with. */
    method Append(leafHashes: seq<MerkleHash>, ghost ts: seq<Tree>) returns (r: AppendResult)
      requires size == -1 || (Ready(ts) && (listening ==> Strangers(leafHashes, ts, content)))
      modifies this`store, this`cursor, this`nodeMap, this`size, this`lastNodeHash, this`merkleRoot, this`at,
        this`content
      ensures r == UnknownSize <==> old(size) == -1
      ensures r == UnknownSize ==> unchanged(this)
      ensures r == NilLastNode <==> old(size) != -1 && if old(size) == 0 then leafHashes == [] else !old(LastFound())
      ensures r == Appended ==>
        && size == old(size) + |leafHashes| && content == Assemble(ts + Tips(leafHashes)) && Sound()
        && Grown(old(at), old(content), |ts|, size) && (old(size) > 0 ==> merkleRoot == old(merkleRoot))
        && Spine(PopCount(size - 1)) in at && lastNodeHash == Some(store[at[Spine(PopCount(size - 1))]].hash)
      ensures r == Appended && leafHashes != [] ==> lastNodeHash == Some(leafHashes[|leafHashes| - 1])
      ensures r == Appended && leafHashes == [] ==>
        nodeMap == old(nodeMap) && at == old(at) && content == old(content) && store == old(store)
      ensures r == Appended && !listening ==>
        Added(old(nodeMap), nodeMap, leafHashes) && (old(Placed(nodeMap, at)) ==> Placed(nodeMap, at))
      ensures r == Appended && !listening && leafHashes != [] ==>
        Tracks(nodeMap, lastNodeHash, at[Spine(PopCount(size - 1))])
    {
      hide Carried, Partly, Exact, PopCount, Added, Placed, Assemble, Strangers, Complete;
      if size == -1 {
        return UnknownSize;
      }
      var n, lastNode := size, NIL;
      if n > 0 {
        if lastNodeHash.None? || lastNodeHash.value !in nodeMap {
          return NilLastNode;
        }
        lastNode := nodeMap[lastNodeHash.value];
      }
      if n == 0 && leafHashes == [] {
        return NilLastNode;
      }
      lastNode, n := AppendAll(leafHashes, lastNode, n, ts);
      size := n;
      lastNodeHash := Some(store[lastNode].hash);
      r := Appended;
    }

    /** `createMerkleProof`: the siblings of the nodes on the way up, and their sides. */
    method CreateMerkleProof(node: Id, ghost a: Place) returns (hashes: seq<MerkleHash>, path: seq<Pos>)
      requires Partly(store, at, content) && a in at && at[a] == node
      ensures hashes == Proof(content, a) && path == Sides(a)
    {
      hide Hung, Proof, Sides;
      hashes, path := [], [];
      var cur, pnode := node, store[node].parent;
      ghost var b := a;
      assert Hung(store, at, a);
      UpNil(store, at, a);
      while pnode != NIL
        invariant b in at && at[b] == cur && pnode == store[cur].parent && (pnode == NIL <==> b == Apex)
        invariant hashes + Proof(content, b) == Proof(content, a) && path + Sides(b) == Sides(a)
        decreases b
      {
        UnderParent(store, at, b);
        UpNil(store, at, b.up);
        ProofStep(content, a, b, hashes, path);
        var lnode, rnode := store[pnode].left, store[pnode].right;
        assert b == Below(b.up, b.right);
        if lnode == cur {
          path, hashes := path + [RIGHT], hashes + [store[rnode].hash];
        } else {
          path, hashes := path + [LEFT], hashes + [store[lnode].hash];
        }
        cur := pnode;
        pnode := store[cur].parent;
        b := b.up;
      }
      ProofEnd(content);
    }

    /** The climb of `updateMerkleRoot`. */
    method RootHash(start: Id, ghost a: Place) returns (hash: MerkleHash)
      requires Partly(store, at, content) && a in at && at[a] == start
      ensures hash == RootOf(content)
    {
      hide Hung;
      var node := start;
      ghost var b := a;
      UpNil(store, at, a);
      while store[node].parent != NIL
        invariant b in at && at[b] == node && (store[node].parent == NIL <==> b == Apex)
        decreases b
      {
        UnderParent(store, at, b);
        UpNil(store, at, b.up);
        node := store[node].parent;
        b := b.up;
      }
      hash := store[node].hash;
    }
  }
}
