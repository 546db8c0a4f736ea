/** The full Merkle tree: its nodes are indexed by their hashes, and the index follows every change. */
module FullTree {
  import opened Bits
  import opened MerkleSpec
  import opened Trees
  import opened MerklePaths
  import opened Options
  import opened NodeStore
  import opened PlacedTrees
  import opened JoinedTrees
  import opened MerkleTrees
  import opened Building
  import opened Hooking
  import opened ClipSpec

  datatype HookResult = Hooked | NilSubtree | NotInTop | NotInSub | NilRoot

  class FullMerkleTree {
    const tree: MerkleTree

    /** The top layer: one tree for each leaf appended. Nothing is said of it for a tree clipped from another. */
    ghost var row: seq<Tree>

    /**
      `NewFullMerkleTree`: the batch build has the nodes and the root of the leaves, and indexes each if and only
      if no two share a hash.
     */
    constructor (leaves: seq<MerkleHash>)
      ensures fresh(tree) && tree.listening && tree.size == |leaves| && row == Tips(leaves)
      ensures leaves == [] ==> tree.Empty() && Inv() && Whole()
      ensures leaves != [] ==>
        tree.merkleRoot == Some(Root(leaves, 0, |leaves|)) && tree.content == Assemble(Tips(leaves))
      ensures leaves != [] ==> Stands(tree.store, tree.at, tree.content)
      ensures leaves != [] ==> (Inv() <==> NoTwins(tree.content)) && (Inv() ==> Whole())
    {
      tree := new MerkleTree(true);
      row := Tips(leaves);
      new;
      if |leaves| != 0 {
        Init(leaves);
      }
    }

    /**
      The nodes present are part of the content and exactly they are indexed; the recorded root and the last leaf
      are current.
     */
    ghost predicate Inv()
      reads this, tree
    {
      && tree.listening
      && if tree.Empty() then tree.merkleRoot == None && tree.lastNodeHash == None else
         tree.Sound() && tree.merkleRoot == Some(RootOf(tree.content)) && tree.LastFound()
    }

    /** The content is that of the top layer, all its nodes are present, and its last leaf is the one recorded. */
    ghost predicate Whole()
      reads this, tree
    {
      tree.Ready(row) && (row != [] ==> Complete(tree.at, tree.content))
    }

    /** Since `st0` the nodes of `t` were built. */
    ghost predicate Made(st0: Store, at: Places, t: Tree, node: Id)
      reads tree
    {
      && tree.Bounded() && Filed(tree.nodeMap, tree.store, {})
      && Built(st0, tree.store, at, t) && at[Apex] == node && Complete(at, t)
    }

    /** `init` on a non-empty list of leaves. */
    method Init(leaves: seq<MerkleHash>)
      requires leaves != [] && tree.listening && tree.Empty() && row == Tips(leaves)
      modifies tree
      ensures tree.size == |leaves| && tree.merkleRoot == Some(Root(leaves, 0, |leaves|))
        && tree.content == Assemble(Tips(leaves))
      ensures Stands(tree.store, tree.at, tree.content) && (Inv() <==> NoTwins(tree.content)) && (Inv() ==> Whole())
    {
      hide Built, Complete, Filed, Exact, NoTwins, Assemble, PopCount, Hung, Has, HashIn, Root, RootOf;
      tree.size := |leaves|;
      var node;
      ghost var at;
      node, at := BuildPeaks(leaves);
      tree.at, tree.content := at, Assemble(Tips(leaves));
      tree.lastNodeHash := Some(leaves[|leaves| - 1]);
      InitDone(tree.store, tree.nodeMap, at, leaves, tree.content);
      tree.merkleRoot := Some(tree.store[node].hash);
    }

    /** The loop of `init`: perfect peaks from the right, each joined to what is behind it. */
    method BuildPeaks(leaves: seq<MerkleHash>) returns (node: Id, ghost at: Places)
      requires leaves != [] && tree.Empty()
      modifies tree`store, tree`cursor, tree`nodeMap
      ensures Made(map[], at, Assemble(Tips(leaves)), node)
    {
      hide Built, Complete, Assemble, LowBit;
      node, at := NIL, map[];
      var numberOfNodes := |leaves|;
      while numberOfNodes > 0
        invariant 0 <= numberOfNodes <= |leaves|
        invariant numberOfNodes == |leaves| ==> node == NIL && tree.Empty()
        invariant numberOfNodes < |leaves| ==>
          node != NIL && Made(map[], at, Assemble(Tips(leaves)[numberOfNodes..]), node)
        invariant numberOfNodes > 0 ==> Cleared(numberOfNodes, |leaves|)
      {
        node, at := AddPeak(leaves, numberOfNodes, node, at);
        AndNotIsolatesLowBit(numberOfNodes);
        var lsb := AndNot(numberOfNodes, numberOfNodes - 1);
        if numberOfNodes > lsb { ClearNext(numberOfNodes, |leaves|); }
        numberOfNodes := numberOfNodes - lsb;
      }
      assert Tips(leaves)[0..] == Tips(leaves);
    }

    /** One round of `init`. */
    method AddPeak(leaves: seq<MerkleHash>, numberOfNodes: nat, node: Id, ghost at: Places)
      returns (node': Id, ghost at': Places)
      requires Cleared(numberOfNodes, |leaves|)
      requires if numberOfNodes == |leaves| then node == NIL && tree.Empty() else
        node != NIL && Made(map[], at, Assemble(Tips(leaves)[numberOfNodes..]), node)
      modifies tree`store, tree`cursor, tree`nodeMap
      ensures node' != NIL && Made(map[], at', Assemble(Tips(leaves)[numberOfNodes - LowBit(numberOfNodes)..]), node')
    {
      hide Built, Complete, Assemble, LowBit, Filed;
      AndNotIsolatesLowBit(numberOfNodes);
      var lsb := AndNot(numberOfNodes, numberOfNodes - 1);
      ghost var ts, k := Tips(leaves), numberOfNodes - lsb;
      assert ts[k..numberOfNodes] == Tips(leaves[k..numberOfNodes]);
      if numberOfNodes == |leaves| {
        assert ts[k..numberOfNodes] == ts[k..];
        StartEmpty();
      }
      if lsb == 1 {
        node', at' := CreateLeaf(leaves[numberOfNodes - 1]);
        assert ts[k..] == [Tip(leaves[numberOfNodes - 1])];
        RowOfTip(leaves[numberOfNodes - 1]);
      } else {
        LowBitIdempotent(numberOfNodes);
        var subTreeRoot;
        ghost var l, st1 := map[], tree.store;
        subTreeRoot, l := BuildPerfectSubtree(leaves[numberOfNodes - lsb..numberOfNodes]);
        if node == NIL {
          node', at' := subTreeRoot, l;
        } else {
          PeakJoin(ts, numberOfNodes);
          ghost var tl, tr := Assemble(ts[k..numberOfNodes]), Assemble(ts[numberOfNodes..]);
          BuiltNext(map[], st1, tree.store, at, tr, l, tl);
          BuiltOtherWay(map[], tree.store, at, tr, l, tl);
          node', at' := CreateParent(subTreeRoot, node, map[], l, tl, at, tr);
        }
      }
    }

    lemma {:induction false} StartEmpty()
      requires tree.Empty()
      ensures tree.Bounded() && Filed(tree.nodeMap, tree.store, {}) && tree.store == map[]
    {
    }

    /** `createNode`. */
    method CreateNode(hash: MerkleHash) returns (id: Id)
      requires tree.Bounded() && Filed(tree.nodeMap, tree.store, {})
      modifies tree`store, tree`cursor, tree`nodeMap
      ensures tree.Bounded() && Filed(tree.nodeMap, tree.store, {})
      ensures id !in old(tree.store) && id != NIL && tree.store == old(tree.store)[id := Record(hash, NIL, NIL, NIL)]
    {
      FiledNew(tree.nodeMap, tree.store, {}, tree.cursor + 1, Record(hash, NIL, NIL, NIL));
      id := tree.NewNode(hash);
      tree.nodeMap := tree.nodeMap[hash := id];
    }

    method CreateLeaf(hash: MerkleHash) returns (id: Id, ghost at: Places)
      requires tree.Bounded() && Filed(tree.nodeMap, tree.store, {})
      modifies tree`store, tree`cursor, tree`nodeMap
      ensures id != NIL && Made(old(tree.store), at, Tip(hash), id)
    {
      hide Filed;
      id := CreateNode(hash);
      at := BuiltOne(old(tree.store), id, hash, Tip(hash));
    }

    /** A new node over two finished subtrees. */
    method CreateParent(leftNode: Id, rightNode: Id, ghost st0: Store, ghost l: Places, ghost tl: Tree,
                        ghost r: Places, ghost tr: Tree)
      returns (id: Id, ghost at: Places)
      requires tree.Bounded() && Filed(tree.nodeMap, tree.store, {}) && BuiltBoth(st0, tree.store, l, tl, r, tr)
      requires leftNode == l[Apex] && rightNode == r[Apex] && Complete(l, tl) && Complete(r, tr)
      modifies tree`store, tree`cursor, tree`nodeMap
      ensures id != NIL && Made(st0, at, Fork(tl, tr), id)
    {
      hide Filed, Complete;
      id := CreateNode(Hash(tree.store[leftNode].hash, tree.store[rightNode].hash, RIGHT));
      ghost var st := tree.store;
      BuiltBeside(st0, old(tree.store), l, tl, r, tr, id, st[id]);
      tree.LinkChildren(id, leftNode, rightNode);
      FiledLinked(tree.nodeMap, st, {}, tree.store, id, leftNode, rightNode);
      at := BuiltJoin(st0, st, id, l, tl, r, tr, tree.store);
    }

    /** `buildPerfectSubtree`: a subtree over `2^t` leaves, `t > 0`. */
    method BuildPerfectSubtree(leaves: seq<MerkleHash>) returns (node: Id, ghost at: Places)
      requires |leaves| > 1 && LowBit(|leaves|) == |leaves| && tree.Bounded() && Filed(tree.nodeMap, tree.store, {})
      modifies tree`store, tree`cursor, tree`nodeMap
      ensures node != NIL && Made(old(tree.store), at, Assemble(Tips(leaves)), node)
      decreases |leaves|, 0
    {
      hide Built, BuiltBoth, Complete, LowBit, Filed, PowBelow;
      var size := |leaves|;
      PowerHalves(size);
      ghost var ts := Tips(leaves);
      assert ts[..size / 2] == Tips(leaves[..size / 2]) && ts[size / 2..] == Tips(leaves[size / 2..]);
      var leftNode, rightNode;
      ghost var l, r;
      leftNode, l := BuildHalf(leaves[..size / 2]);
      ghost var st1 := tree.store;
      rightNode, r := BuildHalf(leaves[size / 2..]);
      BuiltNext(old(tree.store), st1, tree.store, l, Assemble(ts[..size / 2]), r, Assemble(ts[size / 2..]));
      node, at := CreateParent(leftNode, rightNode, old(tree.store), l, Assemble(ts[..size / 2]), r,
        Assemble(ts[size / 2..]));
    }

    /** Half of a perfect subtree: a leaf or a smaller perfect subtree. */
    method BuildHalf(leaves: seq<MerkleHash>) returns (node: Id, ghost at: Places)
      requires leaves != [] && LowBit(|leaves|) == |leaves| && tree.Bounded() && Filed(tree.nodeMap, tree.store, {})
      modifies tree`store, tree`cursor, tree`nodeMap
      ensures node != NIL && Made(old(tree.store), at, Assemble(Tips(leaves)), node)
      decreases |leaves|, 1
    {
      hide Built, Complete, LowBit, Filed;
      if |leaves| == 1 {
        node, at := CreateLeaf(leaves[0]);
      } else {
        node, at := BuildPerfectSubtree(leaves);
      }
    }

    /** `updateMerkleRoot`. */
    method UpdateMerkleRoot()
      requires tree.listening && tree.Sound() && tree.LastFound()
      modifies tree`merkleRoot
      ensures Inv() && tree.merkleRoot == Some(RootOf(tree.content))
    {
      hide Hung, Exact;
      ghost var a := PlaceOf(tree.nodeMap, tree.store, tree.at, tree.lastNodeHash.value);
      var hash := tree.RootHash(tree.nodeMap[tree.lastNodeHash.value], a);
      tree.merkleRoot := Some(hash);
    }

    /** `Append`: the top layer grows by the new leaves, and what is below its other leaves stays as it is. */
    method Append(leaves: seq<MerkleHash>) returns (r: AppendResult)
      requires Inv() && Whole() && Strangers(leaves, row, tree.content)
      modifies tree, this`row
      ensures r == NilLastNode <==> old(row) == [] && leaves == []
      ensures r != NilLastNode ==> r == Appended && Inv() && Whole() && row == old(row) + Tips(leaves)
      ensures r != NilLastNode && old(row) != [] ==>
        Carried(old(tree.at), old(tree.content), tree.at, tree.content, |old(row)|, |row|)
    {
      hide Hung, Exact, Carried, Strangers, PopCount, Assemble, Complete;
      r := tree.Append(leaves, row);
      if r == Appended {
        if row != [] {
          CarriedComplete(old(tree.at), old(tree.content), tree.at, tree.content, |row|, |row| + |leaves|);
        }
        AppendedLast(tree.store, tree.nodeMap, tree.at, |row| + |leaves|);
        UpdateMerkleRoot();
        row := row + Tips(leaves);
      }
    }

    /** `UpdateLeaf`: the leaf with that hash, in whichever layer, gets the new one, and everything above it follows. */
    method UpdateLeaf(originalHash: MerkleHash, newHash: MerkleHash) returns (ok: bool, ghost a: Place)
      requires Inv() && (forall b :: b in tree.at && HashIn(tree.content, b) == originalHash ==> TipIn(tree.content, b))
      requires newHash == originalHash || tree.Empty() || !Occurs(newHash, RootOf(tree.content))
      modifies tree, this`row
      ensures Inv() && (old(Whole()) ==> Whole() && |row| == |old(row)|)
      ensures ok <==> exists b :: b in old(tree.at) && HashIn(old(tree.content), b) == originalHash
      ensures !ok ==> unchanged(tree) && row == old(row)
      ensures ok ==>
        tree.at == old(tree.at) && a in tree.at && TipIn(old(tree.content), a)
          && Sub(old(tree.content), a) == Tip(originalHash)
      ensures ok ==> tree.content == Put(old(tree.content), a, Tip(newHash))
    {
      hide Exact, Hung, Complete, Assemble, PopCount, Put;
      a := Apex;
      if originalHash !in tree.nodeMap {
        NotPresent(tree.store, tree.nodeMap, tree.at, tree.content, originalHash);
        return false, a;
      }
      a := Present(tree.store, tree.nodeMap, tree.at, tree.content, originalHash);
      ReplaceLeaf(tree.nodeMap[originalHash], newHash, a);
      UpdateMerkleRoot();
      ok := true;
    }

    method ReplaceLeaf(node: Id, newHash: MerkleHash, ghost a: Place)
      requires Inv() && tree.Sound() && a in tree.at && tree.at[a] == node && TipIn(tree.content, a)
      requires newHash == Sub(tree.content, a).hash || !Occurs(newHash, RootOf(tree.content))
      modifies tree`store, tree`nodeMap, tree`lastNodeHash, tree`content, this`row
      ensures tree.Sound() && tree.LastFound() && tree.content == Put(old(tree.content), a, Tip(newHash))
      ensures Complete(tree.at, old(tree.content)) ==> Complete(tree.at, tree.content)
      ensures old(Whole()) ==> Whole() && |row| == |old(row)|
      ensures !old(Whole()) ==> row == old(row)
    {
      hide Partly, Exact, PopCount, Assemble, FitsBut, Rising, Complete, TipsKept;
      ghost var last := tree.nodeMap[tree.lastNodeHash.value];
      ghost var us := row;
      if Whole() { us := RowWithPut(row, a, Tip(newHash)); }
      ReplaceReady(tree.store, tree.nodeMap, tree.at, tree.content, a, newHash);
      tree.UpdateNode(node, newHash, a, newHash, newHash == tree.store[node].hash);
      Updated(old(tree.store), tree.at, tree.content, a, newHash, tree.store);
      assert Tracks(tree.nodeMap, tree.lastNodeHash, last);
      tree.content, row := Put(tree.content, a, Tip(newHash)), us;
    }

    /**
      `HookSecondLayerTree`: the leaf with the subtree's root hash gets copies of the subtree's nodes below it, so that
      the content has the subtree there. It fails exactly when there is no such leaf.
     */
    method HookSecondLayerTree(subtree: FullMerkleTree?) returns (r: HookResult, ghost a: Place)
      requires Inv()
      requires subtree != null ==> subtree.Inv() && subtree.tree != tree
      requires subtree != null && !subtree.tree.Empty() ==>
        Sharing(tree.nodeMap, subtree.tree.nodeMap, RootOf(subtree.tree.content))
      modifies tree, this`row
      ensures r == NilSubtree <==> subtree == null
      ensures r == NilRoot <==> subtree != null && subtree.tree.Empty()
      ensures r == NotInTop <==>
        subtree != null && !subtree.tree.Empty()
          && forall b :: b in old(tree.at) ==> HashIn(old(tree.content), b) != RootOf(subtree.tree.content)
      ensures r != NotInSub && (r != Hooked ==> unchanged(tree) && row == old(row))
      ensures Inv() && (old(Whole()) && (r == Hooked ==> Complete(subtree.tree.at, subtree.tree.content)) ==>
        Whole() && |row| == |old(row)|)
      ensures r == Hooked ==>
        a in old(tree.at) && Has(old(tree.content), a) && HashIn(old(tree.content), a) == RootOf(subtree.tree.content)
      ensures r == Hooked ==>
        tree.content == if IsTip(subtree.tree.at, Apex) then old(tree.content)
          else Put(old(tree.content), a, subtree.tree.content)
      ensures r == Hooked ==> tree.merkleRoot == old(tree.merkleRoot)
    {
      hide Exact, Hung, Complete, Assemble, PopCount, Put, Sharing;
      a := Apex;
      if subtree == null {
        return NilSubtree, a;
      }
      if subtree.tree.merkleRoot == None {
        return NilRoot, a;
      }
      var root := subtree.tree.merkleRoot.value;
      if root !in tree.nodeMap {
        NotPresent(tree.store, tree.nodeMap, tree.at, tree.content, root);
        return NotInTop, a;
      }
      var node := tree.nodeMap[root];
      a := Present(tree.store, tree.nodeMap, tree.at, tree.content, root);
      if root !in subtree.tree.nodeMap {
        RootPresent(subtree.tree.store, subtree.tree.nodeMap, subtree.tree.at, subtree.tree.content);
        return NotInSub, a;
      }
      var subtreeRoot := subtree.tree.nodeMap[root];
      RootPresent(subtree.tree.store, subtree.tree.nodeMap, subtree.tree.at, subtree.tree.content);
      if subtree.tree.store[subtreeRoot].left != NIL && subtree.tree.store[subtreeRoot].right != NIL {
        HookCopies(subtree, node, subtreeRoot, a);
      }
      r := Hooked;
    }

    /** Copies of both halves of the subtree are hung under the node. */
    method HookCopies(subtree: FullMerkleTree, node: Id, subtreeRoot: Id, ghost a: Place)
      requires Inv() && tree.Sound() && subtree.Inv() && subtree.tree.Sound() && subtree.tree != tree
        && !IsTip(subtree.tree.at, Apex)
      requires Sharing(tree.nodeMap, subtree.tree.nodeMap, RootOf(subtree.tree.content))
        && subtreeRoot == subtree.tree.at[Apex]
      requires a in tree.at && tree.at[a] == node && HashIn(tree.content, a) == RootOf(subtree.tree.content)
      modifies tree`store, tree`cursor, tree`nodeMap, tree`at, tree`content, this`row
      ensures Inv() && tree.content == Put(old(tree.content), a, subtree.tree.content)
      ensures old(Whole()) && Complete(subtree.tree.at, subtree.tree.content) ==> Whole() && |row| == |old(row)|
    {
      hide Exact, Hung, Complete, Assemble, PopCount, Put, Sharing, Has, RootOf, HashIn, IsTip, Occurs;
      ghost var sub, us := subtree.tree, row;
      ghost var at' := LinkCopies(subtree, node, subtreeRoot, a);
      if old(Whole()) && Complete(sub.at, sub.content) { us := HookedRow(row, tree.at, a, sub.content); }
      tree.at, tree.content, row := at', Put(tree.content, a, sub.content), us;
    }

    method LinkCopies(subtree: FullMerkleTree, node: Id, subtreeRoot: Id, ghost a: Place) returns (ghost at': Places)
      requires tree.Sound() && tree.listening && subtree.tree.Sound() && subtree.tree.listening
        && subtree.tree != tree && !IsTip(subtree.tree.at, Apex)
      requires Sharing(tree.nodeMap, subtree.tree.nodeMap, RootOf(subtree.tree.content))
        && subtreeRoot == subtree.tree.at[Apex]
      requires a in tree.at && tree.at[a] == node && HashIn(tree.content, a) == RootOf(subtree.tree.content)
      modifies tree`store, tree`cursor, tree`nodeMap
      ensures Has(tree.content, a) && IsTip(tree.at, a) && tree.Bounded()
      ensures var t' := Put(tree.content, a, subtree.tree.content);
        && Partly(tree.store, at', t') && Exact(tree.nodeMap, tree.store, at') && RootOf(t') == RootOf(tree.content)
        && (Complete(tree.at, tree.content) && Complete(subtree.tree.at, subtree.tree.content) ==> Complete(at', t'))
      ensures forall h :: h in old(tree.nodeMap) ==> h in tree.nodeMap && tree.nodeMap[h] == old(tree.nodeMap)[h]
      ensures forall b :: b in tree.at ==> b in at' && at'[b] == tree.at[b]
    {
      hide Exact, Hung, Complete, Put, Sharing, HookReady, Filed;
      ghost var sub, st0 := subtree.tree, tree.store;
      SharedIsTip(tree.store, tree.nodeMap, tree.at, tree.content, a, sub.store, sub.nodeMap, sub.at, sub.content);
      var leftNode, rightNode;
      ghost var l, r;
      leftNode, rightNode, l, r := CopyHalves(subtree, subtreeRoot, a);
      ghost var st := tree.store;
      tree.LinkChildren(node, leftNode, rightNode);
      at' := HookDone(st0, old(tree.nodeMap), st, tree.nodeMap, tree.at, tree.content, a, l, r, sub.content,
        tree.store, sub.store, sub.nodeMap, sub.at);
    }

    method CopyHalves(subtree: FullMerkleTree, subtreeRoot: Id, ghost a: Place)
      returns (leftNode: Id, rightNode: Id, ghost l: Places, ghost r: Places)
      requires tree.Sound() && tree.listening && subtree.tree.Sound() && subtree.tree != tree
        && !IsTip(subtree.tree.at, Apex)
      requires subtreeRoot == subtree.tree.at[Apex] && subtree.tree.content.Fork?
      requires IsTip(tree.at, a) && HashIn(tree.content, a) == RootOf(subtree.tree.content)
      modifies tree`store, tree`cursor, tree`nodeMap
      ensures HookReady(old(tree.store), tree.store, tree.at, tree.content, a, l, r, subtree.tree.at,
        subtree.tree.content)
      ensures tree.Bounded() && Filed(tree.nodeMap, tree.store, old(tree.store).Keys - tree.at.Values)
      ensures leftNode == l[Apex] && rightNode == r[Apex] && leftNode in tree.store && rightNode in tree.store
        && leftNode != rightNode
      ensures leftNode !in old(tree.store) && rightNode !in old(tree.store)
        && forall id :: id in old(tree.store) ==> id in tree.store
    {
      hide Exact, Complete, Filed, CopyOf;
      ghost var sub := subtree.tree;
      ghost var outside := tree.store.Keys - tree.at.Values;
      ExactFiled(tree.nodeMap, tree.store, tree.at);
      assert Hung(sub.store, sub.at, Apex);
      leftNode, l := DeepcopyNode(subtree, subtree.tree.store[subtreeRoot].left, Below(Apex, false), outside);
      ghost var st1 := tree.store;
      rightNode, r := DeepcopyNode(subtree, subtree.tree.store[subtreeRoot].right, Below(Apex, true), outside);
      BuiltNext(old(tree.store), st1, tree.store, l, sub.content.left, r, sub.content.right);
    }

    /** `deepcopyNode`: new nodes, linked and indexed, for the node and all below it. */
    method DeepcopyNode(subtree: FullMerkleTree, node: Id, ghost b: Place, ghost outside: set<Id>)
      returns (newNode: Id, ghost at: Places)
      requires subtree.tree != tree && Partly(subtree.tree.store, subtree.tree.at, subtree.tree.content)
      requires b in subtree.tree.at && subtree.tree.at[b] == node
      requires tree.Bounded() && Filed(tree.nodeMap, tree.store, outside)
        && forall id :: id in outside ==> id in tree.store
      modifies tree`store, tree`cursor, tree`nodeMap
      ensures tree.Bounded() && Filed(tree.nodeMap, tree.store, outside)
      ensures Built(old(tree.store), tree.store, at, Sub(subtree.tree.content, b)) && at[Apex] == newNode
      ensures CopyOf(at, subtree.tree.at, b)
      decreases Sub(subtree.tree.content, b)
    {
      hide Filed, CopyOf, Built, BuiltBoth;
      ghost var sub, st0 := subtree.tree, tree.store;
      ghost var t := Sub(sub.content, b);
      FiledAside(tree.nodeMap, tree.store, outside, tree.cursor + 1, Record(RootOf(t), NIL, NIL, NIL));
      newNode := tree.NewNode(subtree.tree.store[node].hash);
      assert Hung(sub.store, sub.at, b);
      if subtree.tree.store[node].left != NIL && subtree.tree.store[node].right != NIL {
        at := CopyChildren(subtree, node, newNode, b, outside, st0);
      } else {
        at := BuiltOne(st0, newNode, RootOf(t), t);
        CopyTip(newNode, sub.store, sub.at, b);
      }
      FiledEnter(tree.nodeMap, tree.store, outside, newNode, RootOf(t));
      tree.nodeMap := tree.nodeMap[subtree.tree.store[node].hash := newNode];
    }

    /** The children of a copied node. */
    method CopyChildren(subtree: FullMerkleTree, node: Id, newNode: Id, ghost b: Place, ghost outside: set<Id>,
                        ghost st0: Store)
      returns (ghost at: Places)
      requires subtree.tree != tree && Partly(subtree.tree.store, subtree.tree.at, subtree.tree.content)
      requires b in subtree.tree.at && subtree.tree.at[b] == node && subtree.tree.store[node].left != NIL
        && subtree.tree.store[node].right != NIL
      requires tree.Bounded() && Filed(tree.nodeMap, tree.store, outside + {newNode})
        && forall id :: id in outside ==> id in st0
      requires newNode !in st0 && newNode != NIL
        && tree.store == st0[newNode := Record(HashIn(subtree.tree.content, b), NIL, NIL, NIL)]
      modifies tree`store, tree`cursor, tree`nodeMap
      ensures tree.Bounded() && Filed(tree.nodeMap, tree.store, outside + {newNode})
      ensures newNode in tree.store && tree.store[newNode].hash == HashIn(subtree.tree.content, b)
      ensures Built(st0, tree.store, at, Sub(subtree.tree.content, b)) && at[Apex] == newNode
      ensures CopyOf(at, subtree.tree.at, b)
      decreases Sub(subtree.tree.content, b), 0
    {
      hide Filed, CopyOf, Built, LinkedUnder, Hung;
      ghost var sub, st1 := subtree.tree, tree.store;
      ghost var t, l, r := Sub(sub.content, b), map[], map[];
      ChildrenOf(sub.store, sub.at, sub.content, b);
      var leftNode, rightNode;
      leftNode, l := DeepcopyNode(subtree, subtree.tree.store[node].left, Below(b, false), outside + {newNode});
      ghost var st2 := tree.store;
      BuiltKeeps(st1, st2, l, t.left);
      rightNode, r := DeepcopyNode(subtree, subtree.tree.store[node].right, Below(b, true), outside + {newNode});
      BuiltKeeps(st2, tree.store, r, t.right);
      ghost var st3 := tree.store;
      tree.LinkChildren(newNode, leftNode, rightNode);
      FiledLinked(tree.nodeMap, st3, outside + {newNode}, tree.store, newNode, leftNode, rightNode);
      at := CopyJoin(st0, st1, st2, st3, newNode, l, t.left, r, t.right, tree.store, sub.at, b);
    }

    /** The nodes present are also part of any tree that the content is trimmed from. */
    ghost method See(u: Tree)
      requires Inv() && !tree.Empty() && Trimmed(tree.content, u)
      modifies tree`content
      ensures Inv() && !tree.Empty() && tree.content == u
    {
      forall a | a in tree.at ensures Has(u, a) && HashIn(u, a) == HashIn(tree.content, a) {
        TrimmedAt(tree.content, u, a);
      }
      TrimmedRoot(tree.content, u);
      tree.content := u;
    }

    /** `GetMerklePath`: succeeds exactly for the hashes of the nodes present, with the path of that node. */
    method GetMerklePath(hash: MerkleHash) returns (r: Option<MerklePath>)
      requires Inv()
      ensures r == None <==> forall a :: a in tree.at ==> HashIn(tree.content, a) != hash
      ensures forall a :: a in tree.at && HashIn(tree.content, a) == hash ==> r == Some(PathAt(tree.content, a))
    {
      if hash !in tree.nodeMap {
        NotPresent(tree.store, tree.nodeMap, tree.at, tree.content, hash);
        return None;
      }
      ghost var a := Present(tree.store, tree.nodeMap, tree.at, tree.content, hash);
      var proofHashes, proofPath := tree.CreateMerkleProof(tree.nodeMap[hash], a);
      var path := MerklePath([hash] + proofHashes, proofPath);
      OwnPath(tree.content, a);
      var err := Verify(path, tree.merkleRoot.value);
      if err != Ok {
        return None;
      }
      return Some(path);
    }

    /** `GetLastNodeMerklePath`: the path of the last leaf of the top layer, if there is one. */
    method GetLastNodeMerklePath() returns (r: Option<MerklePath>)
      requires Inv() && Whole()
      ensures r == None <==> row == []
      ensures row != [] ==> r == Some(PathAt(Assemble(row), Spine(PopCount(|row| - 1))))
    {
      hide Exact, PopCount, Assemble;
      if tree.lastNodeHash == None {
        return None;
      }
      var lastNode := tree.nodeMap[tree.lastNodeHash.value];
      ghost var a := Spine(PopCount(|row| - 1));
      var proofHashes, proofPath := tree.CreateMerkleProof(lastNode, a);
      return Some(MerklePath([tree.store[lastNode].hash] + proofHashes, proofPath));
    }
  }

  lemma {:induction false} RowOfTip(x: MerkleHash)
    ensures Assemble([Tip(x)]) == Tip(x)
  {
  }

  /** All of a tree has been built: the index is exact if and only if no two nodes share a hash. */
  lemma {:induction false} BuildDone(st: Store, index: map<MerkleHash, Id>, at: Places, t: Tree)
    requires Built(map[], st, at, t) && Complete(at, t) && Filed(index, st, {})
    ensures Stands(st, at, t) && at[Apex] in st && st[at[Apex]].hash == RootOf(t)
    ensures Exact(index, st, at) <==> NoTwins(t)
  {
    if NoTwins(t) {
      FiledExact(index, st, {}, at);
    }
    if Exact(index, st, at) {
      forall a, b | Has(t, a) && Has(t, b) && HashIn(t, a) == HashIn(t, b) ensures a == b {}
    }
  }

  lemma {:induction false} LastTracked(st: Store, index: map<MerkleHash, Id>, at: Places, t: Tree, a: Place,
                                       x: MerkleHash)
    requires Partly(st, at, t) && Exact(index, st, at) && a in at && Has(t, a) && Sub(t, a) == Tip(x)
    ensures Tracks(index, Some(x), at[a])
  {
  }

  lemma {:induction false} InitDone(st: Store, index: map<MerkleHash, Id>, at: Places, leaves: seq<MerkleHash>, t: Tree)
    requires leaves != [] && t == Assemble(Tips(leaves)) && Built(map[], st, at, t) && Complete(at, t)
      && Filed(index, st, {})
    ensures Stands(st, at, t) && at[Apex] in st && st[at[Apex]].hash == RootOf(t) == Root(leaves, 0, |leaves|)
    ensures Exact(index, st, at) <==> NoTwins(t)
    ensures var a := Spine(PopCount(|leaves| - 1));
      a in at && at[a] in st && (Exact(index, st, at) ==> Tracks(index, Some(leaves[|leaves| - 1]), at[a]))
  {
    hide Assemble, PopCount, Root, NoTwins, Built, Filed, Exact, Partly, Complete, Sub, Has, Spine, Tips, RootOf;
    LeavesRoot(leaves);
    BuildDone(st, index, at, t);
    LastPresent(st, index, at, leaves, t);
  }

  lemma {:induction false} LastPresent(st: Store, index: map<MerkleHash, Id>, at: Places, leaves: seq<MerkleHash>,
                                       t: Tree)
    requires leaves != [] && t == Assemble(Tips(leaves)) && Stands(st, at, t)
    ensures var a := Spine(PopCount(|leaves| - 1));
      a in at && at[a] in st && (Exact(index, st, at) ==> Tracks(index, Some(leaves[|leaves| - 1]), at[a]))
  {
    hide Assemble, PopCount, Exact, Hung, Tracks;
    var ts := Tips(leaves);
    LastOfRow(ts);
    var a := Spine(PopCount(|ts| - 1));
    if Exact(index, st, at) { LastTracked(st, index, at, t, a, leaves[|leaves| - 1]); }
  }

  lemma {:induction false} NotPresent(st: Store, index: map<MerkleHash, Id>, at: Places, t: Tree, h: MerkleHash)
    requires at == map[] || (Partly(st, at, t) && Exact(index, st, at))
    requires h !in index
    ensures forall a :: a in at ==> Has(t, a) && HashIn(t, a) != h
  {
  }

  lemma {:induction false} Present(st: Store, index: map<MerkleHash, Id>, at: Places, t: Tree, h: MerkleHash)
    returns (a: Place)
    requires Partly(st, at, t) && Exact(index, st, at) && h in index
    ensures a in at && at[a] == index[h] && Has(t, a) && HashIn(t, a) == h
    ensures forall b :: b in at && HashIn(t, b) == h ==> b == a
  {
    a := PlaceOf(index, st, at, h);
  }

  lemma {:induction false} AppendedLast(st: Store, index: map<MerkleHash, Id>, at: Places, n: nat)
    requires n > 0 && Seated(st, at) && Exact(index, st, at) && Spine(PopCount(n - 1)) in at
    ensures var a := Spine(PopCount(n - 1)); at[a] in st && Tracks(index, Some(st[at[a]].hash), at[a])
  {
  }

  /** A leaf is about to get a new hash. */
  lemma {:induction false} ReplaceReady(st: Store, index: map<MerkleHash, Id>, at: Places, t: Tree, a: Place,
                                        x: MerkleHash)
    requires Partly(st, at, t) && Exact(index, st, at) && a in at && TipIn(t, a)
    requires x == Sub(t, a).hash || !Occurs(x, RootOf(t))
    ensures Shaped(st, at) && (x != st[at[a]].hash ==> x !in index)
    ensures Rising(Rehash(st, at[a], x), Reindex(index, at[a], st[at[a]].hash, x), true, at, x, a, x == st[at[a]].hash)
  {
    PartlyFits(st, at, t);
    assert IsTip(at, a);
    if x != st[at[a]].hash {
      NowhereIn(st, index, at, t, x);
      assert forall h :: h in index ==> !Occurs(x, h);
      assert Occurs(x, x);
    }
    hide Partly, Exact;
    RiseStart(st, index, true, at, x, a);
  }

  /** A row with a tip replaced somewhere is a row with one of its trees replaced. */
  lemma {:induction false} RowWithPut(ts: seq<Tree>, a: Place, x: Tree) returns (us: seq<Tree>)
    requires ts != [] && TipIn(Assemble(ts), a)
    ensures |us| == |ts| && Assemble(us) == Put(Assemble(ts), a, x)
  {
    hide Assemble;
    var i := TipInRow(ts, a);
    LeafAt(ts, i);
    var z := Rest(a, LeafPlace(i, |ts|));
    SubJoin(Assemble(ts), LeafPlace(i, |ts|), z);
    PutInRow(ts, i, z, x);
    us := ts[i := Put(ts[i], z, x)];
  }

  lemma {:induction false} RootPresent(st: Store, index: map<MerkleHash, Id>, at: Places, t: Tree)
    requires Partly(st, at, t) && Exact(index, st, at)
    ensures Apex in at && at[Apex] in st && RootOf(t) in index && index[RootOf(t)] == at[Apex]
    ensures st[at[Apex]].left != NIL && st[at[Apex]].right != NIL <==> !IsTip(at, Apex)
  {
    assert Hung(st, at, Apex);
  }

  lemma {:induction false} HookedRow(ts: seq<Tree>, at: Places, a: Place, u: Tree) returns (us: seq<Tree>)
    requires Complete(at, if ts == [] then Tip(Atom([])) else Assemble(ts)) && IsTip(at, a)
    requires ts != [] ==> Has(Assemble(ts), a)
    ensures |us| == |ts| && (ts != [] ==> Has(Assemble(ts), a) && Assemble(us) == Put(Assemble(ts), a, u))
  {
    us := ts;
    if ts != [] {
      var t := Assemble(ts);
      assert TipIn(t, a) by { assert Has(t, Below(a, false)) <==> Sub(t, a).Fork?; }
      us := RowWithPut(ts, a, u);
    }
  }
}
