/** The on-disk full Merkle tree: what reads give is the tree that the same operations make in memory. */
module DiskFull {
  import opened Bits
  import opened MerkleSpec
  import opened Trees
  import opened MerklePaths
  import opened Options
  import opened NodeStore
  import opened PlacedTrees
  import opened JoinedTrees
  import opened MerkleTrees
  import opened Building
  import opened Hooking
  import opened FullTree
  import opened DiskDb
  import opened DiskTree

  class DiskMerkleTree {
    const nodes: DiskNodes
    var size: nat
    var merkleRoot: Option<MerkleHash>

    /** As in the tree in memory. */
    ghost var at: Places
    ghost var content: Tree
    ghost var row: seq<Tree>

    /** A new tree over an empty store. */
    constructor (db: Db)
      requires db.level == map[] && db.writeSet == None
      ensures Inv() && Whole() && fresh(nodes) && nodes.db == db && row == []
    {
      nodes := new DiskNodes(db);
      size, merkleRoot, at, content, row := 0, None, map[], Tip(Atom([])), [];
    }

    ghost predicate Empty()
      reads this, nodes
    {
      nodes.st == map[] && nodes.index == map[] && at == map[]
    }

    ghost predicate Sound()
      reads this, nodes, nodes.db
    {
      nodes.Inv() && Partly(nodes.st, at, content) && Exact(nodes.index, nodes.st, at)
    }

    ghost predicate LastFound()
      reads this, nodes
    {
      nodes.lastNodeHash.Some? && nodes.lastNodeHash.value in nodes.index
    }

    /**
      What reads give is part of the content and exactly that is indexed; the recorded root and the last leaf are
      current.
     */
    ghost predicate Inv()
      reads this, nodes, nodes.db
    {
      && nodes.Inv()
      && if Empty() then merkleRoot == None && nodes.lastNodeHash == None
         else Sound() && merkleRoot == Some(RootOf(content)) && LastFound()
    }

    /** The content is that of the top layer, all its nodes are present, and its last leaf is the one recorded. */
    ghost predicate Whole()
      reads this, nodes
    {
      && size == |row| && (row == [] ==> Empty())
      && (row != [] ==> content == Assemble(row) && Complete(at, content) && Spine(PopCount(|row| - 1)) in at
                        && Tracks(nodes.index, nodes.lastNodeHash, at[Spine(PopCount(|row| - 1))]))
    }

    // -------------------------------------------------------------- append

    /** The tree read back is the row of `ts`, and `lastNode` is a current snapshot of its last. */
    ghost predicate RowOf(ts: seq<Tree>, lastNode: DiskMerkleNode?)
      reads this, nodes, nodes.db, lastNode
    {
      if ts == [] then nodes.Inv() && Empty() else
        && Sound() && content == Assemble(ts) && Complete(at, content) && lastNode != null && nodes.Current(lastNode)
        && Spine(PopCount(|ts| - 1)) in at && at[Spine(PopCount(|ts| - 1))] == lastNode.id
    }

    /** The climb of `append`, reading each parent. */
    method ClimbToPeak(lastNode: DiskMerkleNode, n: nat, ghost ts: seq<Tree>) returns (nodeToReplace: DiskMerkleNode)
      requires 0 < n == |ts| && RowOf(ts, lastNode)
      ensures Spine(PeakDepth(n)) in at && nodeToReplace.id == at[Spine(PeakDepth(n))] && nodes.Current(nodeToReplace)
      ensures fresh(nodeToReplace) || nodeToReplace == lastNode
    {
      hide PopCount, LowBit, PeakDepth, Hung, Backed, Exact, Assemble, Complete;
      var depthToReplace := MerkleTree.DepthToReplace(n);
      PeakClimb(n);
      nodeToReplace := lastNode;
      for i := 0 to depthToReplace
        invariant Spine(PopCount(n - 1) - i) in at && nodeToReplace.id == at[Spine(PopCount(n - 1) - i)]
        invariant nodes.Current(nodeToReplace) && (fresh(nodeToReplace) || nodeToReplace == lastNode)
      {
        nodeToReplace := nodes.Parent(nodeToReplace, Spine(PopCount(n - 1) - i), at);
      }
    }

    /** One round of `append`, up to the rehash. */
    method JoinLast(hashToInsert: MerkleHash, lastNode: DiskMerkleNode, n: nat, ghost ts: seq<Tree>)
      returns (nodeToInsert: DiskMerkleNode, newJointNode: DiskMerkleNode, ghost p: Place)
      requires 0 < n == |ts| && RowOf(ts, lastNode) && !Occurs(hashToInsert, RootOf(content))
      modifies this`at, this`content, nodes`cursor, nodes`st, nodes`index, nodes.db, lastNode
      ensures nodes.Inv() && fresh(nodeToInsert) && fresh(newJointNode) && nodeToInsert != newJointNode
      ensures nodes.Current(nodeToInsert) && nodes.Current(newJointNode)
      ensures p == Spine(PeakDepth(n)) && content == Assemble(ts + [Tip(hashToInsert)]) && Complete(at, content)
      ensures Shaped(nodes.st, at) && TipsFit(nodes.st, at, content) && p in at && at[p] == newJointNode.id
        && !IsTip(at, p)
      ensures Rising(nodes.st, nodes.index, true, at, hashToInsert, p, false)
      ensures Below(p, true) in at && at[Below(p, true)] == nodeToInsert.id
    {
      hide PopCount, PeakDepth, Hung, Carried, TipsFit, Exact, Has, Sub, Backed, Complete, Rising, Assemble;
      var nodeToReplace := ClimbToPeak(lastNode, n, ts);
      p := Spine(PeakDepth(n));
      HungAttached(nodes.st, at, p);
      nodeToInsert, newJointNode := nodes.JoinLeaf(hashToInsert, nodeToReplace);
      at := JoinedRow(old(nodes.st), old(nodes.index), true, at, content, ts, p, newJointNode.id, nodeToInsert.id,
        hashToInsert, nodes.st, nodes.index);
      content := Assemble(ts + [Tip(hashToInsert)]);
      CarriedComplete(old(at), old(content), at, content, n, n + 1);
    }

    /** The rehash above the joint at `p`, which leaves the new leaf as it is. */
    method SettleJoint(joint: DiskMerkleNode, leaf: DiskMerkleNode, ghost p: Place, ghost x: MerkleHash)
      requires nodes.Inv() && Shaped(nodes.st, at) && TipsFit(nodes.st, at, content) && p in at && at[p] == joint.id
        && !IsTip(at, p) && joint != leaf
      requires Rising(nodes.st, nodes.index, true, at, x, p, false) && nodes.Current(joint) && nodes.Current(leaf)
      requires Below(p, true) in at && at[Below(p, true)] == leaf.id && TipIn(content, Below(p, true))
      modifies nodes`st, nodes`index, nodes`lastNodeHash, nodes.db, joint
      ensures Sound() && nodes.Current(leaf)
    {
      hide Partly, Exact, Marked, FitsBut, TipsFit, Hung, Backed;
      StoreSame(nodes.st, joint.id, nodes.st[joint.id].(hash := nodes.st[joint.id].hash));
      nodes.UpdateNode(joint, joint.v.hash, p, at, x, false);
      JoinSettled(old(nodes.st), nodes.st, at, content, p);
      LeafSame(old(nodes.st), nodes.st, at, content, p, Below(p, true));
    }

    /**
      One round of `append` on a row of `n` leaves. The snapshot of the new leaf is current afterwards, for the
      next round.
     */
    method AppendLeaf(hashToInsert: MerkleHash, lastNode: DiskMerkleNode, n: nat, ghost ts: seq<Tree>)
      returns (nodeToInsert: DiskMerkleNode)
      requires 0 < n == |ts| && RowOf(ts, lastNode) && !Occurs(hashToInsert, RootOf(content))
      modifies this`at, this`content, nodes, nodes.db, lastNode
      ensures fresh(nodeToInsert) && RowOf(ts + [Tip(hashToInsert)], nodeToInsert)
    {
      hide Shaped, Exact, Rising, PopCount, PeakDepth, Assemble, TipsFit, Complete, Backed;
      var newJointNode;
      ghost var p;
      nodeToInsert, newJointNode, p := JoinLast(hashToInsert, lastNode, n, ts);
      PeakClimb(n);
      LastOfRow(ts + [Tip(hashToInsert)]);
      SettleJoint(newJointNode, nodeToInsert, p, hashToInsert);
    }

    /** The first round of `append` on an empty tree. */
    method InsertFirst(hashToInsert: MerkleHash) returns (nodeToInsert: DiskMerkleNode)
      requires nodes.Inv() && Empty()
      modifies this`at, this`content, this`merkleRoot, nodes`cursor, nodes`st, nodes`index, nodes.db
      ensures fresh(nodeToInsert) && RowOf([Tip(hashToInsert)], nodeToInsert)
    {
      hide Backed;
      nodeToInsert := nodes.NewNode(hashToInsert);
      merkleRoot := Some(hashToInsert);
      at, content := map[Apex := nodeToInsert.id], Tip(hashToInsert);
      PartlyOne(nodes.st, nodeToInsert.id, content);
      assert at[Apex] == nodeToInsert.id;
      RowOfOne();
    }

    /** The loop of `append`. */
    method AppendAll(leafHashes: seq<MerkleHash>, firstLast: DiskMerkleNode?, size0: nat, ghost ts: seq<Tree>)
      returns (lastNode: DiskMerkleNode?, n: nat)
      requires size0 == |ts| && RowOf(ts, firstLast) && Strangers(leafHashes, ts, content)
      modifies this`at, this`content, this`merkleRoot, nodes, nodes.db, firstLast
      ensures RowOf(ts + Tips(leafHashes), lastNode) && n == size0 + |leafHashes|
    {
      hide Partly, Exact, Complete, PopCount, Assemble, Strangers, Backed;
      n, lastNode := size0, firstLast;
      assert ts + Tips([]) == ts;
      for i := 0 to |leafHashes|
        invariant n == size0 + i && RowOf(ts + Tips(leafHashes[..i]), lastNode)
          && (lastNode == firstLast || (lastNode != null && fresh(lastNode)))
        invariant Strangers(leafHashes[i..], ts + Tips(leafHashes[..i]), content)
      {
        ghost var us, rest := ts + Tips(leafHashes[..i]), leafHashes[i..];
        StrangersNext(rest, us, content);
        assert rest[0] == leafHashes[i] && rest[1..] == leafHashes[i + 1..]
          && leafHashes[..i + 1] == leafHashes[..i] + [leafHashes[i]];
        assert us + [Tip(leafHashes[i])] == ts + Tips(leafHashes[..i + 1]);
        if n == 0 {
          assert us + [Tip(leafHashes[i])] == [Tip(leafHashes[i])];
          lastNode := InsertFirst(leafHashes[i]);
        } else {
          lastNode := AppendLeaf(leafHashes[i], lastNode, n, us);
        }
        n := n + 1;
      }
      assert leafHashes[..|leafHashes|] == leafHashes;
    }

    /** `Append`: the top layer on disk grows by the new leaves. */
    method Append(leaves: seq<MerkleHash>) returns (r: AppendResult)
      requires Inv() && Whole() && Strangers(leaves, row, content)
      modifies this, nodes, nodes.db
      ensures r == NilLastNode <==> old(row) == [] && leaves == []
      ensures r != NilLastNode ==> r == Appended && Inv() && Whole() && row == old(row) + Tips(leaves)
    {
      hide Hung, Exact, Complete, PopCount, Assemble, Strangers, Backed, Has, RootOf, HashIn, Occurs;
      var n := size;
      var lastNode: DiskMerkleNode? := null;
      if n > 0 {
        FoundInStore(nodes.st, nodes.index, at, nodes.lastNodeHash.value);
        lastNode := nodes.Get(nodes.lastNodeHash.value);
      }
      if n == 0 && leaves == [] {
        return NilLastNode;
      }
      lastNode, n := AppendAll(leaves, lastNode, n, row);
      size, row := n, row + Tips(leaves);
      nodes.lastNodeHash := Some(lastNode.v.hash);
      AppendedLast(nodes.st, nodes.index, at, |row|);
      UpdateMerkleRoot();
      r := Appended;
    }

    /** `updateMerkleRoot`: read up from the last leaf. */
    method UpdateMerkleRoot()
      requires Sound() && LastFound()
      modifies this`merkleRoot
      ensures Inv() && merkleRoot == Some(RootOf(content))
    {
      hide Hung, Exact, Backed;
      ghost var b := PlaceOf(nodes.index, nodes.st, at, nodes.lastNodeHash.value);
      var node := nodes.Get(nodes.lastNodeHash.value);
      UpNil(nodes.st, at, b);
      while node.v.parent != NIL
        invariant node != null && b in at && at[b] == node.id && nodes.Current(node)
          && (node.v.parent == NIL <==> b == Apex)
        decreases b
      {
        UpNil(nodes.st, at, b);
        node := nodes.Parent(node, b, at);
        b := b.up;
        UpNil(nodes.st, at, b);
      }
      merkleRoot := Some(node.v.hash);
    }

    // -------------------------------------------------------------- update

    /**
      `UpdateLeaf`: the leaf with that hash, in whichever layer, gets the new one on disk, and everything above it
      follows.
     */
    method UpdateLeaf(originalHash: MerkleHash, newHash: MerkleHash) returns (ok: bool, ghost a: Place)
      requires Inv() && (forall b :: b in at && HashIn(content, b) == originalHash ==> TipIn(content, b))
      requires newHash == originalHash || Empty() || !Occurs(newHash, RootOf(content))
      modifies this, nodes, nodes.db
      ensures Inv() && (old(Whole()) ==> Whole() && |row| == |old(row)|)
      ensures ok <==> exists b :: b in old(at) && HashIn(old(content), b) == originalHash
      ensures !ok ==> unchanged(this) && unchanged(nodes) && unchanged(nodes.db)
      ensures ok ==> at == old(at) && a in at && TipIn(old(content), a) && Sub(old(content), a) == Tip(originalHash)
      ensures ok ==> content == Put(old(content), a, Tip(newHash))
    {
      hide Exact, Hung, Complete, Assemble, PopCount, Put, Backed;
      a := Apex;
      if originalHash in nodes.index {
        a := Present(nodes.st, nodes.index, at, content, originalHash);
        FoundInStore(nodes.st, nodes.index, at, originalHash);
      } else {
        NotPresent(nodes.st, nodes.index, at, content, originalHash);
      }
      var node := nodes.Get(originalHash);
      if node == null {
        return false, a;
      }
      ReplaceLeaf(node, newHash, a);
      UpdateMerkleRoot();
      ok := true;
    }

    method ReplaceLeaf(node: DiskMerkleNode, newHash: MerkleHash, ghost a: Place)
      requires Inv() && Sound() && a in at && at[a] == node.id && nodes.Current(node) && TipIn(content, a)
      requires newHash == Sub(content, a).hash || !Occurs(newHash, RootOf(content))
      modifies this`content, this`row, nodes`st, nodes`index, nodes`lastNodeHash, nodes.db, node
      ensures Sound() && LastFound() && content == Put(old(content), a, Tip(newHash))
      ensures old(Whole()) ==> Whole() && |row| == |old(row)|
    {
      hide Partly, Exact, PopCount, Assemble, FitsBut, Rising, Complete, TipsKept, Backed;
      ghost var last := nodes.index[nodes.lastNodeHash.value];
      ghost var us := row;
      if Whole() { us := RowWithPut(row, a, Tip(newHash)); }
      ReplaceReady(nodes.st, nodes.index, at, content, a, newHash);
      nodes.UpdateNode(node, newHash, a, at, newHash, newHash == nodes.st[node.id].hash);
      Updated(old(nodes.st), at, content, a, newHash, nodes.st);
      assert Tracks(nodes.index, nodes.lastNodeHash, last);
      content, row := Put(content, a, Tip(newHash)), us;
    }

    // -------------------------------------------------------------- hook

    /** `HookSecondLayerTree` of a tree in memory: copies of its nodes are stored below the leaf with its root hash. */
    method HookSecondLayerTree(subtree: FullMerkleTree?) returns (r: HookResult, ghost a: Place)
      requires Inv() && (subtree != null ==> subtree.Inv())
      requires subtree != null && !subtree.tree.Empty() ==>
        Sharing(nodes.index, subtree.tree.nodeMap, RootOf(subtree.tree.content))
      modifies this, nodes, nodes.db
      ensures r == NilSubtree <==> subtree == null
      ensures r == NilRoot <==> subtree != null && subtree.tree.Empty()
      ensures r == NotInTop <==>
        subtree != null && !subtree.tree.Empty()
          && forall b :: b in old(at) ==> HashIn(old(content), b) != RootOf(subtree.tree.content)
      ensures r != NotInSub && (r != Hooked ==> unchanged(this) && unchanged(nodes) && unchanged(nodes.db))
      ensures Inv() && (old(Whole()) && (r == Hooked ==> Complete(subtree.tree.at, subtree.tree.content)) ==>
        Whole() && |row| == |old(row)|)
      ensures r == Hooked ==>
        a in old(at) && Has(old(content), a) && HashIn(old(content), a) == RootOf(subtree.tree.content)
      ensures r == Hooked ==>
        content == if IsTip(subtree.tree.at, Apex) then old(content) else Put(old(content), a, subtree.tree.content)
      ensures r == Hooked ==> merkleRoot == old(merkleRoot)
    {
      hide Exact, Hung, Complete, Assemble, PopCount, Put, Sharing, Backed;
      a := Apex;
      if subtree == null {
        return NilSubtree, a;
      }
      if subtree.tree.merkleRoot == None {
        return NilRoot, a;
      }
      var root := subtree.tree.merkleRoot.value;
      if root in nodes.index {
        a := Present(nodes.st, nodes.index, at, content, root);
        FoundInStore(nodes.st, nodes.index, at, root);
      } else {
        NotPresent(nodes.st, nodes.index, at, content, root);
      }
      var node := nodes.Get(root);
      if node == null {
        return NotInTop, a;
      }
      RootPresent(subtree.tree.store, subtree.tree.nodeMap, subtree.tree.at, subtree.tree.content);
      if root !in subtree.tree.nodeMap {
        return NotInSub, a;
      }
      var subtreeRoot := subtree.tree.nodeMap[root];
      if subtree.tree.store[subtreeRoot].left != NIL && subtree.tree.store[subtreeRoot].right != NIL {
        HookCopies(subtree, node, subtreeRoot, a);
      }
      r := Hooked;
    }

    /** Copies of both halves of the subtree are hung under the node. */
    method HookCopies(subtree: FullMerkleTree, node: DiskMerkleNode, subtreeRoot: Id, ghost a: Place)
      requires Inv() && Sound() && subtree.Inv() && subtree.tree.Sound() && !IsTip(subtree.tree.at, Apex)
      requires Sharing(nodes.index, subtree.tree.nodeMap, RootOf(subtree.tree.content))
        && subtreeRoot == subtree.tree.at[Apex]
      requires a in at && at[a] == node.id && nodes.Current(node) && HashIn(content, a) == RootOf(subtree.tree.content)
      modifies this`at, this`content, this`row, nodes, nodes.db, node
      ensures Inv() && content == Put(old(content), a, subtree.tree.content) && merkleRoot == old(merkleRoot)
      ensures old(Whole()) && Complete(subtree.tree.at, subtree.tree.content) ==> Whole() && |row| == |old(row)|
    {
      hide Exact, Hung, Complete, Assemble, PopCount, Put, Sharing, Has, RootOf, HashIn, Backed, IsTip, Occurs;
      ghost var sub, us := subtree.tree, row;
      ghost var at' := LinkCopies(subtree, node, subtreeRoot, a);
      if old(Whole()) && Complete(sub.at, sub.content) { us := HookedRow(row, at, a, sub.content); }
      at, content, row := at', Put(content, a, sub.content), us;
    }

    method LinkCopies(subtree: FullMerkleTree, node: DiskMerkleNode, subtreeRoot: Id, ghost a: Place)
      returns (ghost at': Places)
      requires Sound() && subtree.tree.Sound() && subtree.tree.listening && !IsTip(subtree.tree.at, Apex)
      requires Sharing(nodes.index, subtree.tree.nodeMap, RootOf(subtree.tree.content))
        && subtreeRoot == subtree.tree.at[Apex]
      requires a in at && at[a] == node.id && nodes.Current(node) && HashIn(content, a) == RootOf(subtree.tree.content)
      modifies nodes`cursor, nodes`st, nodes`index, nodes.db, node
      ensures Has(content, a) && IsTip(at, a) && nodes.Inv()
      ensures var t' := Put(content, a, subtree.tree.content);
        && Partly(nodes.st, at', t') && Exact(nodes.index, nodes.st, at') && RootOf(t') == RootOf(content)
        && (Complete(at, content) && Complete(subtree.tree.at, subtree.tree.content) ==> Complete(at', t'))
      ensures forall h :: h in old(nodes.index) ==> h in nodes.index && nodes.index[h] == old(nodes.index)[h]
      ensures forall b :: b in at ==> b in at' && at'[b] == at[b]
    {
      hide Exact, Hung, Complete, Put, Sharing, HookReady, Filed, Backed;
      ghost var sub, st0 := subtree.tree, nodes.st;
      SharedIsTip(nodes.st, nodes.index, at, content, a, sub.store, sub.nodeMap, sub.at, sub.content);
      var leftNode, rightNode;
      ghost var l, r;
      leftNode, rightNode, l, r := CopyHalves(subtree, subtreeRoot, a);
      ghost var st := nodes.st;
      nodes.LinkChildren(node, leftNode, rightNode);
      at' := HookDone(st0, old(nodes.index), st, nodes.index, at, content, a, l, r, sub.content, nodes.st, sub.store,
        sub.nodeMap, sub.at);
    }

    method CopyHalves(subtree: FullMerkleTree, subtreeRoot: Id, ghost a: Place)
      returns (leftNode: DiskMerkleNode, rightNode: DiskMerkleNode, ghost l: Places, ghost r: Places)
      requires Sound() && subtree.tree.Sound() && !IsTip(subtree.tree.at, Apex)
      requires subtreeRoot == subtree.tree.at[Apex] && subtree.tree.content.Fork?
      requires IsTip(at, a) && HashIn(content, a) == RootOf(subtree.tree.content)
      modifies nodes`cursor, nodes`st, nodes`index, nodes.db
      ensures HookReady(old(nodes.st), nodes.st, at, content, a, l, r, subtree.tree.at, subtree.tree.content)
      ensures nodes.Inv() && Filed(nodes.index, nodes.st, old(nodes.st).Keys - at.Values) && fresh(leftNode)
        && fresh(rightNode)
      ensures leftNode.id == l[Apex] && rightNode.id == r[Apex] && nodes.Current(leftNode) && nodes.Current(rightNode)
        && leftNode.id != rightNode.id
      ensures leftNode.id !in old(nodes.st) && rightNode.id !in old(nodes.st)
      ensures forall id :: id in old(nodes.st) ==> id in nodes.st && nodes.st[id] == old(nodes.st)[id]
    {
      hide Exact, Complete, Filed, CopyOf, Backed;
      ghost var sub := subtree.tree;
      ghost var outside := nodes.st.Keys - at.Values;
      ExactFiled(nodes.index, nodes.st, at);
      assert Hung(sub.store, sub.at, Apex);
      leftNode, l := DeepcopyNode(subtree, subtree.tree.store[subtreeRoot].left, Below(Apex, false), outside);
      ghost var st1 := nodes.st;
      rightNode, r := DeepcopyNode(subtree, subtree.tree.store[subtreeRoot].right, Below(Apex, true), outside);
      BuiltNext(old(nodes.st), st1, nodes.st, l, sub.content.left, r, sub.content.right);
    }

    /** `deepcopyNode`: new nodes on disk, linked and indexed, for the node in memory and all below it. */
    method DeepcopyNode(subtree: FullMerkleTree, node: Id, ghost b: Place, ghost outside: set<Id>)
      returns (newNode: DiskMerkleNode, ghost at': Places)
      requires Partly(subtree.tree.store, subtree.tree.at, subtree.tree.content) && b in subtree.tree.at
        && subtree.tree.at[b] == node
      requires nodes.Inv() && Filed(nodes.index, nodes.st, outside) && forall id :: id in outside ==> id in nodes.st
      modifies nodes`cursor, nodes`st, nodes`index, nodes.db
      ensures nodes.Inv() && Filed(nodes.index, nodes.st, outside) && fresh(newNode) && nodes.Current(newNode)
      ensures Built(old(nodes.st), nodes.st, at', Sub(subtree.tree.content, b)) && at'[Apex] == newNode.id
      ensures CopyOf(at', subtree.tree.at, b) && forall i :: old(nodes.Saved(i)) ==> nodes.Saved(i)
      decreases Sub(subtree.tree.content, b)
    {
      hide Filed, CopyOf, Built, BuiltBoth, Backed;
      ghost var sub, st0 := subtree.tree, nodes.st;
      ghost var t := Sub(sub.content, b);
      newNode := nodes.NewNode(subtree.tree.store[node].hash);
      FiledNew(old(nodes.index), st0, outside, newNode.id, Record(RootOf(t), NIL, NIL, NIL));
      assert Hung(sub.store, sub.at, b);
      if subtree.tree.store[node].left != NIL && subtree.tree.store[node].right != NIL {
        at' := CopyChildren(subtree, node, newNode, b, outside, st0);
      } else {
        at' := BuiltOne(st0, newNode.id, RootOf(t), t);
        CopyTip(newNode.id, sub.store, sub.at, b);
      }
      FiledAgain(nodes.index, nodes.st, outside, newNode.id);
      nodes.Refile(newNode);
    }

    /** The children of a copied node. */
    method CopyChildren(subtree: FullMerkleTree, node: Id, newNode: DiskMerkleNode, ghost b: Place,
                        ghost outside: set<Id>, ghost st0: Store)
      returns (ghost at': Places)
      requires Partly(subtree.tree.store, subtree.tree.at, subtree.tree.content)
      requires b in subtree.tree.at && subtree.tree.at[b] == node && subtree.tree.store[node].left != NIL
        && subtree.tree.store[node].right != NIL
      requires nodes.Inv() && Filed(nodes.index, nodes.st, outside) && forall id :: id in outside ==> id in st0
      requires newNode.id !in st0 && newNode.id != NIL
        && nodes.st == st0[newNode.id := Record(HashIn(subtree.tree.content, b), NIL, NIL, NIL)]
      requires nodes.Current(newNode)
      modifies nodes`cursor, nodes`st, nodes`index, nodes.db, newNode
      ensures nodes.Inv() && Filed(nodes.index, nodes.st, outside) && nodes.Current(newNode)
      ensures Built(st0, nodes.st, at', Sub(subtree.tree.content, b)) && at'[Apex] == newNode.id
      ensures CopyOf(at', subtree.tree.at, b) && forall i :: old(nodes.Saved(i)) ==> nodes.Saved(i)
      decreases Sub(subtree.tree.content, b), 0
    {
      hide Filed, CopyOf, Built, Backed, LinkedUnder, Hung;
      ghost var sub, st1 := subtree.tree, nodes.st;
      ghost var t, l, r := Sub(sub.content, b), map[], map[];
      ChildrenOf(sub.store, sub.at, sub.content, b);
      var leftNode, rightNode;
      leftNode, l := DeepcopyNode(subtree, subtree.tree.store[node].left, Below(b, false), outside);
      ghost var st2 := nodes.st;
      BuiltKeeps(st1, st2, l, t.left);
      rightNode, r := DeepcopyNode(subtree, subtree.tree.store[node].right, Below(b, true), outside);
      BuiltKeeps(st2, nodes.st, r, t.right);
      ghost var st3 := nodes.st;
      nodes.LinkChildren(newNode, leftNode, rightNode);
      FiledLinked(nodes.index, st3, outside, nodes.st, newNode.id, leftNode.id, rightNode.id);
      at' := CopyJoin(st0, st1, st2, st3, newNode.id, l, t.left, r, t.right, nodes.st, sub.at, b);
    }

    // -------------------------------------------------------------- paths

    /** `createMerkleProof` on snapshots, which are told apart by their hashes. */
    method CreateMerkleProof(first: DiskMerkleNode, ghost a: Place) returns (hashes: seq<MerkleHash>, path: seq<Pos>)
      requires Sound() && a in at && at[a] == first.id && nodes.Current(first)
      ensures hashes == Proof(content, a) && path == Sides(a)
    {
      hide Hung, Backed, Exact, Proof, Sides;
      hashes, path := [], [];
      var node: DiskMerkleNode := first;
      ghost var b := a;
      var pnode := nodes.Parent(node, b, at);
      while pnode != null
        invariant b in at && at[b] == node.id && nodes.Current(node) && (pnode == null <==> b == Apex)
        invariant pnode != null ==> nodes.Current(pnode) && b.up in at && pnode.id == at[b.up]
        invariant hashes + Proof(content, b) == Proof(content, a) && path + Sides(b) == Sides(a)
        decreases b
      {
        ProofStep(content, a, b, hashes, path);
        var isLeft, sibling := SiblingOf(node, pnode, b);
        if isLeft {
          path, hashes := path + [RIGHT], hashes + [sibling];
        } else {
          path, hashes := path + [LEFT], hashes + [sibling];
        }
        node := pnode;
        b := b.up;
        pnode := nodes.Parent(node, b, at);
      }
      ProofEnd(content);
    }

    /** The side of a node, by its hash, and the hash of its sibling. */
    method SiblingOf(node: DiskMerkleNode, pnode: DiskMerkleNode, ghost b: Place)
      returns (isLeft: bool, sibling: MerkleHash)
      requires Sound() && b in at && b != Apex && at[b] == node.id && nodes.Current(node) && nodes.Current(pnode)
        && b.up in at && pnode.id == at[b.up]
      ensures isLeft == !b.right && Has(content, Sibling(b)) && sibling == HashIn(content, Sibling(b))
    {
      hide Hung, Records;
      UnderParent(nodes.st, at, b);
      var lnode := nodes.GetById(pnode.v.left);
      var rnode := nodes.GetById(pnode.v.right);
      assert b == Below(b.up, b.right) && Sibling(b) == Below(b.up, !b.right);
      isLeft := lnode.v.hash == node.v.hash;
      sibling := if isLeft then rnode.v.hash else lnode.v.hash;
    }

    /** `GetMerklePath`: succeeds exactly for the hashes of the nodes present, with the path of that node. */
    method GetMerklePath(hash: MerkleHash) returns (r: Option<MerklePath>)
      requires Inv()
      ensures r == None <==> forall a :: a in at ==> HashIn(content, a) != hash
      ensures forall a :: a in at && HashIn(content, a) == hash ==> r == Some(PathAt(content, a))
    {
      hide Backed, Exact, Hung, Proof, Sides;
      ghost var a := Apex;
      if hash in nodes.index {
        a := Present(nodes.st, nodes.index, at, content, hash);
        FoundInStore(nodes.st, nodes.index, at, hash);
      } else {
        NotPresent(nodes.st, nodes.index, at, content, hash);
      }
      var node := nodes.Get(hash);
      if node == null {
        return None;
      }
      var proofHashes, proofPath := CreateMerkleProof(node, a);
      var path := MerklePath([hash] + proofHashes, proofPath);
      OwnPath(content, a);
      var err := Verify(path, merkleRoot.value);
      if err != Ok {
        return None;
      }
      return Some(path);
    }

    method StartTransactionRecord()
      requires Inv() && nodes.db.writeSet == None
      modifies nodes.db
      ensures Inv() && (old(Whole()) ==> Whole())
    {
      nodes.StartTransactionRecord();
    }

    /** A commit changes nothing of what is read. */
    method CommitTransaction()
      requires Inv()
      modifies nodes.db
      ensures Inv() && (old(Whole()) ==> Whole()) && nodes.db.writeSet == None
    {
      nodes.CommitTransaction();
    }
  }

  lemma {:induction false} FoundInStore(st: Store, index: map<MerkleHash, Id>, at: Places, h: MerkleHash)
    requires Seated(st, at) && Exact(index, st, at) && h in index
    ensures index[h] in st && index[h] != NIL
  {
    var a := PlaceOf(index, st, at, h);
  }

  /** A leaf with the same hash at the same place has the same record. */
  lemma {:induction false} LeafSame(st: Store, st': Store, at: Places, t: Tree, p: Place, a: Place)
    requires Shaped(st, at) && Shaped(st', at) && TipsFit(st, at, t) && a in at && TipIn(t, a) && a != p
    requires forall b :: IsTip(at, b) && b != p ==> st'[at[b]].hash == st[at[b]].hash
    ensures st'[at[a]] == st[at[a]]
  {
    assert Hung(st, at, a) && Hung(st', at, a);
    assert Below(a, false) in at ==> Has(t, Below(a, false));
  }
}
