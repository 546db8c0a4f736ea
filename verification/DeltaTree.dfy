/** The delta Merkle tree: updates to a tree of which only the root and some paths are known. */
module DeltaTree {
  import opened Bits
  import opened MerkleSpec
  import opened Trees
  import opened MerklePaths
  import opened LastNode
  import opened Options
  import opened NodeStore
  import opened PlacedTrees
  import opened JoinedTrees
  import opened MerkleTrees
  import opened Building
  import opened DeltaSpec
  import opened DeltaOps

  /** The recorded last hash finds the last of a row of `n`. */
  ghost predicate LastAt(index: map<MerkleHash, Id>, last: Option<MerkleHash>, at: Places, n: nat)
    requires n > 0
  {
    Spine(PopCount(n - 1)) in at && Tracks(index, last, at[Spine(PopCount(n - 1))])
  }

  ghost predicate PlacesKept(at: Places, at': Places) {
    forall b :: b in at ==> b in at' && at'[b] == at[b]
  }

  lemma {:induction false} LastStays(index: map<MerkleHash, Id>, last: Option<MerkleHash>, at: Places, n: nat,
                                     index': map<MerkleHash, Id>, at': Places, t: Tree, known: set<Place>)
    requires n > 0 && PlacesKept(at, at') && Extends(t, index, index', known)
    ensures LastAt(index, last, at, n) ==> LastAt(index', last, at', n)
  {
  }

  lemma {:induction false} PlacedToo(v: View, st: Store, index0: map<MerkleHash, Id>, at0: Places,
                                     index: map<MerkleHash, Id>, at: Places)
    requires Placed(index0, at0) && PlacesKept(at0, at) && Extends(v.orig, index0, index, v.known)
      && Knows(v, st, index, at)
    ensures Placed(index, at)
  {
    forall h | h in index ensures index[h] in at.Values {
      if h in index0 {
        var a :| a in at0 && at0[a] == index0[h];
        assert at[a] == index[h];
      } else {
        var o :| o in v.known && Has(v.orig, o) && HashIn(v.orig, o) == h;
        assert Listed(v, index, at, o);
      }
    }
  }

  class DeltaMerkleTree {
    const tree: MerkleTree

    /**
      The tree whose root was given, the places of it that are known and, once the size is known, its top layer
      then and now.
     */
    ghost const orig: Tree
    ghost var known: set<Place>
    ghost var row0: seq<Tree>
    ghost var row: seq<Tree>

    /** `NewDeltaMerkleTree`. */
    constructor (merkleRoot: MerkleHash, ghost orig: Tree)
      requires RootOf(orig) == merkleRoot && Apart(orig)
      ensures fresh(tree) && this.orig == orig && known == {} && row0 == [] && Inv() && tree.size == -1
        && tree.content == orig
    {
      tree := new MerkleTree(false);
      this.orig, known, row0, row := orig, {}, [], [];
      new;
      tree.content := orig;
      tree.merkleRoot := Some(merkleRoot);
      tree.size := -1;
    }

    ghost function V(): View
      reads this, tree
    {
      View(orig, tree.content, known, |row0|, |row|)
    }

    /**
      What is known is known as it is now, the index has nothing else until something is appended, and never anything
      that is not in the tree, and the top layer is right.
     */
    ghost predicate Inv()
      reads this, tree
    {
      && !tree.listening && tree.Bounded() && Apart(orig) && tree.merkleRoot == Some(RootOf(orig))
      && Knows(V(), tree.store, tree.nodeMap, tree.at) && Placed(tree.nodeMap, tree.at) && Sized()
    }

    ghost predicate Sized()
      reads this, tree
    {
      && (|row| == |row0| ==> OnlyOld(orig, known, tree.nodeMap))
      && if tree.size == -1 then row0 == row == [] && Alike(tree.content, orig) else
         && 0 < |row0| <= |row| == tree.size && orig == Assemble(row0) && tree.content == Assemble(row)
         && Spine(PopCount(|row0| - 1)) in known
         && (|row| > |row0| ==> tree.lastNodeHash == Some(RootOf(row[|row| - 1])))
    }

    /** The last leaf is found by the hash recorded for it. */
    ghost predicate LastKnown()
      reads this, tree
    {
      row != [] && LastAt(tree.nodeMap, tree.lastNodeHash, tree.at, |row|)
    }

    /** `getOrCreateNode`. */
    method GetOrCreateNode(hash: MerkleHash) returns (id: Id, exists': bool)
      requires tree.Bounded()
      modifies tree`store, tree`cursor, tree`nodeMap
      ensures tree.Bounded() && (exists' <==> hash in old(tree.nodeMap))
      ensures exists' ==> tree.nodeMap == old(tree.nodeMap) && id == tree.nodeMap[hash] && tree.store == old(tree.store)
      ensures !exists' ==> id !in old(tree.store) && id != NIL && tree.nodeMap == old(tree.nodeMap)[hash := id]
      ensures !exists' ==> tree.store == old(tree.store)[id := Record(hash, NIL, NIL, NIL)]
    {
      if hash in tree.nodeMap {
        return tree.nodeMap[hash], true;
      }
      id := tree.NewNode(hash);
      tree.nodeMap := tree.nodeMap[hash := id];
      exists' := false;
    }

    /** `buildPartialTreeForOldMerklePath`: the path of node `o` becomes known. */
    method BuildPartialTree(merklePath: MerklePath, ghost o: Place)
      requires Inv() && Has(orig, o) && IsPathAt(orig, o, merklePath)
      modifies tree`store, tree`cursor, tree`nodeMap, tree`at, this`known
      ensures Inv() && o in known && old(known) <= known && PlacesKept(old(tree.at), tree.at)
        && Extends(orig, old(tree.nodeMap), tree.nodeMap, known)
    {
      hide Loose, Partly, Apart, IsOld, Listed, Bare, Alike, PopCount, Assemble, Placed;
      AlongStart(orig, merklePath, o);
      ghost var st0, index0, v := tree.store, tree.nodeMap, V();
      var hash := merklePath.hashes[0];
      var curNode, exists' := GetOrCreateNode(hash);
      if exists' {
        return;
      }
      ghost var m, fresh' := LooseStart(v, st0, index0, tree.at, o, curNode);
      BuildUp(merklePath, hash, curNode, o, m, fresh', st0, index0);
      OldGrew(orig, old(known), known, index0, tree.nodeMap);
      PlacedToo(V(), tree.store, index0, old(tree.at), tree.nodeMap, tree.at);
    }

    /** The loop of `buildPartialTreeForOldMerklePath`. */
    method BuildUp(merklePath: MerklePath, leafHash: MerkleHash, leafNode: Id, ghost o: Place, ghost m0: Places,
                   ghost f0: Places,
                   ghost st0: Store, ghost index0: map<MerkleHash, Id>)
      requires tree.Bounded() && Apart(orig) && Knows(V(), st0, index0, tree.at)
        && Loose(V(), st0, tree.store, index0, tree.nodeMap, o, m0, f0)
      requires Along(orig, merklePath, 0, o) && Has(orig, o) && leafHash == HashIn(orig, o)
        && leafNode == IdAt(m0, Apex) && o in f0
      modifies tree`store, tree`cursor, tree`nodeMap, tree`at, this`known
      ensures tree.Bounded() && Knows(V(), tree.store, tree.nodeMap, tree.at) && o in known && old(known) <= known
      ensures PlacesKept(old(tree.at), tree.at)
      ensures Extends(orig, index0, tree.nodeMap, known)
    {
      hide Loose, Partly, Apart, IsOld, Along, Listed, Bare, Extends;
      var hash, curNode, index := leafHash, leafNode, 0;
      ghost var c, m, f, attached := o, m0, f0, false;
      while index < |merklePath.proofPath|
        invariant index <= |merklePath.proofPath| && Along(orig, merklePath, index, c) && Has(orig, c)
          && hash == HashIn(orig, c) && tree.Bounded()
        invariant !attached ==> known == old(known) && tree.at == old(tree.at) && Knows(V(), st0, index0, tree.at)
        invariant !attached ==>
          Loose(V(), st0, tree.store, index0, tree.nodeMap, c, m, f) && o in f && curNode == IdAt(m, Apex)
        invariant attached ==>
          Knows(V(), tree.store, tree.nodeMap, tree.at) && c in known && o in known && old(known) <= known
        invariant attached ==> PlacesKept(old(tree.at), tree.at)
        invariant attached ==> Extends(orig, index0, tree.nodeMap, known)
      {
        AlongStep(orig, merklePath, index, c);
        if attached {
          SiblingKnown(V(), tree.store, tree.nodeMap, tree.at, c);
        } else {
          SiblingNew(V(), st0, tree.store, index0, tree.nodeMap, tree.at, c, m, f);
        }
        ghost var st1, index1 := tree.store, tree.nodeMap;
        var siblingHash := merklePath.hashes[index + 1];
        var siblingNode, exists' := GetOrCreateNode(siblingHash);
        if exists' {
          break;
        }
        var parentHash := Hash(hash, siblingHash, merklePath.proofPath[index]);
        curNode, attached, m, f := JoinParent(curNode, siblingNode, parentHash, merklePath.proofPath[index], c, m, f,
          st0, st1, index0, index1, o);
        hash, index, c := parentHash, index + 1, c.up;
      }
      if !attached {
        AlongEnd(orig, merklePath, index, c);
        HangWhole(V(), st0, tree.store, index0, tree.nodeMap, tree.at, m, f);
        WholeExtends(V(), st0, tree.store, index0, tree.nodeMap, tree.at, m, f);
        known, tree.at := m.Keys, m;
      }
    }

    /** One round of it: the node and its new sibling get their parent, which is new or known. */
    method JoinParent(curNode: Id, siblingNode: Id, parentHash: MerkleHash, siblingPos: Pos, ghost c: Place,
                      ghost m: Places, ghost f: Places,
                      ghost st0: Store, ghost st1: Store, ghost index0: map<MerkleHash, Id>,
                      ghost index1: map<MerkleHash, Id>, ghost o: Place)
      returns (parentNode: Id, ghost attached: bool, ghost m': Places, ghost f': Places)
      requires tree.Bounded() && Apart(orig) && Knows(V(), st0, index0, tree.at)
        && Loose(V(), st0, st1, index0, index1, c, m, f) && o in f
      requires c != Apex && Has(orig, Sibling(c)) && HashIn(orig, Sibling(c)) !in index1 && siblingNode !in st1
        && siblingNode != NIL && curNode == IdAt(m, Apex)
      requires tree.store == st1[siblingNode := Record(HashIn(orig, Sibling(c)), NIL, NIL, NIL)]
        && tree.nodeMap == index1[HashIn(orig, Sibling(c)) := siblingNode]
      requires Has(orig, c.up) && parentHash == HashIn(orig, c.up) && (siblingPos == LEFT <==> c.right)
      modifies tree`store, tree`cursor, tree`nodeMap, tree`at, this`known
      ensures tree.Bounded() && PlacesKept(old(tree.at), tree.at)
      ensures !attached ==> known == old(known) && tree.at == old(tree.at)
      ensures !attached ==>
        Loose(V(), st0, tree.store, index0, tree.nodeMap, c.up, m', f') && o in f' && parentNode == IdAt(m', Apex)
      ensures attached ==>
        Knows(V(), tree.store, tree.nodeMap, tree.at) && c.up in known && o in known && old(known) <= known
      ensures attached ==> Extends(orig, index0, tree.nodeMap, known)
    {
      hide Knows, Partly, Apart, Indexed, Pair, BuiltBoth, LinkedUnder, HungAt, Built, Extends;
      ghost var p, v, index2, st2 := c.up, V(), tree.nodeMap, tree.store;
      ghost var l, r, f2 := PairReady(v, st0, st1, index0, index1, tree.at, c, m, f, siblingNode);
      ParentKnown(v, st0, st1, index0, index1, tree.at, c, m, f, siblingNode);
      parentNode, attached := LinkParent(curNode, siblingNode, parentHash, siblingPos, p, st0, index0, l, r);
      m', f' := map[], f2;
      if attached {
        NotBelow(v, st0, index0, tree.at, c);
        ghost var at' := HangUnder(v, st0, st2, index0, index2, tree.at, p, l, r, f2, tree.store);
        known, tree.at := known + f2.Keys, at';
        AttachExtends(orig, index0, index2, f2, known);
      } else {
        m' := LooseJoin(v, st0, st2, index0, index2, tree.at, p, l, r, f2, parentNode, tree.store);
        f' := f2[p := parentNode];
      }
    }

    /** The parent, new or known, with its children. */
    method LinkParent(curNode: Id, siblingNode: Id, parentHash: MerkleHash, siblingPos: Pos, ghost p: Place,
                      ghost st0: Store, ghost index0: map<MerkleHash, Id>, ghost l: Places, ghost r: Places)
      returns (parentNode: Id, ghost exists': bool)
      requires tree.Bounded() && Knows(V(), st0, index0, tree.at) && Has(orig, p) && Sub(orig, p).Fork?
      requires BuiltBoth(st0, tree.store, l, Sub(orig, p).left, r, Sub(orig, p).right) && parentHash == HashIn(orig, p)
      requires parentHash in tree.nodeMap <==> p in known
      requires p in known ==> Now(V(), p) in tree.at && tree.nodeMap[parentHash] == tree.at[Now(V(), p)]
      requires if siblingPos == LEFT then siblingNode == IdAt(l, Apex) && curNode == IdAt(r, Apex)
        else curNode == IdAt(l, Apex) && siblingNode == IdAt(r, Apex)
      modifies tree`store, tree`cursor, tree`nodeMap
      ensures tree.Bounded() && (exists' <==> p in known) && Apex in l && Apex in r && l[Apex] in old(tree.store)
        && r[Apex] in old(tree.store)
      ensures exists' ==>
        tree.nodeMap == old(tree.nodeMap) && parentNode == tree.at[Now(V(), p)] && parentNode in old(tree.store)
      ensures exists' ==> LinkedUnder(old(tree.store), tree.store, parentNode, l[Apex], r[Apex])
      ensures !exists' ==>
        parentNode !in old(tree.store) && parentNode != NIL
          && tree.nodeMap == old(tree.nodeMap)[parentHash := parentNode]
      ensures !exists' ==>
        LinkedUnder(old(tree.store)[parentNode := Record(parentHash, NIL, NIL, NIL)], tree.store, parentNode, l[Apex],
          r[Apex])
    {
      hide Knows;
      var known';
      parentNode, known' := GetOrCreateNode(parentHash);
      exists' := known';
      ParentApart(V(), st0, old(tree.store), index0, tree.at, p, l, Sub(orig, p).left, r, Sub(orig, p).right,
        parentNode);
      if siblingPos == LEFT {
        tree.LinkChildren(parentNode, siblingNode, curNode);
      } else {
        tree.LinkChildren(parentNode, curNode, siblingNode);
      }
    }

    /** The path is that of leaf `o` of the original tree, in whichever layer, if it leads to its root. */
    ghost predicate OfLeaf(merklePath: MerklePath, o: Place)
      reads this
    {
      Leads(merklePath, RootOf(orig)) ==> TipIn(orig, o) && Sub(orig, o).hash == merklePath.hashes[0]
    }

    /**
      `UpdateLeaf`: accepts exactly the paths that lead to the original root, and gives that leaf its new hash,
      where it is now.
     */
    method UpdateLeaf(merklePath: MerklePath, newHash: MerkleHash, ghost o: Place) returns (r: VerifyResult)
      requires Inv() && OfLeaf(merklePath, o)
      modifies tree, this`known, this`row
      ensures Inv() && row0 == old(row0) && |row| == |old(row)| && tree.size == old(tree.size)
      ensures (r == Ok <==> Leads(merklePath, RootOf(orig))) && (r == BadLength <==> !WellFormed(merklePath))
      ensures r != Ok ==> unchanged(tree) && unchanged(this)
      ensures r == Ok ==>
        o in known && Has(old(tree.content), Now(V(), o))
          && tree.content == Put(old(tree.content), Now(V(), o), Tip(newHash))
      ensures old(LastKnown()) ==> LastKnown()
    {
      hide Knows, Partly, Apart, Alike, PopCount, Assemble, OnlyOld, Now, LastAt, Extends, PlacesKept;
      r := Verify(merklePath, tree.merkleRoot.value);
      if r == Ok {
        PathSound(orig, o, merklePath);
        BuildPartialTree(merklePath, o);
        if row != [] {
          LastStays(old(tree.nodeMap), tree.lastNodeHash, old(tree.at), |row|, tree.nodeMap, tree.at, orig, known);
        }
        ReplaceLeaf(merklePath.hashes[0], newHash, o);
      }
    }

    method ReplaceLeaf(hash: MerkleHash, newHash: MerkleHash, ghost o: Place)
      requires Inv() && o in known && TipIn(orig, o) && Sub(orig, o).hash == hash
      modifies tree`store, tree`nodeMap, tree`lastNodeHash, tree`content, this`row
      ensures Inv() && |row| == |old(row)| && tree.nodeMap == old(tree.nodeMap)
        && tree.lastNodeHash == old(tree.lastNodeHash)
      ensures Has(old(tree.content), Now(V(), o)) && tree.content == Put(old(tree.content), Now(V(), o), Tip(newHash))
    {
      hide Knows, Apart, Alike, PopCount, Assemble, OnlyOld, Move, Put, Has;
      ghost var v := V();
      LeafBare(v, tree.store, tree.nodeMap, tree.at, o);
      var node := tree.nodeMap[hash];
      RehashLeaf(node, newHash, o);
      ghost var us := ReplacedRow(row0, row, orig, tree.content, o, v, newHash);
      if tree.size == -1 { AlikeLeaf(v, tree.at, o, newHash); }
      tree.content := Put(tree.content, Now(v, o), Tip(newHash));
      row := us;
    }

    /** The update of the nodes. */
    method RehashLeaf(node: Id, newHash: MerkleHash, ghost o: Place)
      requires !tree.listening && tree.Bounded() && Knows(V(), tree.store, tree.nodeMap, tree.at) && o in known
        && TipIn(orig, o)
      requires Bare(V(), tree.at, o) && Listed(V(), tree.nodeMap, tree.at, o) && node == tree.nodeMap[HashIn(orig, o)]
      modifies tree`store, tree`nodeMap, tree`lastNodeHash
      ensures tree.Bounded() && tree.nodeMap == old(tree.nodeMap) && tree.lastNodeHash == old(tree.lastNodeHash)
      ensures Has(tree.content, Now(V(), o))
        && Knows(V().(now := Put(tree.content, Now(V(), o), Tip(newHash))), tree.store, tree.nodeMap, tree.at)
    {
      hide Now, FitsBut, Hung, Put, Has, Rising;
      ghost var v := V();
      ghost var a := Now(v, o);
      ReplaceRises(tree.store, tree.nodeMap, tree.at, tree.content, a, newHash);
      tree.UpdateNode(node, newHash, a, newHash, newHash == tree.store[node].hash);
      Updated(old(tree.store), tree.at, tree.content, a, newHash, tree.store);
      UpdateKnows(v, old(tree.store), tree.nodeMap, tree.at, o, newHash, tree.store);
    }

    /** `GetMerkleRoot`: the root of the tree as it is now, although most of it was never seen. */
    method GetMerkleRoot() returns (h: MerkleHash)
      requires Inv()
      ensures h == RootOf(tree.content)
    {
      hide Partly, Apart, Alike, PopCount, Assemble, OnlyOld, Bare;
      var root := tree.merkleRoot.value;
      RootKnown(V(), tree.store, tree.nodeMap, tree.at);
      if root in tree.nodeMap {
        h := tree.RootHash(tree.nodeMap[root], Now(V(), Apex));
      } else {
        h := root;
      }
    }

    /**
      `GetShardDataMerklePath`: the present path of the node that had or has that hash, if and only if its hash is now
      as it is said to be. For a hash of the original tree that is the node which had it, for that of the last leaf
      that leaf.
     */
    method GetShardDataMerklePath(oldHash: MerkleHash, newHash: MerkleHash)
      returns (r: Option<MerklePath>, ghost a: Place)
      requires Inv()
      ensures oldHash in tree.nodeMap ==> Has(tree.content, a) && a in tree.at && tree.at[a] == tree.nodeMap[oldHash]
      ensures r.Some? <==> oldHash in tree.nodeMap && HashIn(tree.content, a) == newHash
      ensures r.Some? ==> r == Some(PathAt(tree.content, a))
      ensures oldHash in tree.nodeMap ==> forall o :: Has(orig, o) && HashIn(orig, o) == oldHash ==> a == Now(V(), o)
      ensures LastKnown() && tree.lastNodeHash == Some(oldHash) ==> a == Spine(PopCount(|row| - 1))
    {
      hide Knows, Apart, Alike, PopCount, Assemble, OnlyOld, Now, Proof, Sides, Hung;
      a := Apex;
      if oldHash !in tree.nodeMap {
        return None, a;
      }
      a :| a in tree.at && tree.at[a] == tree.nodeMap[oldHash];
      SomeKnown(V(), tree.store, tree.nodeMap, tree.at, a);
      forall o | Has(orig, o) && HashIn(orig, o) == oldHash ensures a == Now(V(), o) {
        KnownNode(V(), tree.store, tree.nodeMap, tree.at, o);
      }
      var proofHashes, proofPath := tree.CreateMerkleProof(tree.nodeMap[oldHash], a);
      var path := MerklePath([newHash] + proofHashes, proofPath);
      RefreshedLeads(tree.content, a, newHash, path);
      var root := GetMerkleRoot();
      var err := Verify(path, root);
      r := if err == Ok then Some(path) else None;
    }

    /**
      `RefreshMerklePath`: the path of an original leaf in the tree as it is now. With the leaf's original hash in
      front, it leads to the present root if and only if that leaf has still that hash.
     */
    method RefreshMerklePath(merklePath: MerklePath, ghost o: Place) returns (r: VerifyResult, refreshed: MerklePath)
      requires Inv() && OfLeaf(merklePath, o)
      ensures (r == Ok <==> Leads(merklePath, RootOf(orig))) && (r == BadLength <==> !WellFormed(merklePath))
      ensures r == Ok ==>
        Has(tree.content, Now(V(), o)) && refreshed.hashes == [merklePath.hashes[0]] + Proof(tree.content, Now(V(), o))
      ensures r == Ok ==> SameSides(refreshed.proofPath, Sides(Now(V(), o)))
      ensures r == Ok ==>
        (Leads(refreshed, RootOf(tree.content)) <==> HashIn(tree.content, Now(V(), o)) == Sub(orig, o).hash)
    {
      hide Knows, Apart, Alike, PopCount, Assemble, OnlyOld, Now, SameSides, Proof, Sides;
      r := Verify(merklePath, tree.merkleRoot.value);
      refreshed := merklePath;
      if r == Ok {
        PathSound(orig, o, merklePath);
        AlongStart(orig, merklePath, o);
        refreshed := Refresh(merklePath, o);
        RefreshedLeads(tree.content, Now(V(), o), merklePath.hashes[0], refreshed);
      }
    }

    /** The walk of `RefreshMerklePath`: the old path as far as nothing is known, and from there what the tree says. */
    method Refresh(merklePath: MerklePath, ghost o: Place) returns (refreshed: MerklePath)
      requires Inv() && WellFormed(merklePath) && Along(orig, merklePath, 0, o) && Has(orig, o)
        && merklePath.hashes[0] == HashIn(orig, o)
      ensures Has(tree.content, Now(V(), o))
        && refreshed.hashes == [merklePath.hashes[0]] + Proof(tree.content, Now(V(), o))
      ensures SameSides(refreshed.proofPath, Sides(Now(V(), o)))
    {
      hide Knows, Apart, Alike, PopCount, Assemble, OnlyOld, Now, SameSides, Proof, Sides, Along;
      var nodeHash := merklePath.hashes[0];
      var hashes, path := [nodeHash], [];
      var index: nat := 0;
      ghost var c := o;
      assert merklePath.hashes[..1] == [nodeHash] && merklePath.proofPath[..0] == [];
      while nodeHash !in tree.nodeMap && index < |merklePath.proofPath|
        invariant index <= |merklePath.proofPath| && WellFormed(merklePath) && Along(orig, merklePath, index, c)
          && Under(o, c)
        invariant Has(orig, c) && nodeHash == HashIn(orig, c)
        invariant hashes == merklePath.hashes[..index + 1] && path == merklePath.proofPath[..index]
        invariant c == o || Below(c, false) !in known
      {
        AlongStep(orig, merklePath, index, c);
        UnknownUp(V(), tree.store, tree.nodeMap, tree.at, o, c);
        hashes := hashes + [merklePath.hashes[index + 1]];
        path := path + [merklePath.proofPath[index]];
        nodeHash := Hash(nodeHash, merklePath.hashes[index + 1], merklePath.proofPath[index]);
        index := index + 1;
        c := c.up;
      }
      var proofHashes, proofPath := [], [];
      if nodeHash in tree.nodeMap {
        KnownNode(V(), tree.store, tree.nodeMap, tree.at, c);
        proofHashes, proofPath := tree.CreateMerkleProof(tree.nodeMap[nodeHash], Now(V(), c));
      } else {
        AlongEnd(orig, merklePath, index, c);
        NothingKnown(V(), tree.store, tree.nodeMap, tree.at);
      }
      RefreshDone(V(), tree.store, tree.nodeMap, tree.at, merklePath, o, index, c);
      return MerklePath(hashes + proofHashes, path + proofPath);
    }

    /**
      `SetSizeAndLastNodeMerklePath`, for a size that is trusted: that many trees make up the top layer of the
      original tree.
      It accepts, once, exactly the path of the last of them.
     */
    method SetSizeAndLastNodeMerklePath(size: int, lastNodeMerklePath: MerklePath, ghost ts: seq<Tree>)
      returns (ok: bool)
      requires Inv() && (PassesLastNode(RootOf(orig), size, lastNodeMerklePath) ==>
        0 < size == |ts| <= 0x1_0000_0000_0000_0000 && orig == Assemble(ts))
      modifies tree, this
      ensures ok <==> old(tree.size) == -1 && PassesLastNode(RootOf(orig), size, lastNodeMerklePath)
      ensures Inv() && tree.content == old(tree.content) && (!ok ==> unchanged(tree) && unchanged(this))
      ensures ok ==> tree.size == size && row0 == ts && |row| == size && LastKnown()
      ensures ok ==> var a := Spine(PopCount(size - 1)); Has(orig, a) && IsPathAt(orig, a, lastNodeMerklePath)
    {
      hide Knows, Apart, Alike, PopCount, Assemble, OnlyOld, IsPathAt, PassesLastNode;
      if tree.size == -1 {
        var r := VerifyLastNode(tree.merkleRoot.value, size, lastNodeMerklePath);
        if r != LastOk {
          return false;
        }
        LastNodeSound(ts, lastNodeMerklePath);
        SetSize(size, lastNodeMerklePath, ts);
        return true;
      }
      return false;
    }

    method SetSize(size: nat, lastNodeMerklePath: MerklePath, ghost ts: seq<Tree>)
      requires Inv() && tree.size == -1 && 0 < size == |ts| && orig == Assemble(ts)
      requires var a := Spine(PopCount(size - 1)); Has(orig, a) && IsPathAt(orig, a, lastNodeMerklePath)
      modifies tree, this
      ensures Inv() && tree.content == old(tree.content) && tree.size == size && row0 == ts && |row| == size
        && LastKnown()
    {
      hide Knows, Apart, Alike, PopCount, Assemble, OnlyOld, Now, Extends, PlacesKept, LastAt;
      ghost var a := Spine(PopCount(size - 1));
      BuildPartialTree(lastNodeMerklePath, a);
      AlongStart(orig, lastNodeMerklePath, a);
      ghost var us := RowAlike(tree.content, ts);
      LastListed(V(), tree.store, tree.nodeMap, tree.at, size);
      Resize(V(), tree.store, tree.nodeMap, tree.at, size);
      tree.lastNodeHash := Some(lastNodeMerklePath.hashes[0]);
      tree.size := size;
      row0, row := ts, us;
    }

    /**
      `Append`: an error when the size is unknown, a nil dereference when the last leaf is not found by its recorded
      hash.
      Appending no leaf at all records the last leaf's present hash, which finds it if and only if that leaf was not
      updated.
     */
    method Append(leafHashes: seq<MerkleHash>) returns (r: AppendResult)
      requires Inv() && NoneOccurs(leafHashes, RootOf(orig)) && (tree.LastFound() && tree.size != -1 ==> LastKnown())
      modifies tree, this`row
      ensures r == UnknownSize <==> old(tree.size) == -1
      ensures r == UnknownSize ==> unchanged(tree) && unchanged(this)
      ensures r == NilLastNode <==> old(tree.size) != -1 && !old(LastKnown())
      ensures r == Appended ==> Inv() && row0 == old(row0) && row == old(row) + Tips(leafHashes)
      ensures r == Appended && leafHashes != [] ==> LastKnown()
      ensures r == Appended && leafHashes == [] ==>
        (LastKnown() <==> |row| > |row0| || RootOf(row[|row| - 1]) == RootOf(row0[|row0| - 1]))
    {
      hide Knows, Apart, Alike, PopCount, Assemble, OnlyOld, Now, Carried, Added, NoneOccurs, Complete, Placed, Partly,
           Exact, RootOf;
      ghost var v := V();
      if tree.size != -1 {
        RootKnown(v, tree.store, tree.nodeMap, tree.at);
        ApexPlaced(tree.store, tree.at, tree.content);
      }
      r := tree.Append(leafHashes, row);
      if r == Appended {
        AppendKnows(v, old(tree.store), old(tree.nodeMap), old(tree.at), leafHashes, tree.store, tree.nodeMap,
          tree.at, tree.content, tree.size);
        row := row + Tips(leafHashes);
        AppendedSized(leafHashes);
      }
    }

    /** The present hash of the last leaf is recorded. */
    lemma {:induction false} AppendedSized(leafHashes: seq<MerkleHash>)
      requires tree.Sound() && 0 < |row0| <= |row| == tree.size && tree.content == Assemble(row)
        && orig == Assemble(row0) && Apart(orig)
      requires Spine(PopCount(|row| - 1)) in tree.at
        && tree.lastNodeHash == Some(tree.store[tree.at[Spine(PopCount(|row| - 1))]].hash)
      requires Knows(V(), tree.store, tree.nodeMap, tree.at) && Spine(PopCount(|row0| - 1)) in known
      requires |row| == |row0| ==> OnlyOld(orig, known, tree.nodeMap)
      ensures tree.lastNodeHash == Some(RootOf(row[|row| - 1]))
      ensures |row| == |row0| ==> (LastKnown() <==> RootOf(row[|row| - 1]) == RootOf(row0[|row0| - 1]))
    {
      hide Knows, Apart, PopCount, Assemble, OnlyOld, Now, Hung;
      LastOfRow(row);
      LastOfRow(row0);
      if |row| == |row0| {
        LastEither(V(), tree.store, tree.nodeMap, tree.at, Spine(PopCount(|row| - 1)), tree.lastNodeHash.value);
      }
    }
  }

  lemma {:induction false} AlikeLeaf(v: View, at: Places, o: Place, x: MerkleHash)
    requires Bare(v, at, o) && TipIn(v.orig, o) && Alike(v.now, v.orig)
    ensures Has(v.now, Now(v, o)) && Alike(Put(v.now, Now(v, o), Tip(x)), v.orig)
  {
    AlikeUpdate(v.now, v.orig, Now(v, o), x);
  }

  lemma {:induction false} ReplaceRises(st: Store, index: map<MerkleHash, Id>, at: Places, t: Tree, a: Place,
                                        x: MerkleHash)
    requires Partly(st, at, t) && IsTip(at, a)
    ensures Shaped(st, at) && at[a] in st && Rising(Rehash(st, at[a], x), index, false, at, x, a, x == st[at[a]].hash)
  {
    PartlyFits(st, at, t);
    hide Partly;
    RiseStart(st, index, false, at, x, a);
  }

  /** The row after a leaf of the original tree was updated. */
  lemma {:induction false} ReplacedRow(row0: seq<Tree>, row: seq<Tree>, orig: Tree, now: Tree, o: Place, v: View,
                                       x: MerkleHash)
    returns (us: seq<Tree>)
    requires TipIn(orig, o) && v.n0 == |row0| && v.n == |row| && Has(now, Now(v, o))
    requires row0 == [] <==> row == []
    requires row0 != [] ==> |row0| <= |row| && orig == Assemble(row0) && now == Assemble(row)
    ensures |us| == |row| && (row != [] ==> Assemble(us) == Put(now, Now(v, o), Tip(x)))
    ensures |row| > |row0| ==> us[|row| - 1] == row[|row| - 1]
  {
    us := row;
    if row != [] {
      hide Assemble, LeafPlace, Put;
      var i := TipInRow(row0, o);
      var b := Rest(o, LeafPlace(i, |row0|));
      MoveLeaf(i, b, |row0|, |row|);
      LeafAt(row, i);
      SubJoin(now, LeafPlace(i, |row|), b);
      PutInRow(row, i, b, Tip(x));
      us := row[i := Put(row[i], b, Tip(x))];
    }
  }

  /** The root is indexed if and only if anything is known. */
  lemma {:induction false} RootKnown(v: View, st: Store, index: map<MerkleHash, Id>, at: Places)
    requires Knows(v, st, index, at)
    ensures RootOf(v.orig) in index <==> v.known != {}
    ensures v.known != {} ==> Partly(st, at, v.now) && Now(v, Apex) in at && index[RootOf(v.orig)] == at[Now(v, Apex)]
    ensures v.known == {} ==> v.now == v.orig
  {
    assert Has(v.orig, Apex) && HashIn(v.orig, Apex) == RootOf(v.orig);
    assert Apex in v.known ==> Listed(v, index, at, Apex);
  }

  lemma {:induction false} UnknownUp(v: View, st: Store, index: map<MerkleHash, Id>, at: Places, o: Place, c: Place)
    requires Knows(v, st, index, at) && Has(v.orig, c) && HashIn(v.orig, c) !in index && c != Apex && Under(o, c)
    ensures Below(c.up, false) !in v.known && Under(o, c.up)
  {
    assert c in v.known ==> Listed(v, index, at, c);
    NotBelow(v, st, index, at, c);
    assert Under(c, c.up) by { assert Under(c.up, c.up); }
    UnderTrans(o, c, c.up);
  }

  lemma {:induction false} SomeKnown(v: View, st: Store, index: map<MerkleHash, Id>, at: Places, a: Place)
    requires Knows(v, st, index, at) && a in at
    ensures Partly(st, at, v.now) && Has(v.now, a)
  {
  }

  lemma {:induction false} KnownNode(v: View, st: Store, index: map<MerkleHash, Id>, at: Places, c: Place)
    requires Knows(v, st, index, at) && Has(v.orig, c) && HashIn(v.orig, c) in index
    ensures c in v.known && Now(v, c) in at && index[HashIn(v.orig, c)] == at[Now(v, c)] && Partly(st, at, v.now)
  {
    assert c in v.known && Listed(v, index, at, c);
  }

  lemma {:induction false} NothingKnown(v: View, st: Store, index: map<MerkleHash, Id>, at: Places)
    requires Knows(v, st, index, at) && RootOf(v.orig) !in index
    ensures v.known == {} && v.now == v.orig && Now(v, Apex) == Apex && Apex !in v.known && Proof(v.now, Apex) == []
      && Sides(Apex) == []
  {
    RootKnown(v, st, index, at);
  }

  lemma {:induction false} LastListed(v: View, st: Store, index: map<MerkleHash, Id>, at: Places, n: nat)
    requires Knows(v, st, index, at) && n > 0 && v.n0 == 0 && Spine(PopCount(n - 1)) in v.known
    ensures Has(v.orig, Spine(PopCount(n - 1))) && LastAt(index, Some(HashIn(v.orig, Spine(PopCount(n - 1)))), at, n)
  {
    assert Listed(v, index, at, Spine(PopCount(n - 1)));
  }

  /** The size became known. */
  lemma {:induction false} Resize(v: View, st: Store, index: map<MerkleHash, Id>, at: Places, n: nat)
    requires Knows(v, st, index, at) && v.known != {} && v.n0 == 0 && n > 0
    ensures Knows(v.(n0 := n, n := n), st, index, at)
  {
    var v' := v.(n0 := n, n := n);
    forall o ensures Now(v', o) == Now(v, o) {}
    forall o | o in v.known ensures Listed(v', index, at, o) { assert Listed(v, index, at, o); }
    forall o | o in v.known && Below(o, false) !in v.known ensures Bare(v', at, o) { assert Bare(v, at, o); }
  }

  /**
    As long as the index has original hashes only, a hash leads to node `a` if and only if it is the original hash
    of that node.
   */
  lemma {:induction false} LastEither(v: View, st: Store, index: map<MerkleHash, Id>, at: Places, a: Place,
                                      x: MerkleHash)
    requires Apart(v.orig) && Knows(v, st, index, at) && OnlyOld(v.orig, v.known, index) && a in v.known
      && v.n0 == v.n && a in at && Has(v.orig, a)
    ensures (x in index && index[x] == at[a]) <==> x == HashIn(v.orig, a)
  {
    forall o ensures Now(v, o) == o {}
    assert Listed(v, index, at, a);
    if x in index && index[x] == at[a] {
      assert IsOld(v.orig, v.known, x);
      var o :| o in v.known && Has(v.orig, o) && HashIn(v.orig, o) == x;
      assert Listed(v, index, at, o);
      SamePlace(st, at, v.now, o, a);
    }
  }

  lemma {:induction false} SamePlace(st: Store, at: Places, t: Tree, a: Place, b: Place)
    requires Partly(st, at, t) && a in at && b in at && at[a] == at[b]
    ensures a == b
  {
  }

  // ---------------------------------------------------------------- where the promises end

  /** A tree of one leaf, which is updated before an empty append: the next append finds no last leaf. */
  method EmptyAppendLosesLast(x: MerkleHash, y: MerkleHash, z: MerkleHash) returns (d: DeltaMerkleTree, r: AppendResult)
    requires x != y && !Occurs(z, x)
    ensures r == NilLastNode
  {
    hide Knows, Apart, Alike, Placed;
    d := OneLeafUpdated(x, y);
    var ok := d.Append([]);
    OnlyRoot(x, d.known, d.tree.nodeMap);
    RootKnown(d.V(), d.tree.store, d.tree.nodeMap, d.tree.at);
    r := d.Append([z]);
  }

  lemma {:induction false} OnlyRoot(x: MerkleHash, known: set<Place>, index: map<MerkleHash, Id>)
    requires OnlyOld(Tip(x), known, index)
    ensures forall h :: h in index ==> h == x
  {
    forall h | h in index ensures h == x {
      var o :| o in known && Has(Tip(x), o) && HashIn(Tip(x), o) == h;
      UnderApex(o);
      assert TipIn(Tip(x), Apex);
      TipAlone(Tip(x), Apex, o);
    }
  }

  /** A tree of one leaf, which is updated: its refreshed path leads elsewhere than to the root. */
  method RefreshOfUpdated(x: MerkleHash, y: MerkleHash) returns (d: DeltaMerkleTree, refreshed: MerklePath)
    requires x != y
    ensures d.Inv() && d.tree.content == Tip(y) && !Leads(refreshed, y)
  {
    d := OneLeafUpdated(x, y);
    var r;
    r, refreshed := d.RefreshMerklePath(MerklePath([x], []), Apex);
  }

  method OneLeafUpdated(x: MerkleHash, y: MerkleHash) returns (d: DeltaMerkleTree)
    requires x != y
    ensures fresh(d) && fresh(d.tree) && d.Inv() && d.orig == Tip(x) && d.tree.content == Tip(y) && d.tree.size == 1
      && d.LastKnown()
    ensures d.row0 == [Tip(x)] && d.row == [Tip(y)] && Leads(MerklePath([x], []), x) && Now(d.V(), Apex) == Apex
      && TipIn(Tip(x), Apex)
  {
    var p := MerklePath([x], []);
    assert TipIn(Tip(x), Apex) && Sub(Tip(x), Apex) == Tip(x);
    OneApart(x);
    d := new DeltaMerkleTree(x, Tip(x));
    OnePasses(x);
    var _ := d.SetSizeAndLastNodeMerklePath(1, p, [Tip(x)]);
    var _ := d.UpdateLeaf(p, y, Apex);
  }

  lemma {:induction false} OneApart(x: MerkleHash)
    ensures Apart(Tip(x))
  {
    forall a, b | TipIn(Tip(x), a) && TipIn(Tip(x), b) ensures a == b {
      assert TipIn(Tip(x), Apex);
      UnderApex(a);
      UnderApex(b);
      TipAlone(Tip(x), Apex, a);
      TipAlone(Tip(x), Apex, b);
    }
  }

  lemma {:induction false} OnePasses(x: MerkleHash)
    ensures Leads(MerklePath([x], []), x) && PassesLastNode(x, 1, MerklePath([x], []))
  {
    assert Fold(x, [x][1..], []) == x;
  }
}
