/** The clipped Merkle tree: rebuilt from a run of leaves and the paths of the first and the last of them. */
module ClippedTree {
  import opened Bits
  import opened MerkleSpec
  import opened Trees
  import opened MerklePaths
  import opened Options
  import opened NodeStore
  import opened PlacedTrees
  import opened Building
  import opened FullTree
  import opened ClipSpec

  class ClippedMerkleTreeBuilder {
    const full: FullMerkleTree
    const startIndex: int
    const numLeaves: int
    const leaves: seq<MerkleHash>
    const leftMerklePath: MerklePath
    const rightMerklePath: MerklePath
    var leftDepth: nat
    var rightDepth: nat

    ghost const clip: Clip

    constructor (ghost size: nat, startIndex: int, numLeaves: int, leaves: seq<MerkleHash>,
                 leftMerklePath: MerklePath, rightMerklePath: MerklePath)
      requires numLeaves == |leaves| > 0
      ensures clip == Clip(size, startIndex, leaves, leftMerklePath.hashes, rightMerklePath.hashes)
      ensures Inv() && leftDepth == 0 && rightDepth == 0 && fresh(full) && fresh(full.tree) && full.tree.Empty()
        && full.tree.listening
    {
      this.startIndex, this.numLeaves, this.leaves := startIndex, numLeaves, leaves;
      this.leftMerklePath, this.rightMerklePath := leftMerklePath, rightMerklePath;
      leftDepth, rightDepth := 0, 0;
      clip := Clip(size, startIndex, leaves, leftMerklePath.hashes, rightMerklePath.hashes);
      full := new FullMerkleTree([]);
    }

    ghost predicate Inv()
      reads this, full, full.tree
    {
      && startIndex == clip.start && numLeaves == |leaves| > 0 && leaves == clip.leaves
      && leftMerklePath.hashes == clip.left && rightMerklePath.hashes == clip.right
      && full.tree.Bounded() && Filed(full.tree.nodeMap, full.tree.store, {})
    }

    /** Since `st0` the clipped tree over `lo .. hi - 1` was built, if anything of it is kept. */
    ghost predicate Part(st0: Store, at: Places, lo: nat, hi: nat, node: Id)
      requires clip.leaves != [] && lo < hi
      reads this, full, full.tree
    {
      && Inv()
      && if Meets(clip, lo, hi) then node != NIL && full.Made(st0, at, Cut(clip, lo, hi), node)
         else node == NIL && full.tree.store == st0
    }

    /** Since `st0` both halves were built, as far as anything of them is kept. */
    ghost predicate Halves(st0: Store, l: Places, r: Places, lo: nat, m: nat, hi: nat, leftNode: Id, rightNode: Id)
      requires clip.leaves != [] && lo < m < hi
      reads this, full, full.tree
    {
      && Inv() && (leftNode != NIL <==> Meets(clip, lo, m)) && (rightNode != NIL <==> Meets(clip, m, hi))
      && (leftNode == NIL ==> Part(st0, r, m, hi, rightNode)) && (rightNode == NIL ==> Part(st0, l, lo, m, leftNode))
      && (leftNode != NIL && rightNode != NIL ==>
            && BuiltBoth(st0, full.tree.store, l, Cut(clip, lo, m), r, Cut(clip, m, hi))
            && l[Apex] == leftNode && r[Apex] == rightNode && Complete(l, Cut(clip, lo, m))
            && Complete(r, Cut(clip, m, hi)))
    }

    /** The levels above the first and the last kept leaf have been counted as far as `lo .. hi - 1`. */
    ghost predicate Counted(lo: nat, hi: nat, useLeft: bool, useRight: bool)
      reads this
    {
      && (useLeft <==> Covers(lo, hi, clip.start)) && (useRight <==> Covers(lo, hi, End(clip) - 1))
      && (useLeft ==> leftDepth == Height(clip.start, lo, hi))
      && (useRight ==> rightDepth == Height(End(clip) - 1, lo, hi))
    }

    /**
      `createParentNode`: joins two halves, taking a missing one from the path on its side. It panics if that is
      too short.
     */
    method CreateParentNode(leftNode: Id, rightNode: Id, useLeft: bool, useRight: bool,
                            ghost lo: nat, ghost m: nat, ghost hi: nat, ghost st0: Store, ghost l: Places,
                            ghost r: Places)
      returns (ok: bool, node: Id, ghost at: Places)
      requires numLeaves > 0 && Inv() && lo < m < hi && m == lo + PowBelow(hi - lo)
        && Halves(st0, l, r, lo, m, hi, leftNode, rightNode)
      requires (useLeft <==> Covers(lo, hi, clip.start)) && (useLeft ==> leftDepth + 1 == Height(clip.start, lo, hi))
      requires (useRight <==> Covers(lo, hi, End(clip) - 1))
        && (useRight ==> rightDepth + 1 == Height(End(clip) - 1, lo, hi))
      requires (Meets(clip, lo, m) ==> Fed(clip, lo, m)) && (Meets(clip, m, hi) ==> Fed(clip, m, hi))
      modifies this`leftDepth, this`rightDepth, full.tree`store, full.tree`cursor, full.tree`nodeMap
      ensures ok <==> Fed(clip, lo, hi)
      ensures ok ==> Part(st0, at, lo, hi, node)
      ensures leftDepth == old(leftDepth) + (if useLeft then 1 else 0)
        && rightDepth == old(rightDepth) + (if useRight then 1 else 0)
    {
      hide Built, BuiltBoth, Filed, Complete, PowBelow, Height;
      at := map[];
      if useLeft {
        leftDepth := leftDepth + 1;
      }
      if useRight {
        rightDepth := rightDepth + 1;
      }
      if leftNode == NIL && rightNode == NIL {
        return true, NIL, at;
      }
      if leftNode == NIL {
        if leftDepth >= |leftMerklePath.hashes| {
          return false, NIL, at;
        }
        node, at := JoinLeftFringe(leftMerklePath.hashes[leftDepth], rightNode, st0, r, Cut(clip, m, hi));
      } else if rightNode == NIL {
        if rightDepth >= |rightMerklePath.hashes| {
          return false, NIL, at;
        }
        node, at := JoinRightFringe(leftNode, rightMerklePath.hashes[rightDepth], st0, l, Cut(clip, lo, m));
      } else {
        node, at := full.CreateParent(leftNode, rightNode, st0, l, Cut(clip, lo, m), r, Cut(clip, m, hi));
      }
      ok := true;
    }

    /** A supplied hash on the left. */
    method JoinLeftFringe(leftHash: MerkleHash, rightNode: Id, ghost st0: Store, ghost r: Places, ghost tr: Tree)
      returns (node: Id, ghost at: Places)
      requires full.Made(st0, r, tr, rightNode)
      modifies full.tree`store, full.tree`cursor, full.tree`nodeMap
      ensures node != NIL && full.Made(st0, at, Fork(Tip(leftHash), tr), node)
    {
      hide Built, BuiltBoth, Filed, Complete;
      ghost var st1 := full.tree.store;
      var leftNode;
      ghost var l;
      leftNode, l := full.CreateLeaf(leftHash);
      BuiltNext(st0, st1, full.tree.store, r, tr, l, Tip(leftHash));
      BuiltOtherWay(st0, full.tree.store, r, tr, l, Tip(leftHash));
      node, at := full.CreateParent(leftNode, rightNode, st0, l, Tip(leftHash), r, tr);
    }

    /** A supplied hash on the right. */
    method JoinRightFringe(leftNode: Id, rightHash: MerkleHash, ghost st0: Store, ghost l: Places, ghost tl: Tree)
      returns (node: Id, ghost at: Places)
      requires full.Made(st0, l, tl, leftNode)
      modifies full.tree`store, full.tree`cursor, full.tree`nodeMap
      ensures node != NIL && full.Made(st0, at, Fork(tl, Tip(rightHash)), node)
    {
      hide Built, BuiltBoth, Filed, Complete;
      ghost var st1 := full.tree.store;
      var rightNode;
      ghost var r;
      rightNode, r := full.CreateLeaf(rightHash);
      BuiltNext(st0, st1, full.tree.store, l, tl, r, Tip(rightHash));
      node, at := full.CreateParent(leftNode, rightNode, st0, l, tl, r, Tip(rightHash));
    }

    /** `getLeave`. */
    function GetLeave(index: int): (h: Option<MerkleHash>)
      requires numLeaves == |leaves|
      ensures h.Some? <==> startIndex <= index < startIndex + numLeaves
      ensures h.Some? ==> h.value == leaves[index - startIndex]
    {
      var i := index - startIndex;
      if i >= 0 && i < numLeaves then Some(leaves[i]) else None
    }

    /**
      `buildPerfectSubtree` over leaves `start .. end - 1`; counts the levels above the first and the last kept
      leaf.
     */
    method BuildPerfectSubtree(start: nat, end: nat)
      returns (ok: bool, node: Id, useLeft: bool, useRight: bool, ghost at: Places)
      requires Inv() && start < end && LowBit(end - start) == end - start
      requires (Covers(start, end, clip.start) ==> leftDepth == 0)
        && (Covers(start, end, End(clip) - 1) ==> rightDepth == 0)
      modifies this`leftDepth, this`rightDepth, full.tree`store, full.tree`cursor, full.tree`nodeMap
      ensures ok <==> Fed(clip, start, end)
      ensures ok ==> Part(old(full.tree.store), at, start, end, node) && Counted(start, end, useLeft, useRight)
      ensures ok ==> (useLeft || leftDepth == old(leftDepth)) && (useRight || rightDepth == old(rightDepth))
      decreases end - start
    {
      hide Built, BuiltBoth, Filed, Complete, LowBit, PowBelow, Height;
      at := map[];
      if end <= startIndex || start >= startIndex + numLeaves {
        return true, NIL, false, false, at;
      }
      var size := end - start;
      if size == 1 {
        if start == startIndex { HeightStep(clip.start, start, end); }
        if startIndex + numLeaves == end { HeightStep(End(clip) - 1, start, end); }
        var leafHash := GetLeave(start);
        node, at := full.CreateLeaf(leafHash.value);
        return true, node, start == startIndex, startIndex + numLeaves == end, at;
      }
      PowerHalves(size);
      ok, node, useLeft, useRight, at := BuildHalves(start, start + size / 2, end);
    }

    /** The recursive case of `buildPerfectSubtree`. */
    method BuildHalves(start: nat, mid: nat, end: nat)
      returns (ok: bool, node: Id, useLeft: bool, useRight: bool, ghost at: Places)
      requires Inv() && start < mid < end && mid == start + PowBelow(end - start) && Meets(clip, start, end)
      requires LowBit(mid - start) == mid - start && LowBit(end - mid) == end - mid
      requires (Covers(start, end, clip.start) ==> leftDepth == 0)
        && (Covers(start, end, End(clip) - 1) ==> rightDepth == 0)
      modifies this`leftDepth, this`rightDepth, full.tree`store, full.tree`cursor, full.tree`nodeMap
      ensures ok <==> Fed(clip, start, end)
      ensures ok ==> Part(old(full.tree.store), at, start, end, node) && Counted(start, end, useLeft, useRight)
      ensures ok ==> (useLeft || leftDepth == old(leftDepth)) && (useRight || rightDepth == old(rightDepth))
      decreases end - start, 0
    {
      hide Built, BuiltBoth, Filed, Complete, LowBit, PowBelow, Height;
      var leftNode, leftUseLeft, leftUseRight, rightNode, rightUseLeft, rightUseRight;
      ghost var l, r, st0 := map[], map[], full.tree.store;
      ok, leftNode, leftUseLeft, leftUseRight, l := BuildPerfectSubtree(start, mid);
      if !ok {
        return false, NIL, false, false, map[];
      }
      ghost var st1 := full.tree.store;
      ok, rightNode, rightUseLeft, rightUseRight, r := BuildPerfectSubtree(mid, end);
      if !ok {
        return false, NIL, false, false, map[];
      }
      BothParts(st0, st1, l, r, start, mid, end, leftNode, rightNode);
      useLeft, useRight := leftUseLeft || rightUseLeft, leftUseRight || rightUseRight;
      if useLeft { HeightStep(clip.start, start, end); }
      if useRight { HeightStep(End(clip) - 1, start, end); }
      ok, node, at := CreateParentNode(leftNode, rightNode, useLeft, useRight, start, mid, end, st0, l, r);
    }

    /** The left half was built first, then the right one. */
    lemma {:induction false} BothParts(st0: Store, st1: Store, l: Places, r: Places, lo: nat, m: nat, hi: nat,
                                       leftNode: Id, rightNode: Id)
      requires Inv() && lo < m < hi && Part(st1, r, m, hi, rightNode)
      requires if Meets(clip, lo, m) then
        leftNode != NIL && Built(st0, st1, l, Cut(clip, lo, m)) && l[Apex] == leftNode && Complete(l, Cut(clip, lo, m))
        else leftNode == NIL && st1 == st0
      ensures Halves(st0, l, r, lo, m, hi, leftNode, rightNode)
    {
      hide Partly, Complete, Filed, Cut;
      if leftNode != NIL && rightNode != NIL {
        BuiltNext(st0, st1, full.tree.store, l, Cut(clip, lo, m), r, Cut(clip, m, hi));
      }
    }

    /** The right half was built first, then the left one. */
    lemma {:induction false} BothPartsBack(st0: Store, st1: Store, l: Places, r: Places, lo: nat, m: nat, hi: nat,
                                           leftNode: Id, rightNode: Id)
      requires Inv() && lo < m < hi && Part(st1, l, lo, m, leftNode)
      requires if Meets(clip, m, hi) then
        rightNode != NIL && Built(st0, st1, r, Cut(clip, m, hi)) && r[Apex] == rightNode
        && Complete(r, Cut(clip, m, hi))
        else rightNode == NIL && st1 == st0
      ensures Halves(st0, l, r, lo, m, hi, leftNode, rightNode)
    {
      hide Partly, Complete, Filed, Cut;
      if leftNode != NIL && rightNode != NIL {
        BuiltNext(st0, st1, full.tree.store, r, Cut(clip, m, hi), l, Cut(clip, lo, m));
        BuiltOtherWay(st0, full.tree.store, r, Cut(clip, m, hi), l, Cut(clip, lo, m));
      }
    }

    /** How high the ends of the run are in both parts together. */
    lemma {:induction false} PeakHeights(k: nat, m: nat, inRightL: bool, inLeftL: bool, left0: nat, inRightR: bool,
                                         inLeftR: bool, right0: nat)
      requires Inv() && k < m < clip.size && m == k + PowBelow(clip.size - k) && Counted(k, m, inLeftL, inLeftR)
      requires (inRightL <==> Covers(m, clip.size, clip.start)) && (inRightR <==> Covers(m, clip.size, End(clip) - 1))
      requires left0 == if inRightL then Height(clip.start, m, clip.size) else 0
      requires right0 == if inRightR then Height(End(clip) - 1, m, clip.size) else 0
      requires (inLeftL || leftDepth == left0) && (inLeftR || rightDepth == right0)
      ensures inRightL || inLeftL <==> Covers(k, clip.size, clip.start)
      ensures inRightL || inLeftL ==> leftDepth + 1 == Height(clip.start, k, clip.size)
      ensures inRightR || inLeftR <==> Covers(k, clip.size, End(clip) - 1)
      ensures inRightR || inLeftR ==> rightDepth + 1 == Height(End(clip) - 1, k, clip.size)
    {
      hide Height, PowBelow;
      if inRightL || inLeftL { PeakHeight(clip.start, k, m, clip.size, inRightL, inLeftL, left0, leftDepth); }
      if inRightR || inLeftR { PeakHeight(End(clip) - 1, k, m, clip.size, inRightR, inLeftR, right0, rightDepth); }
    }

    /** A round of `build` after the first: the next peak to the left, joined to the part behind it. */
    method NextPeak(numberOfNodes: nat, rightChild: Id, useLeft: bool, useRight: bool, ghost r: Places)
      returns (ok: bool, node: Id, useLeft': bool, useRight': bool, ghost at: Places)
      requires Inv() && Cleared(numberOfNodes, clip.size) && numberOfNodes < clip.size
        && Part(map[], r, numberOfNodes, clip.size, rightChild)
      requires Fed(clip, numberOfNodes, clip.size) && Counted(numberOfNodes, clip.size, useLeft, useRight)
      requires (useLeft || leftDepth == 0) && (useRight || rightDepth == 0)
      modifies this`leftDepth, this`rightDepth, full.tree`store, full.tree`cursor, full.tree`nodeMap
      ensures ok <==> Fed(clip, numberOfNodes - LowBit(numberOfNodes), clip.size)
      ensures var k := numberOfNodes - LowBit(numberOfNodes);
        ok ==> Part(map[], at, k, clip.size, node) && Counted(k, clip.size, useLeft', useRight')
      ensures ok ==> (useLeft' || leftDepth == 0) && (useRight' || rightDepth == 0)
    {
      hide Built, BuiltBoth, Filed, Complete, AndNot, LowBit, PowBelow, Height, Fed, Meets,
           Cut;
      AndNotIsolatesLowBit(numberOfNodes);
      var lsb := AndNot(numberOfNodes, numberOfNodes - 1);
      LowBitIdempotent(numberOfNodes);
      PeakSplit(numberOfNodes, clip.size);
      ghost var k, st1, l := numberOfNodes - lsb, full.tree.store, map[];
      ghost var left0, right0 := leftDepth, rightDepth;
      var leftChild, childUseLeft, childUseRight;
      ok, leftChild, childUseLeft, childUseRight, l := BuildPerfectSubtree(numberOfNodes - lsb, numberOfNodes);
      if !ok {
        PeakFed(k, numberOfNodes);
        return false, NIL, false, false, map[];
      }
      useLeft', useRight' := useLeft || childUseLeft, useRight || childUseRight;
      PeakHeights(k, numberOfNodes, useLeft, childUseLeft, left0, useRight, childUseRight, right0);
      BothPartsBack(map[], st1, l, r, k, numberOfNodes, clip.size, leftChild, rightChild);
      ok, node, at := CreateParentNode(leftChild, rightChild, useLeft', useRight', k, numberOfNodes, clip.size, map[],
        l, r);
    }

    lemma {:induction false} PeakFed(k: nat, m: nat)
      requires clip.leaves != [] && k < m < clip.size && m == k + PowBelow(clip.size - k) && !Fed(clip, k, m)
      ensures !Fed(clip, k, clip.size)
    {
      hide PowBelow, Height;
    }

    /**
      `build`: fails exactly when the kept leaves do not lie within the tree. It panics exactly when a path is too
      short.
     */
    method Build(size: int) returns (r: ClipResult)
      requires Inv() && full.tree.Empty() && full.tree.listening && leftDepth == 0 && rightDepth == 0
      requires clip.size == if size < 0 then 0 else size
      modifies this`leftDepth, this`rightDepth, full.tree, full`row
      ensures r.ShortPath? <==> clip.size > 0 && !Fed(clip, 0, clip.size)
      ensures r.Clipped? <==> InRange(clip) && Fed(clip, 0, clip.size)
      ensures r.Clipped? || r.ShortPath? || r.OutOfRange?
      ensures r.Clipped? ==> r.tree == full && IsClip(full, clip)
    {
      hide Built, Filed, Complete, LowBit, PowBelow, Height, Cut, Exact, NoTwins, Fed;
      full.tree.size := size;
      var ok, rightChild, useLeft, useRight := true, NIL, false, false;
      var rightMostSubtreeBuilt := false;
      var numberOfNodes := size;
      ghost var at := map[];
      while numberOfNodes > 0
        invariant numberOfNodes <= size && full.tree.size == size && Inv()
        invariant rightMostSubtreeBuilt <==> numberOfNodes < size
        invariant !rightMostSubtreeBuilt ==>
          full.tree.store == map[] && leftDepth == 0 && rightDepth == 0 && !useLeft && !useRight
        invariant rightMostSubtreeBuilt ==>
          numberOfNodes >= 0 && Part(map[], at, numberOfNodes, size, rightChild) && Fed(clip, numberOfNodes, size)
        invariant rightMostSubtreeBuilt ==> Counted(numberOfNodes, size, useLeft, useRight)
        invariant (useLeft || leftDepth == 0) && (useRight || rightDepth == 0)
        invariant numberOfNodes > 0 ==> Cleared(numberOfNodes, size)
      {
        AndNotIsolatesLowBit(numberOfNodes);
        var lsb := AndNot(numberOfNodes, numberOfNodes - 1);
        if !rightMostSubtreeBuilt {
          LowBitIdempotent(numberOfNodes);
          ok, rightChild, useLeft, useRight, at := BuildPerfectSubtree(numberOfNodes - lsb, numberOfNodes);
          rightMostSubtreeBuilt := true;
        } else {
          ok, rightChild, useLeft, useRight, at := NextPeak(numberOfNodes, rightChild, useLeft, useRight, at);
        }
        if numberOfNodes > lsb { ClearNext(numberOfNodes, size); }
        if !ok {
          Unfed(clip, numberOfNodes - lsb);
          return ShortPath;
        }
        numberOfNodes := numberOfNodes - lsb;
      }
      if !(useLeft && useRight) {
        return OutOfRange;
      }
      Finish(rightChild, at);
      return Clipped(full);
    }

    /** The end of `build`. */
    method Finish(rightChild: Id, ghost at: Places)
      requires InRange(clip) && Part(map[], at, 0, clip.size, rightChild) && full.tree.size == clip.size
        && full.tree.listening
      modifies full.tree, full`row
      ensures IsClip(full, clip)
    {
      hide Built, Filed, Complete, Cut, Exact, NoTwins, Hung;
      ghost var t := Cut(clip, 0, clip.size);
      BuildDone(full.tree.store, full.tree.nodeMap, at, t);
      LastKept(full.tree.store, full.tree.nodeMap, at, t);
      full.tree.at, full.tree.content, full.row := at, t, [];
      full.tree.merkleRoot := Some(full.tree.store[rightChild].hash);
      full.tree.lastNodeHash := Some(leaves[numLeaves - 1]);
    }

    lemma {:induction false} LastKept(st: Store, index: map<MerkleHash, Id>, at: Places, t: Tree)
      requires InRange(clip) && t == Cut(clip, 0, clip.size) && Stands(st, at, t) && Filed(index, st, {})
      ensures clip.leaves[|clip.leaves| - 1] in index
    {
      hide Cut, Hung;
      KeptLeaf(clip, 0, clip.size, End(clip) - 1);
      var a := LeafPlace(End(clip) - 1, clip.size);
      assert a in at && st[at[a]].hash in index;
    }
  }

  /** What a part of the tree lacks, the whole lacks. */
  lemma {:induction false} Unfed(c: Clip, k: nat)
    requires c.leaves != [] && k < c.size && (k == 0 || Cleared(k, c.size)) && !Fed(c, k, c.size)
    ensures !Fed(c, 0, c.size)
    decreases k
  {
    hide LowBit, PowBelow, Height;
    if k == 0 {
    } else {
      PeakSplit(k, c.size);
      if k > LowBit(k) { ClearNext(k, c.size); }
      Unfed(c, k - LowBit(k));
    }
  }

  datatype ClipResult = Clipped(tree: FullMerkleTree) | NoLeaves | CountMismatch | OutOfRange | ShortPath

  /** The tree is the clipped one, with its root, all its nodes, and each indexed if and only if no two share a hash. */
  ghost predicate IsClip(full: FullMerkleTree, c: Clip)
    reads full, full.tree
  {
    && InRange(c) && full.tree.content == Cut(c, 0, c.size) && full.tree.size == c.size
    && full.tree.merkleRoot == Some(RootOf(full.tree.content))
    && Stands(full.tree.store, full.tree.at, full.tree.content) && (full.Inv() <==> NoTwins(full.tree.content))
    && !full.tree.Empty()
  }

  /** `NewClippedMerkleTree`: each outcome exactly in its case. A tree that comes out is the clipped one. */
  method NewClippedMerkleTree(size: int, startIndex: int, numLeaves: int, leaves: seq<MerkleHash>,
                              leftMerklePath: MerklePath, rightMerklePath: MerklePath) returns (r: ClipResult,
                              ghost c: Clip)
    ensures c == Clip(if size < 0 then 0 else size, startIndex, leaves, leftMerklePath.hashes, rightMerklePath.hashes)
    ensures r.NoLeaves? <==> numLeaves <= 0 || leaves == []
    ensures r.CountMismatch? <==> numLeaves > 0 && leaves != [] && numLeaves != |leaves|
    ensures r.ShortPath? <==> numLeaves == |leaves| > 0 && c.size > 0 && !Fed(c, 0, c.size)
    ensures r.Clipped? <==> numLeaves == |leaves| && InRange(c) && Fed(c, 0, c.size)
    ensures r.Clipped? ==> fresh(r.tree) && fresh(r.tree.tree) && IsClip(r.tree, c)
  {
    c := Clip(if size < 0 then 0 else size, startIndex, leaves, leftMerklePath.hashes, rightMerklePath.hashes);
    if numLeaves <= 0 || |leaves| == 0 {
      return NoLeaves, c;
    }
    if numLeaves != |leaves| {
      return CountMismatch, c;
    }
    var builder := new ClippedMerkleTreeBuilder(c.size, startIndex, numLeaves, leaves, leftMerklePath, rightMerklePath);
    r := builder.Build(size);
  }

  /**
    With the root of a tree over `s` without repeated hashes, a clipped tree can stand for that tree: it has and
    indexes some of its nodes.
   */
  lemma {:induction false} ClipStandsFor(full: FullMerkleTree, c: Clip, s: seq<MerkleHash>)
    requires IsClip(full, c) && c.size == |s| && full.tree.merkleRoot == Some(Root(s, 0, |s|))
      && NoTwins(Assemble(Tips(s)))
    ensures full.Inv() && Trimmed(full.tree.content, Assemble(Tips(s))) && c.leaves == s[c.start..End(c)]
    ensures forall i: nat {:trigger LeafPlace(i, c.size)} ::
      c.start <= i < End(c) ==> LeafPlace(i, c.size) in full.tree.at
  {
    hide Cut, Trimmed, NoTwins, Partly, Exact;
    ClipSound(c, s);
    TrimmedTwins(full.tree.content, Assemble(Tips(s)));
    forall i: nat | c.start <= i < End(c) ensures LeafPlace(i, c.size) in full.tree.at { KeptLeaf(c, 0, c.size, i); }
  }
}
