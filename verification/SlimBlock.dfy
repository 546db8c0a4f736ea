/** Slim blocks: what each shard gets of a block's outs, with the neighbours that show it got all of them. */
module SlimBlocks {
  import opened MerkleSpec
  import opened Trees
  import opened MerklePaths
  import opened PlacedTrees
  import opened FullTree
  import opened ClipSpec
  import opened ClippedTree

  /** An out: its shard and the rest of its bytes. */
  datatype OutState = OutState(shard: nat, rest: seq<nat>)

  function OutHash(o: OutState): MerkleHash {
    Atom([o.shard] + o.rest)
  }

  function OutHashes(outs: seq<OutState>): (hs: seq<MerkleHash>)
    ensures |hs| == |outs| && forall i :: 0 <= i < |outs| ==> hs[i] == OutHash(outs[i])
  {
    seq(|outs|, i requires 0 <= i < |outs| => OutHash(outs[i]))
  }

  datatype ClipTreeData = ClipTreeData(size: int, startIndex: int, isLeftOutNil: bool, isRightOutNil: bool,
                                       outs: seq<OutState>,
                                       leftMerklePath: MerklePath, rightMerklePath: MerklePath)

  datatype SlimBlock = SlimBlock(toShard: nat, clipTreeData: ClipTreeData)

  ghost predicate Sorted(outs: seq<OutState>) {
    forall i, j :: 0 <= i <= j < |outs| ==> outs[i].shard <= outs[j].shard
  }

  ghost predicate AllDifferent(outs: seq<OutState>) {
    forall i, j :: 0 <= i < j < |outs| ==> outs[i] != outs[j]
  }

  /** The number of leading outs of smaller shards. */
  ghost function Before(outs: seq<OutState>, shard: nat): (n: nat)
    ensures n <= |outs|
  {
    if outs == [] || outs[0].shard >= shard then 0 else 1 + Before(outs[1..], shard)
  }

  /** `a` divides the outs into those of smaller shards and the rest. */
  ghost predicate Divides(outs: seq<OutState>, shard: nat, a: nat) {
    a <= |outs| && (forall i :: 0 <= i < a ==> outs[i].shard < shard)
      && (forall i :: a <= i < |outs| ==> outs[i].shard >= shard)
  }

  lemma {:induction false} BeforeDivides(outs: seq<OutState>, shard: nat)
    requires Sorted(outs)
    ensures Divides(outs, shard, Before(outs, shard))
  {
    if outs != [] && outs[0].shard < shard {
      BeforeDivides(outs[1..], shard);
      var a := Before(outs[1..], shard);
      forall i | 0 <= i < 1 + a ensures outs[i].shard < shard {
        if i > 0 { assert outs[i] == outs[1..][i - 1]; }
      }
      forall i | 1 + a <= i < |outs| ensures outs[i].shard >= shard { assert outs[i] == outs[1..][i - 1]; }
    }
  }

  lemma {:induction false} OnlyBefore(outs: seq<OutState>, shard: nat, a: nat)
    requires Sorted(outs) && Divides(outs, shard, a)
    ensures a == Before(outs, shard)
  {
    BeforeDivides(outs, shard);
    var b := Before(outs, shard);
    assert a < |outs| ==> outs[a].shard >= shard;
    assert b < |outs| ==> outs[b].shard >= shard;
  }

  /** The data of the outs between two neighbours: own outs `a .. z - 1` of all outs. */
  ghost predicate Between(c: ClipTreeData, outs: seq<OutState>, a: nat, z: nat) {
    && outs != [] && a <= z <= |outs|
    && c.size == |outs| && c.startIndex == (if a == 0 then 0 else a - 1)
    && (c.isLeftOutNil <==> a == 0) && (c.isRightOutNil <==> z == |outs|)
    && var end := if z == |outs| then z else z + 1;
       && c.outs == outs[c.startIndex..end] && end > c.startIndex
       && c.leftMerklePath == LeafPath(OutHashes(outs), c.startIndex)
       && c.rightMerklePath == LeafPath(OutHashes(outs), end - 1)
  }

  /** What the slim block for `shard` has to be. */
  ghost predicate SlimFor(b: SlimBlock, outs: seq<OutState>, shard: nat) {
    b.toShard == shard && Between(b.clipTreeData, outs, Before(outs, shard), Before(outs, shard + 1))
  }

  /** Different outs make a tree in which no two nodes have the same hash. */
  lemma {:induction false} OutsApart(outs: seq<OutState>)
    requires outs != [] && AllDifferent(outs)
    ensures NoTwins(Assemble(Tips(OutHashes(outs))))
  {
    hide Assemble, NoTwins, Apart;
    var hs := OutHashes(outs);
    forall i, j | 0 <= i < j < |hs| ensures hs[i] != hs[j] { OutHashInjective(outs[i], outs[j]); }
    DistinctAtomsSeparated(hs);
    RowApart(hs);
    ApartNoTwins(Assemble(Tips(hs)));
  }

  lemma {:induction false} OutHashInjective(a: OutState, b: OutState)
    ensures OutHash(a) == OutHash(b) ==> a == b
  {
    if OutHash(a) == OutHash(b) {
      var x, y := [a.shard] + a.rest, [b.shard] + b.rest;
      assert x[0] == a.shard && x[1..] == a.rest && y[0] == b.shard && y[1..] == b.rest;
    }
  }

  /** The cursor of `GetSlimBlocksFromBlock` after skipping smaller shards. */
  method Skip(outs: seq<OutState>, shard: nat, p0: nat) returns (p: nat)
    requires Sorted(outs) && p0 <= |outs| && forall i :: 0 <= i < p0 ==> outs[i].shard < shard
    ensures p == Before(outs, shard) && p0 <= p
  {
    p := p0;
    while p < |outs| && outs[p].shard < shard
      invariant p0 <= p <= |outs| && forall i :: 0 <= i < p ==> outs[i].shard < shard
    {
      p := p + 1;
    }
    OnlyBefore(outs, shard, p);
  }

  /** Taking the outs of one shard. */
  method Take(all: seq<OutState>, shard: nat, p0: nat, outs0: seq<OutState>) returns (p: nat, outs: seq<OutState>)
    requires Sorted(all) && p0 == Before(all, shard)
    ensures p0 <= p == Before(all, shard + 1) && outs == outs0 + all[p0..p]
  {
    BeforeDivides(all, shard);
    p, outs := p0, outs0;
    while p < |all| && all[p].shard == shard
      invariant p0 <= p <= |all| && outs == outs0 + all[p0..p]
      invariant forall i :: p0 <= i < p ==> all[i].shard == shard
    {
      outs := outs + [all[p]];
      p := p + 1;
    }
    OnlyBefore(all, shard + 1, p);
  }

  /** The outs of one shard with their neighbours. */
  method Gather(outs: seq<OutState>, shard: nat, p0: nat)
    returns (p: nat, startIndex: nat, isLeftNil: bool, isRightNil: bool, own: seq<OutState>, ghost end: nat)
    requires outs != [] && Sorted(outs) && p0 <= |outs| && forall i :: 0 <= i < p0 ==> outs[i].shard < shard
    ensures p == Before(outs, shard + 1) && Before(outs, shard) <= p
    ensures startIndex == if Before(outs, shard) == 0 then 0 else Before(outs, shard) - 1
    ensures (isLeftNil <==> Before(outs, shard) == 0) && (isRightNil <==> p == |outs|)
    ensures end == (if p == |outs| then p else p + 1) && startIndex < end && own == outs[startIndex..end]
  {
    hide Before, Sorted;
    p := Skip(outs, shard, p0);
    startIndex, isLeftNil, own := p, true, [];
    if p != 0 {
      startIndex, isLeftNil, own := p - 1, false, [outs[p - 1]];
    }
    p, own := Take(outs, shard, p, own);
    isRightNil := true;
    if p != |outs| {
      isRightNil, own := false, own + [outs[p]];
    }
    end := if p == |outs| then p else p + 1;
  }

  /** The slim block of one shard: the round of `GetSlimBlocksFromBlock`, from cursor to cursor. */
  method SlimBlockFor(outs: seq<OutState>, fullMerkleTree: FullMerkleTree, shard: nat, p0: nat)
    returns (p: nat, b: SlimBlock)
    requires outs != [] && Sorted(outs) && AllDifferent(outs)
    requires fullMerkleTree.Inv() && fullMerkleTree.Whole() && fullMerkleTree.row == Tips(OutHashes(outs))
    requires p0 <= |outs| && forall i :: 0 <= i < p0 ==> outs[i].shard < shard
    ensures p == Before(outs, shard + 1) && SlimFor(b, outs, shard)
  {
    hide Partly, Exact, Separated, Proof, Sides, Before, Sorted, AllDifferent, LeafPath, Tips;
    var startIndex, isLeftNil, isRightNil, own;
    ghost var end;
    p, startIndex, isLeftNil, isRightNil, own, end := Gather(outs, shard, p0);
    var leftMerklePath := PathOfOut(outs, fullMerkleTree, own[0], startIndex);
    var rightMerklePath := PathOfOut(outs, fullMerkleTree, own[|own| - 1], end - 1);
    b := SlimBlock(shard, ClipTreeData(|outs|, startIndex, isLeftNil, isRightNil, own, leftMerklePath,
      rightMerklePath));
  }

  /** `GetMerklePath` never fails here. */
  method PathOfOut(outs: seq<OutState>, fullMerkleTree: FullMerkleTree, out: OutState, ghost i: nat)
    returns (path: MerklePath)
    requires fullMerkleTree.Inv() && fullMerkleTree.Whole() && fullMerkleTree.row == Tips(OutHashes(outs))
      && i < |outs| && outs[i] == out
    ensures path == LeafPath(OutHashes(outs), i)
  {
    hide Partly, Exact, Proof, Sides, Assemble, LeafPlace;
    LeafAt(fullMerkleTree.row, i);
    assert LeafPlace(i, |outs|) in fullMerkleTree.tree.at;
    var r := fullMerkleTree.GetMerklePath(OutHash(out));
    path := r.value;
  }

  /** What `getFromEmptyBlock` gives each shard. */
  function EmptyBlock(shard: nat): SlimBlock {
    SlimBlock(shard, ClipTreeData(0, -1, true, true, [], MerklePath([], []), MerklePath([], [])))
  }

  /** A slim block for the shard that has no outs, no place and no neighbours. */
  predicate OfNothing(b: SlimBlock, shard: nat) {
    var c := b.clipTreeData;
    && b.toShard == shard && c.size == 0 && c.startIndex == -1 && c.outs == [] && c.isLeftOutNil && c.isRightOutNil
    && c.leftMerklePath == MerklePath([], []) == c.rightMerklePath
  }

  datatype SlimResult = Blocks(slimBlocks: seq<SlimBlock>) | NoOuts

  /**
    `GetSlimBlocksFromBlock` for a block whose outs are sorted by shard; the shards are `0 .. shardCount - 1`.
    A block without outs that is not marked as empty makes it index an empty list.
   */
  method GetSlimBlocksFromBlock(isEmptyBlock: bool, outs: seq<OutState>, shardCount: nat) returns (r: SlimResult)
    requires isEmptyBlock || (Sorted(outs) && AllDifferent(outs))
    ensures r.NoOuts? <==> !isEmptyBlock && outs == [] && shardCount > 0
    ensures r.Blocks? ==> |r.slimBlocks| == shardCount
    ensures isEmptyBlock ==> r.Blocks? && forall s: nat :: s < shardCount ==> OfNothing(r.slimBlocks[s], s)
    ensures r.Blocks? && !isEmptyBlock ==> forall s: nat :: s < shardCount ==> SlimFor(r.slimBlocks[s], outs, s)
  {
    var slimBlocks := [];
    if isEmptyBlock {
      for shard := 0 to shardCount
        invariant |slimBlocks| == shard && forall s: nat :: s < shard ==> OfNothing(slimBlocks[s], s)
      {
        slimBlocks := slimBlocks + [EmptyBlock(shard)];
      }
      return Blocks(slimBlocks);
    }
    var fullMerkleTree := new FullMerkleTree(OutHashes(outs));
    if outs == [] {
      return if shardCount > 0 then NoOuts else Blocks([]);
    }
    OutsApart(outs);
    slimBlocks := SlimBlocksFor(outs, fullMerkleTree, shardCount);
    return Blocks(slimBlocks);
  }

  /** The loop of `GetSlimBlocksFromBlock`. */
  method SlimBlocksFor(outs: seq<OutState>, fullMerkleTree: FullMerkleTree, shardCount: nat)
    returns (slimBlocks: seq<SlimBlock>)
    requires outs != [] && Sorted(outs) && AllDifferent(outs)
    requires fullMerkleTree.Inv() && fullMerkleTree.Whole() && fullMerkleTree.row == Tips(OutHashes(outs))
    ensures |slimBlocks| == shardCount && forall s: nat :: s < shardCount ==> SlimFor(slimBlocks[s], outs, s)
  {
    hide SlimFor, Root, Partly, Exact, Assemble;
    slimBlocks := [];
    var p: nat := 0;
    for shard := 0 to shardCount
      invariant |slimBlocks| == shard && forall s: nat :: s < shard ==> SlimFor(slimBlocks[s], outs, s)
      invariant p <= |outs| && forall i :: 0 <= i < p ==> outs[i].shard < shard
    {
      var b;
      p, b := SlimBlockFor(outs, fullMerkleTree, shard, p);
      BeforeDivides(outs, shard + 1);
      slimBlocks := slimBlocks + [b];
    }
  }

  // ---------------------------------------------------------------- what the storage node checks

  /** A flagged neighbour is of another shard on its side; every other out is of this shard. */
  predicate Integral(c: ClipTreeData, shard: nat) {
    forall i {:trigger c.outs[i]} :: 0 <= i < |c.outs| ==>
      var neighbourL, neighbourR := i == 0 && !c.isLeftOutNil, i == |c.outs| - 1 && !c.isRightOutNil;
      && (neighbourL ==> c.outs[i].shard < shard) && (neighbourR ==> c.outs[i].shard > shard)
      && (neighbourL || neighbourR || c.outs[i].shard == shard)
  }

  /** `verifyIntegrity`. */
  method VerifyIntegrity(c: ClipTreeData, shard: nat) returns (ok: bool)
    ensures ok <==> Integral(c, shard)
  {
    var last := |c.outs| - 1;
    for index := 0 to |c.outs|
      invariant forall i {:trigger c.outs[i]} :: 0 <= i < index ==>
        var neighbourL, neighbourR := i == 0 && !c.isLeftOutNil, i == last && !c.isRightOutNil;
        && (neighbourL ==> c.outs[i].shard < shard) && (neighbourR ==> c.outs[i].shard > shard)
        && (neighbourL || neighbourR || c.outs[i].shard == shard)
    {
      var out := c.outs[index];
      if (index == 0 && !c.isLeftOutNil && out.shard >= shard)
        || (index == last && !c.isRightOutNil && out.shard <= shard) {
        return false;
      }
      if out.shard != shard {
        if !(index == 0 && !c.isLeftOutNil) && !(index == last && !c.isRightOutNil) {
          return false;
        }
      }
      if index != 0 && index != last && out.shard != shard {
        return false;
      }
    }
    return true;
  }

  ghost function ClipOf(c: ClipTreeData): Clip {
    Clip(if c.size < 0 then 0
      else c.size, c.startIndex, OutHashes(c.outs), c.leftMerklePath.hashes, c.rightMerklePath.hashes)
  }

  /** The data passes: it is integral, has the hashes needed, and its clipped tree has the given root. */
  ghost predicate Accepts(c: ClipTreeData, root: MerkleHash, shard: nat) {
    Integral(c, shard) && InRange(ClipOf(c)) && Fed(ClipOf(c), 0, c.size) && RootOf(Cut(ClipOf(c), 0, c.size)) == root
  }

  /** A path of the data is too short for the depth of its leaf. */
  ghost predicate Starved(c: ClipTreeData) {
    c.outs != [] && c.size > 0 && !Fed(ClipOf(c), 0, c.size)
  }

  datatype RebuildResult = Rebuilt(tree: FullMerkleTree) | NotIntegral | NotClipped(error: ClipResult)
                         | WrongRoot | IndexOutOfRange

  /**
    `Rebuild`: each outcome exactly in its case. Against the root of a block's outs, the tree gives for every out
    sent its path in the block.
   */
  method Rebuild(c: ClipTreeData, root: MerkleHash, shard: nat, ghost all: seq<OutState>) returns (r: RebuildResult)
    ensures r.Rebuilt? <==> Accepts(c, root, shard)
    ensures r.NotIntegral? <==> !Integral(c, shard)
    ensures r.IndexOutOfRange? <==> Integral(c, shard) && Starved(c)
    ensures r.NotClipped? <==> Integral(c, shard) && !Starved(c) && !InRange(ClipOf(c))
    ensures r.Rebuilt? && c.size == |all| && root == Root(OutHashes(all), 0, |all|) && AllDifferent(all) ==>
      && fresh(r.tree.tree) && r.tree.Inv() && r.tree.tree.content == Assemble(Tips(OutHashes(all)))
      && forall i: nat {:trigger LeafPlace(i, |all|)} :: c.startIndex <= i < c.startIndex + |c.outs| ==>
         LeafPlace(i, |all|) in r.tree.tree.at
  {
    hide Integral, Cut, Fed, Assemble, Root, NoTwins, LeafPlace, Partly, Exact;
    var ok := VerifyIntegrity(c, shard);
    if !ok {
      return NotIntegral;
    }
    var leaves := OutHashes(c.outs);
    var clipped;
    ghost var clip;
    clipped, clip := NewClippedMerkleTree(c.size, c.startIndex, |leaves|, leaves, c.leftMerklePath, c.rightMerklePath);
    if clipped.ShortPath? {
      return IndexOutOfRange;
    }
    if !clipped.Clipped? {
      return NotClipped(clipped);
    }
    if clipped.tree.tree.merkleRoot.value != root {
      return WrongRoot;
    }
    if c.size == |all| && root == Root(OutHashes(all), 0, |all|) && AllDifferent(all) {
      OutsApart(all);
      ClipStandsFor(clipped.tree, clip, OutHashes(all));
      clipped.tree.See(Assemble(Tips(OutHashes(all))));
    }
    return Rebuilt(clipped.tree);
  }

  // ---------------------------------------------------------------- what is promised

  /** The outs of one shard. */
  ghost function OfShard(outs: seq<OutState>, shard: nat): seq<OutState> {
    if outs == [] then [] else (if outs[0].shard == shard then [outs[0]] else []) + OfShard(outs[1..], shard)
  }

  lemma {:induction false} OfShardAll(outs: seq<OutState>, shard: nat)
    requires forall i :: 0 <= i < |outs| ==> outs[i].shard == shard
    ensures OfShard(outs, shard) == outs
  {
    if outs == [] {
    } else {
      OfShardAll(outs[1..], shard);
    }
  }

  lemma {:induction false} OfShardCat(a: seq<OutState>, b: seq<OutState>, shard: nat)
    ensures OfShard(a + b, shard) == OfShard(a, shard) + OfShard(b, shard)
  {
    hide OfShard;
    if a == [] {
      assert a + b == b;
      OfShardNone(shard);
    } else {
      assert (a + b)[1..] == a[1..] + b;
      OfShardCat(a[1..], b, shard);
      OfShardFirst(a, shard);
      OfShardFirst(a + b, shard);
    }
  }

  lemma {:induction false} OfShardNone(shard: nat)
    ensures OfShard([], shard) == []
  {
  }

  lemma {:induction false} OfShardFirst(a: seq<OutState>, shard: nat)
    requires a != []
    ensures OfShard(a, shard) == (if a[0].shard == shard then [a[0]] else []) + OfShard(a[1..], shard)
  {
  }

  /** Among sorted outs, those of one shard stand together. */
  lemma {:induction false} OfShardRun(outs: seq<OutState>, shard: nat, a: nat, z: nat)
    requires Divides(outs, shard, a) && Divides(outs, shard + 1, z)
    ensures a <= z && outs[a..z] == OfShard(outs, shard)
  {
    hide OfShard;
    assert z < |outs| ==> outs[z].shard > shard;
    OfShardAround(outs, shard, a, z);
  }

  /** Without the flagged neighbours. */
  function Own(c: ClipTreeData): seq<OutState>
    requires HasNeighbours(c)
  {
    c.outs[(if c.isLeftOutNil then 0 else 1)..|c.outs| - (if c.isRightOutNil then 0 else 1)]
  }

  /** As many outs as neighbours are flagged. */
  predicate HasNeighbours(c: ClipTreeData) {
    |c.outs| >= (if c.isLeftOutNil then 0 else 1) + (if c.isRightOutNil then 0 else 1)
  }

  lemma {:induction false} OwnBetween(c: ClipTreeData, outs: seq<OutState>, a: nat, z: nat)
    requires Between(c, outs, a, z)
    ensures HasNeighbours(c) && Own(c) == outs[a..z]
  {
    hide LeafPath, OutHashes;
    var end := if z == |outs| then z else z + 1;
    var i, j := if c.isLeftOutNil then 0 else 1, |c.outs| - (if c.isRightOutNil then 0 else 1);
    SliceOfSlice(outs, c.startIndex, end - c.startIndex, i, j);
  }

  /** A generated slim block holds every out of its shard. */
  lemma {:induction false} SlimOwn(b: SlimBlock, outs: seq<OutState>, shard: nat)
    requires Sorted(outs) && SlimFor(b, outs, shard)
    ensures HasNeighbours(b.clipTreeData) && Own(b.clipTreeData) == OfShard(outs, shard)
    ensures Before(outs, shard) <= Before(outs, shard + 1)
    ensures Own(b.clipTreeData) == outs[Before(outs, shard)..Before(outs, shard + 1)]
  {
    hide LeafPath, OutHashes;
    BeforeDivides(outs, shard);
    BeforeDivides(outs, shard + 1);
    OfShardRun(outs, shard, Before(outs, shard), Before(outs, shard + 1));
    OwnBetween(b.clipTreeData, outs, Before(outs, shard), Before(outs, shard + 1));
  }

  /** Every generated slim block is accepted against the root of the block's outs. */
  lemma {:induction false} SlimAccepted(b: SlimBlock, outs: seq<OutState>, shard: nat)
    requires Sorted(outs) && SlimFor(b, outs, shard)
    ensures outs != [] && Accepts(b.clipTreeData, Root(OutHashes(outs), 0, |outs|), shard)
    ensures CutFrom(ClipOf(b.clipTreeData), OutHashes(outs))
  {
    hide Cut, CutFrom, Trimmed, Sorted, Integral, Fed, Root, Assemble;
    var c := b.clipTreeData;
    SlimIntegral(c, outs, shard, Before(outs, shard), Before(outs, shard + 1));
    SlimCut(c, outs, Before(outs, shard), Before(outs, shard + 1));
    CutPartOf(ClipOf(c), OutHashes(outs));
    ClipSound(ClipOf(c), OutHashes(outs));
  }

  lemma {:induction false} SlimIntegral(c: ClipTreeData, outs: seq<OutState>, shard: nat, a: nat, z: nat)
    requires Sorted(outs) && Between(c, outs, a, z) && a == Before(outs, shard) && z == Before(outs, shard + 1)
    ensures Integral(c, shard)
  {
    hide LeafPath, OutHashes, Before;
    BeforeDivides(outs, shard);
    BeforeDivides(outs, shard + 1);
    forall i | 0 <= i < |c.outs|
      ensures i == 0 && !c.isLeftOutNil ==> c.outs[i].shard < shard
      ensures i == |c.outs| - 1 && !c.isRightOutNil ==> c.outs[i].shard > shard
      ensures (i == 0 && !c.isLeftOutNil) || (i == |c.outs| - 1 && !c.isRightOutNil) || c.outs[i].shard == shard
    {
      var x := c.startIndex + i;
      assert c.outs[i] == outs[x];
    }
  }

  lemma {:induction false} SlimCut(c: ClipTreeData, outs: seq<OutState>, a: nat, z: nat)
    requires Between(c, outs, a, z)
    ensures CutFrom(ClipOf(c), OutHashes(outs))
  {
    hide LeafPath, OutHashes;
    var hs, k := OutHashes(outs), ClipOf(c);
    assert End(k) == if z == |outs| then z else z + 1;
    PathNotEmpty(hs, k.start);
    PathNotEmpty(hs, End(k) - 1);
    assert k.leaves == hs[k.start..End(k)];
  }

  lemma {:induction false} PathNotEmpty(s: seq<MerkleHash>, i: nat)
    requires i < |s|
    ensures |LeafPath(s, i).hashes| > 0 && LeafPath(s, i).hashes[0] == s[i]
  {
    LeafAt(Tips(s), i);
  }

  /** The outs of all slim blocks for shards below `n`, without neighbours, one after the other. */
  function Concat(blocks: seq<SlimBlock>, n: nat): seq<OutState>
    requires n <= |blocks| && forall i :: 0 <= i < n ==> HasNeighbours(blocks[i].clipTreeData)
  {
    if n == 0 then [] else Concat(blocks, n - 1) + Own(blocks[n - 1].clipTreeData)
  }

  ghost predicate SlimForAll(blocks: seq<SlimBlock>, outs: seq<OutState>) {
    forall s: nat :: s < |blocks| ==> SlimFor(blocks[s], outs, s)
  }

  lemma {:induction false} ConcatPrefix(blocks: seq<SlimBlock>, outs: seq<OutState>, n: nat)
    requires Sorted(outs) && SlimForAll(blocks, outs) && n <= |blocks|
    requires forall i :: 0 <= i < |blocks| ==> HasNeighbours(blocks[i].clipTreeData)
    ensures Concat(blocks, n) == outs[..Before(outs, n)]
  {
    hide SlimFor, Before, Sorted, Own, OfShard, HasNeighbours;
    if n == 0 {
      BeforeDivides(outs, 0);
      OnlyBefore(outs, 0, 0);
    } else {
      ConcatPrefix(blocks, outs, n - 1);
      SlimOwn(blocks[n - 1], outs, n - 1);
      Contiguous(outs, Before(outs, n - 1), Before(outs, n));
    }
  }

  lemma {:induction false} Contiguous(outs: seq<OutState>, a: nat, z: nat)
    requires a <= z <= |outs|
    ensures outs[..a] + outs[a..z] == outs[..z]
  {
  }

  /** Put together, the slim blocks give back the block's outs. */
  lemma {:induction false} SlimBlocksCover(blocks: seq<SlimBlock>, outs: seq<OutState>)
    requires Sorted(outs) && SlimForAll(blocks, outs) && forall i :: 0 <= i < |outs| ==> outs[i].shard < |blocks|
    ensures forall i :: 0 <= i < |blocks| ==> HasNeighbours(blocks[i].clipTreeData)
    ensures Concat(blocks, |blocks|) == outs
  {
    forall i | 0 <= i < |blocks| ensures HasNeighbours(blocks[i].clipTreeData) { SlimOwn(blocks[i], outs, i); }
    ConcatPrefix(blocks, outs, |blocks|);
    OnlyBefore(outs, |blocks|, |outs|);
  }

  /** Accepted data of the right size holds a run of the block's own outs. */
  lemma {:induction false} AcceptedSlice(c: ClipTreeData, all: seq<OutState>, shard: nat)
    requires all != [] && c.size == |all| && Accepts(c, Root(OutHashes(all), 0, |all|), shard)
    ensures 0 <= c.startIndex < c.startIndex + |c.outs| <= |all| && c.outs == all[c.startIndex..c.startIndex + |c.outs|]
  {
    hide Cut, Trimmed, Integral, Root, Assemble, Fed;
    var k := ClipOf(c);
    ClipSound(k, OutHashes(all));
    forall i | 0 <= i < |c.outs| ensures c.outs[i] == all[c.startIndex + i] {
      assert k.leaves[i] == OutHashes(all)[c.startIndex + i];
      OutHashInjective(c.outs[i], all[c.startIndex + i]);
    }
  }

  /** A missing neighbour is honest: no out of the shard lies beyond that end. */
  ghost predicate HonestEnds(c: ClipTreeData, all: seq<OutState>, shard: nat)
    requires 0 <= c.startIndex <= c.startIndex + |c.outs| <= |all|
  {
    && (c.isLeftOutNil ==> forall i :: 0 <= i < c.startIndex ==> all[i].shard != shard)
    && (c.isRightOutNil ==> forall i :: c.startIndex + |c.outs| <= i < |all| ==> all[i].shard != shard)
  }

  /**
    Accepted data holds every out of the shard exactly when its missing neighbours are honest, which `Rebuild` does
    not look at.
   */
  lemma {:induction false} AcceptedComplete(c: ClipTreeData, all: seq<OutState>, shard: nat)
    requires all != [] && Sorted(all) && c.size == |all| && Accepts(c, Root(OutHashes(all), 0, |all|), shard)
    ensures 0 <= c.startIndex < c.startIndex + |c.outs| <= |all| && HasNeighbours(c)
    ensures Own(c) == OfShard(all, shard) <==> HonestEnds(c, all, shard)
  {
    hide Cut, Root, Fed, ClipOf, HonestEnds;
    AcceptedSlice(c, all, shard);
    SliceOwn(c, all, shard);
  }

  /** The neighbours missing are missing at the ends of the block, as the data itself shows. */
  predicate Flush(c: ClipTreeData) {
    (c.isLeftOutNil ==> c.startIndex == 0) && (c.isRightOutNil ==> c.startIndex + |c.outs| == c.size)
  }

  /** Accepted data that is flush holds every out of the shard. */
  lemma {:induction false} AcceptedFlush(c: ClipTreeData, all: seq<OutState>, shard: nat)
    requires all != [] && Sorted(all) && c.size == |all| && Accepts(c, Root(OutHashes(all), 0, |all|), shard)
      && Flush(c)
    ensures HasNeighbours(c) && Own(c) == OfShard(all, shard)
  {
    hide OfShard, Accepts;
    AcceptedComplete(c, all, shard);
  }

  /** Every generated slim block is flush. */
  lemma {:induction false} SlimFlush(b: SlimBlock, outs: seq<OutState>, shard: nat)
    requires SlimFor(b, outs, shard)
    ensures Flush(b.clipTreeData)
  {
    hide LeafPath, Before;
    var a, z := Before(outs, shard), Before(outs, shard + 1);
    assert Between(b.clipTreeData, outs, a, z);
  }

  /**
    The slim blocks of an empty block: one for each shard, without outs, at no place, between no neighbours. They are
    integral and hold nothing, but no tree is rebuilt from them, and they are not flush.
   */
  method EmptyBlocks(shardCount: nat, outs: seq<OutState>, root: MerkleHash) returns (blocks: seq<SlimBlock>)
    ensures |blocks| == shardCount && forall s: nat :: s < shardCount ==>
      var c := blocks[s].clipTreeData;
      && blocks[s].toShard == s && c.size == 0 && c.startIndex == -1 && |c.outs| == 0
      && c.isLeftOutNil && c.isRightOutNil
      && |c.leftMerklePath.hashes| == |c.leftMerklePath.proofPath| == 0
      && |c.rightMerklePath.hashes| == |c.rightMerklePath.proofPath| == 0
      && Integral(c, s) && HasNeighbours(c) && Own(c) == [] && !Flush(c) && !Accepts(c, root, s)
  {
    var r := GetSlimBlocksFromBlock(true, outs, shardCount);
    blocks := r.slimBlocks;
    forall s: nat | s < shardCount ensures OfNothing(blocks[s], s) {}
  }

  lemma {:induction false} SliceOwn(c: ClipTreeData, all: seq<OutState>, shard: nat)
    requires Sorted(all) && 0 <= c.startIndex < c.startIndex + |c.outs| <= |all|
      && c.outs == all[c.startIndex..c.startIndex + |c.outs|]
    requires Integral(c, shard)
    ensures HasNeighbours(c) && (Own(c) == OfShard(all, shard) <==> HonestEnds(c, all, shard))
  {
    hide OfShard;
    assert c.outs[0] == all[c.startIndex] && c.outs[|c.outs| - 1] == all[c.startIndex + |c.outs| - 1];
    var a := c.startIndex + (if c.isLeftOutNil then 0 else 1);
    var z := c.startIndex + |c.outs| - (if c.isRightOutNil then 0 else 1);
    forall i | a <= i < z ensures all[i].shard == shard { assert all[i] == c.outs[i - c.startIndex]; }
    SliceOfSlice(all, c.startIndex, |c.outs|, a - c.startIndex, z - c.startIndex);
    assert Own(c) == all[a..z];
    OfShardAround(all, shard, a, z);
    assert !c.isLeftOutNil ==> forall i :: 0 <= i < a ==> all[i].shard < shard;
    assert !c.isRightOutNil ==> forall i :: z <= i < |all| ==> all[i].shard > shard;
  }

  lemma {:induction false} SliceOfSlice(all: seq<OutState>, start: nat, n: nat, lo: nat, hi: nat)
    requires start + n <= |all| && lo <= hi <= n
    ensures all[start..start + n][lo..hi] == all[start + lo..start + hi]
  {
    var x, y := all[start..start + n], all[start + lo..start + hi];
    assert forall i :: 0 <= i < hi - lo ==> x[lo..hi][i] == x[lo + i] == y[i];
  }

  /** A run of one shard is all of that shard exactly when nothing around it is of the shard. */
  lemma {:induction false} OfShardAround(all: seq<OutState>, shard: nat, a: nat, z: nat)
    requires a <= z <= |all| && forall i :: a <= i < z ==> all[i].shard == shard
    ensures all[a..z] == OfShard(all, shard) <==>
      (forall i :: 0 <= i < a ==> all[i].shard != shard) && (forall i :: z <= i < |all| ==> all[i].shard != shard)
  {
    hide OfShard;
    var x, y, w := all[..a], all[a..z], all[z..];
    assert all == (x + y) + w && forall i :: 0 <= i < |y| ==> y[i].shard == shard;
    OfShardParts(x, y, w, shard);
    OfShardEmpty(x, shard);
    OfShardEmpty(w, shard);
    assert (forall i :: 0 <= i < a ==> x[i] == all[i]) && (forall i :: z <= i < |all| ==> w[i - z] == all[i]);
  }

  lemma {:induction false} OfShardParts(x: seq<OutState>, y: seq<OutState>, w: seq<OutState>, shard: nat)
    requires forall i :: 0 <= i < |y| ==> y[i].shard == shard
    ensures OfShard(x + y + w, shard) == OfShard(x, shard) + y + OfShard(w, shard)
    ensures OfShard(x + y + w, shard) == y <==> OfShard(x, shard) == [] && OfShard(w, shard) == []
  {
    hide OfShard;
    OfShardAll(y, shard);
    OfShardCat(x, y, shard);
    OfShardCat(x + y, w, shard);
  }

  lemma {:induction false} OfShardEmpty(outs: seq<OutState>, shard: nat)
    ensures OfShard(outs, shard) == [] <==> forall i :: 0 <= i < |outs| ==> outs[i].shard != shard
  {
    if outs == [] {
    } else {
      OfShardEmpty(outs[1..], shard);
      assert outs == [outs[0]] + outs[1..];
      assert forall i :: 0 <= i < |outs| - 1 ==> outs[1..][i] == outs[i + 1];
      assert forall i :: 0 < i < |outs| ==> outs[i] == outs[1..][i - 1];
    }
  }

  /**
    Two outs of shard 0, of which only the second is sent, as if there were nothing before it: accepted, though not
    flush.
   */
  lemma {:induction false} AcceptedIncomplete(a: OutState, b: OutState, all: seq<OutState>, c: ClipTreeData)
    requires a.shard == b.shard == 0 && all == [a, b]
    requires c == ClipTreeData(2, 1, true, true, [b], LeafPath(OutHashes(all), 1), LeafPath(OutHashes(all), 1))
    ensures Accepts(c, Root(OutHashes(all), 0, 2), 0) && !Flush(c) && HasNeighbours(c) && Own(c) != OfShard(all, 0)
  {
    hide Cut, Root, Trimmed, OfShard, LeafPath, Fed, Assemble;
    var s, k := OutHashes(all), ClipOf(c);
    PathNotEmpty(s, 1);
    assert k.leaves == s[1..2];
    CutPartOf(k, s);
    ClipSound(k, s);
    OfShardAll(all, 0);
    assert Own(c) == [b];
  }
}
