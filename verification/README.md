# MultiVAC: Merkle trees, RLP, address book and relay requests, verified

A Dafny model of the parts of the MultiVAC node that keep the most state in step: the Merkle trees and
their clients, the RLP codec in its Go and C++ versions, the peer address manager, and the
chains of requests for announced messages. `dafny verify dfyconfig.toml` checks everything.

**Merkle trees.** A hash is a free datatype: an `Atom` of some data, or a `Node` of two hashes. A tree is a
value: a `Tip` with a hash, or a `Fork` of two trees. A tip may carry the root of another tree, and hooking that
tree there makes the tip its nodes, so that one tree can have several layers. A top layer is a row of trees
put together by `Assemble`, which splits at the largest power of two below the size, as in section 2.1 of
RFC 6962. The assumption that no two nodes share a hash (model/merkle/common.go:102) is not postulated: it
is proved for every tree whose tips do not occur in one another (`MerklePaths.HashInjective`), and the batch
build is exact if and only if it holds. Nodes are records in a store, and a node is named by the way down to it
(`Place`). `PlacedTrees.Partly` says that the nodes present are nodes of a tree, with the hashes they have
there. The implementations are classes over such stores: the full tree, built at once or by appending, updated
and hooked in any order; the delta tree, which knows only a root and the paths it is shown; the
clipped tree, rebuilt from a run of leaves and two paths; and the full tree on disk, whose nodes are detached
snapshots of records behind a transaction overlay. Each keeps a ghost `content` that its contracts speak of.

**RLP.** `RlpSpec.Encode` is the recursive encoding of Appendix B of the Ethereum Yellow Paper and
`RlpParse.Parse` the recursive strict decoder. The two-pass Go encoder, its readers, the
`Stream` with its stack of open lists, the writers and decoders of typed values, the raw splitter, and the
C++ stream with its in-place headers and its cached index are all proved against these two. `RlpExact` says which bytes
that makes of particular values, and exactly which items are read.

**Address manager.** `AddrBook` holds the accounts on values, `AddrMgr` the objects that share them. `AddrFile` works the
accounts out from the keys in a saved file, and `AddrSave` saves and loads.

**Relay.** A server is a state machine over announcements, timers, arrivals and cache losses; results are
about every run.

Where the code and its comments disagree, or the code does not do what it is for, the model follows the code:

- The comment on `Encode` (base/rlp/encode.go:82-83) says that booleans and signed integers are not
  supported; the code supports both. A signed integer is written as a sign byte and a magnitude but read
  back into the width of its type, so it survives exactly when its magnitude leaves a byte to spare
  (`RlpTyped.IntRestored`). Before that it has to be written: size, sign and magnitude are put together in a buffer
  of nine bytes (base/rlp/encode.go:166, 428), so that writing panics exactly from 2^56 on
  (`RlpEncode.EncBuf.WriteInt`, and `RlpEncode.TooLongForBuffer` for that number).
- An optional pointer survives exactly when it is not to an empty value, and any other nil pointer does not
  survive (`RlpTyped.RoundTrip`). A pointer to a big integer is handled as such before the `nil` tag is looked at, so
  that nil comes back as zero. `RlpTyped.LostValues` has one value of each kind that is lost.
- Reading an array of one byte from a bare zero ignores an error and leaves the zero to be read again
  (`RlpStream.Stream.DecodeByteArray`, `RlpStream.ZeroReadTwice`). Types with such arrays are kept out of the round trip.
- `RefreshMerklePath` gives a path that leads to the present root exactly when the leaf itself has
  not been updated, because it keeps the leaf's old hash. `DeltaTree.RefreshOfUpdated` is one that was.
- Appending no leaves to a delta tree records the last leaf's present hash, under which it is found
  exactly when it had not been updated. `DeltaTree.EmptyAppendLosesLast` shows the other case, and the nil
  dereference of the next append.
- The comment on `expireNew` (p2p/addrmgr/addrmanager.go:236-243) has the oldest address go only when no bad
  ones do; the code expires both.
- A file of peers that is refused is said to be as good as none (p2p/addrmgr/addrmanager.go:414-415), but `reset` leaves the
  counters as they are. They are right exactly if the file could not be read or the first key it names is not among
  its addresses. A file that is accepted leaves the accounts in order exactly if it is orderly, of which the checks made on
  loading see only a part (`AddrSave.LoadPeers`, and `AddrSave.BadFiles` for one file of each kind). The time an address was
  last seen is saved but not loaded: it counts as seen when it is loaded (model/wire/netaddress.go:62-64).
- Indexing a list in C++ caches the last item. When an access throws, what could not be read stays in the cache, and from then on
  the last good item is not found, until an earlier one is accessed (`RlpCpp.RLP.Index`, `RlpCpp.AfterException`).
- The comment on `handleRelayHashMsg` (p2p/connection/connserver.go:1472-1473) has an announcement of a message that is being
  requested ignored; the code keeps the peer for two requests and asks it next (`Relay.AnnounceAbsorbed`).
- A slim block's flags for missing neighbours are not compared with the ends of the block. Accepted data is
  always a run of the block's outs; it is all of the shard's outs exactly when the flags are honest
  (`SlimBlocks.AcceptedComplete`). That the data is flush with the ends it claims can be checked on the data alone, holds of
  every generated slim block and is enough (`SlimBlocks.SlimFlush`, `SlimBlocks.AcceptedFlush`).
  `SlimBlocks.AcceptedIncomplete` is accepted without being flush or complete.

## Model

| member | source | states |
|---|---|---|
| `MerklePaths.HashInjective` | model/merkle/common.go:102 | Distinct nodes of a tree, of any shape, whose tips do not occur in one another have distinct hashes: what the Merkle code assumes, proved. |
| `MerklePaths.RowApart` | model/merkle/common.go:102 | Leaves that do not occur in one another, distinct atoms in particular, make such a tree. |
| `Trees.AssembledRoot` | model/merkle/utils.go:31-42 | The root of a row of trees is the recursive root of the list of their roots: hooking does not show in it. |
| `MerklePaths.Verify` | model/merkle/common.go:118-135 | Succeeds exactly for well-formed paths whose siblings, folded in, give the expected hash; a wrong length and a wrong root are told apart, the latter with the root that came out. |
| `MerklePaths.PathLeads` | model/merkle/common.go:354-378 | Completeness: the path of every node of every tree, in whichever layer, verifies against its root. |
| `MerklePaths.PathSound` | model/merkle/common.go:118-135 | Soundness: a path that starts from a node's hash verifies if and only if it is that node's own path, same siblings on the same sides. |
| `MerkleSpec.HashSides` | model/merkle/utils.go:31-42 | A sibling at position 0 is the left child, one at position 1 the right one. |
| `LastNode.VerifyLastNode` | model/merkle/utils.go:46-62 | Each outcome exactly in its case, for any size: passes exactly the verifying paths of left siblings whose length is the number of one bits of size - 1, in two's complement where that is negative. |
| `LastNode.OnesOfSize` | model/merkle/delta_merkle_tree.go:228-235 | For every size a tree can have, those are the one bits of the number itself. |
| `LastNode.OnesNegative` | model/merkle/delta_merkle_tree.go:228-235 | For a size of zero or less, they are 64 less the one bits of its magnitude. |
| `LastNode.LastNodeSound` | model/merkle/utils.go:46-62 | On a row of that many trees, exactly the path of the last one passes. |
| `Trees.InsertNext` | model/merkle/common.go:155-194 | For every size: a tip joined to the last perfect peak makes the row with one more leaf. |
| `Trees.ShiftLeaf` | model/merkle/common.go:155-194 | For every size: joining a leaf to the last peak leaves every other leaf of the row in its order. |
| `MerkleTrees.MerkleTree.SetNodeHash` | model/merkle/common.go:296-325 | Only the node's hash changes, all its links are as before, and a listening index moves the node from its old to its new hash. |
| `PlacedTrees.RehashExact` | model/merkle/full_merkle_tree.go:125-135 | What the listener does to the index for a hash that is not in it keeps the index exact: every present node under its hash, and nothing else. |
| `PlacedTrees.Updated` | model/merkle/common.go:286-294 | Nodes that fit their children, with one tip changed, are the nodes of the tree with that tip replaced. |
| `MerkleTrees.MerkleTree.UpdateNode` | model/merkle/common.go:286-294 | In a tree of any shape, from a node that was done: the climb leaves every joint fitting its children, other tips as they were, a listening index exact and the recorded last hash on its node. |
| `MerkleTrees.MerkleTree.DepthToReplace` | model/merkle/common.go:163-164 | The number of parents to climb is the number of zero bits below the lowest set bit of the size. |
| `MerkleTrees.MerkleTree.ClimbToPeak` | model/merkle/common.go:163-169 | From the last leaf, for every size and whatever hangs below the leaves, that climb ends at the last perfect peak, where the next leaf has to be joined. |
| `MerkleTrees.MerkleTree.JoinLeaf` | model/merkle/common.go:156-187 | A joint takes the peak's place under its parent, over the peak and the new leaf, and no other record changes. |
| `MerkleTrees.MerkleTree.AppendLeaf` | model/merkle/common.go:155-194 | The row of n trees becomes the row of n + 1, every hash that of the longer row, every old node present where it moved to, with what it stands for. |
| `MerkleTrees.MerkleTree.Append` | model/merkle/common.go:144-198 | An error exactly when the size is unknown, a nil dereference exactly when there is no last leaf to go on from or to end with; otherwise the row grows by the new leaves, what hangs below the others goes along, and only entries that involve a new leaf are new in an index without a listener. |
| `MerkleTrees.MerkleTree.CreateMerkleProof` | model/merkle/common.go:354-378 | The pointers visited give exactly the siblings and sides of the node's path in the content. |
| `FullTree.FullMerkleTree.constructor` | model/merkle/full_merkle_tree.go:21-25 | For every list of leaves the batch build has all nodes of the tree over them and its root, and indexes each under its hash if and only if no two share one. |
| `FullTree.FullMerkleTree.BuildPeaks` | model/merkle/full_merkle_tree.go:40-61 | Joining perfect peaks from the right, by the binary digits of the size, gives the whole tree split at powers of two. |
| `FullTree.FullMerkleTree.BuildPerfectSubtree` | model/merkle/full_merkle_tree.go:67-89 | The recursion by halves gives the subtree of those leaves, linked, and touches nothing built before. |
| `FullTree.FullMerkleTree.Append` | model/merkle/full_merkle_tree.go:113-123 | In any order with updates and hooks: the top layer grows by the new leaves, all that is hooked below the others stays with them, and the invariant of the batch build holds of the result. A nil dereference exactly for no leaves on an empty tree. |
| `PlacedTrees.SameTree` | model/merkle/full_merkle_tree.go:34-89 | Any two complete trees with the same content, however they were made, in memory or on disk, have the same links and hashes node by node. |
| `FullTree.FullMerkleTree.UpdateLeaf` | model/merkle/full_merkle_tree.go:99-110 | Succeeds exactly for the hash of a node present; the leaf with it, in whichever layer, is replaced in the content and nothing else is, with index, root and last leaf exact. Otherwise nothing changes. |
| `FullTree.FullMerkleTree.UpdateMerkleRoot` | model/merkle/full_merkle_tree.go:137-146 | The climb from the last leaf records the root of the content. |
| `FullTree.FullMerkleTree.HookSecondLayerTree` | model/merkle/full_merkle_tree.go:150-177 | Each failure exactly in its case, with nothing changed. Otherwise the content gets the content of the subtree, clipped or not, in the place of the leaf with its root hash; root and last leaf stay, the index has exactly the nodes of both, and appending goes on as before. |
| `FullTree.FullMerkleTree.DeepcopyNode` | model/merkle/full_merkle_tree.go:179-194 | New nodes for exactly the places present below a node, linked and hashed as there, each indexed; no existing record changes. |
| `FullTree.FullMerkleTree.GetMerklePath` | model/merkle/full_merkle_tree.go:197-216 | Succeeds exactly for the hashes of nodes present, in every layer, with the path of that node in the content. |
| `FullTree.FullMerkleTree.GetLastNodeMerklePath` | model/merkle/common.go:201-215 | The path of the last leaf of the top layer, also after that leaf was updated or hooked; none exactly for an empty tree. |
| `Hooking.SharedIsTip` | model/merkle/full_merkle_tree.go:150-177 | When the trees share no hash but the subtree's root, the node it is hooked under has no children that could be lost. |
| `Hooking.HookDone` | model/merkle/full_merkle_tree.go:168-175 | Linking the copies under the leaf gives the tree with the other one in that place: every node with its hash there, the index exact, all old entries as they were. |
| `DeltaTree.DeltaMerkleTree.constructor` | model/merkle/delta_merkle_tree.go:26-34 | A tree of which only the root is known stands for the original tree, of any shape. |
| `DeltaTree.DeltaMerkleTree.BuildPartialTree` | model/merkle/delta_merkle_tree.go:175-203 | The node of any original path, in whichever layer, becomes known, with everything on the way and beside it; known nodes stay where they are, even if they have changed or moved since. |
| `DeltaTree.DeltaMerkleTree.JoinParent` | model/merkle/delta_merkle_tree.go:183-202 | A round puts a node and its new sibling under their parent, which is new, and then the part does not hang in the tree yet, or known, and then all of it does, where that parent is now. |
| `DeltaTree.DeltaMerkleTree.UpdateLeaf` | model/merkle/delta_merkle_tree.go:37-49 | Accepts exactly the paths that lead to the original root, and gives the leaf they start from, in whichever layer, its new hash where it is now; everything else of the tree is as it was. |
| `Trees.MoveLeaf` | model/merkle/delta_merkle_tree.go:152-156 | Where an original node is after appends: below the leaf of the same number, at the same place below it. |
| `DeltaTree.DeltaMerkleTree.GetMerkleRoot` | model/merkle/delta_merkle_tree.go:77-88 | After any mixture of updates in any layer, one size and appends: the root of the full tree as it is now. |
| `DeltaTree.DeltaMerkleTree.SetSizeAndLastNodeMerklePath` | model/merkle/delta_merkle_tree.go:134-149 | Accepts, once and even after updates, exactly what the last-node check passes, which is the path of the last leaf of the top layer; then that leaf is found for appending. |
| `DeltaTree.DeltaMerkleTree.Append` | model/merkle/delta_merkle_tree.go:152-156 | An error exactly while the size is unknown, a nil dereference exactly when the last leaf is not found; else the top layer grows by the new leaves and all that is known stays known. After an empty append the last leaf is found if and only if it was appended or has its original hash. |
| `DeltaTree.DeltaMerkleTree.RefreshMerklePath` | model/merkle/delta_merkle_tree.go:91-131 | Accepts exactly paths to the original root; the result has the present siblings of the leaf, in whichever layer, and leads to the present root if and only if the leaf has still its original hash. |
| `DeltaTree.DeltaMerkleTree.GetShardDataMerklePath` | model/merkle/delta_merkle_tree.go:52-74 | Succeeds, for any hash, exactly if the index finds a node under it and the other hash is what that node has now, with its present path. An original hash finds the node that had it, where it is now, and the hash of the last leaf finds that leaf. |
| `DeltaTree.EmptyAppendLosesLast` | model/merkle/delta_merkle_tree.go:152-156 | For any two different hashes: one leaf, updated, then an empty append, after which the next append dereferences nil. |
| `DeltaTree.RefreshOfUpdated` | model/merkle/delta_merkle_tree.go:99-105 | For any two different hashes: one leaf, updated, whose refreshed path does not lead to the root. |
| `DeltaSpec.AttachKnown` | model/merkle/delta_merkle_tree.go:175-203 | Hanging a new part under a known node keeps the delta invariant: original hashes find their nodes, what is known is closed under parent and sibling, and what has no known children stands for its original subtree. |
| `DeltaOps.AppendKnows` | model/merkle/delta_merkle_tree.go:152-156 | So do appends of leaves that do not occur in the original tree. |
| `DeltaOps.RefreshDone` | model/merkle/delta_merkle_tree.go:99-130 | The old path up to the first known node and that node's present proof make the present path of the leaf. |
| `DeltaOps.RefreshedLeads` | model/merkle/delta_merkle_tree.go:91-131 | The present proof of a node put behind a hash leads to the present root if and only if the hash is the node's. |
| `ClippedTree.NewClippedMerkleTree` | model/merkle/clipped_merkel_tree.go:36-59 | Each outcome exactly in its case, an index out of range for a path that is too short included; on success the tree has all nodes of the clipped tree that leaves and paths determine, and its root. |
| `ClippedTree.ClippedMerkleTreeBuilder.Build` | model/merkle/clipped_merkel_tree.go:61-97 | Fails exactly when the kept leaves do not lie within the tree, panics exactly when a path lacks a hash that is needed; else builds all nodes above kept leaves and their siblings. |
| `ClippedTree.ClippedMerkleTreeBuilder.CreateParentNode` | model/merkle/clipped_merkel_tree.go:107-133 | A half without kept leaves is taken from the path on its side at the depth counted so far, which is the right one, and there is a panic exactly when that is past its end. |
| `ClippedTree.ClippedMerkleTreeBuilder.BuildPerfectSubtree` | model/merkle/clipped_merkel_tree.go:137-165 | The two counters are the heights above the first and the last kept leaf, for every position of the run in the subtree. |
| `ClippedTree.ClipStandsFor` | model/merkle/clipped_merkel_tree.go:61-97 | A clipped tree with the root of a tree without repeated hashes has some of its nodes, every kept leaf among them, each indexed under its hash there. |
| `ClipSpec.CutPartOf` | model/merkle/clipped_merkel_tree.go:61-165 | Completeness: from a true run and the two true paths there is every hash that is needed, and the clipped tree is the full one with some subtrees reduced to their hashes. |
| `ClipSpec.ClipSound` | model/merkle/clipped_merkel_tree.go:61-165 | The root matches if and only if the clipped tree is such a part of the full tree, and then the supplied leaves are exactly that slice. |
| `ClipSpec.TrimmedPath` | model/merkle/clipped_merkel_tree.go:61-165 | Every node of the clipped tree then has the path it has in the full one. |
| `SlimBlocks.GetSlimBlocksFromBlock` | model/wire/msgslimblock.go:71-177 | One slim block per shard, each the run of its outs with a neighbour on either side unless the block ends there, and the paths of both ends; for an empty block one without outs, place, neighbours or paths; an index out of range exactly for a block without outs that is not marked as empty. |
| `SlimBlocks.EmptyBlocks` | model/wire/msgslimblock.go:71-95 | An empty block has for each shard a slim block of size 0 at -1, without outs, neighbours or paths: it is integral and holds nothing, is not flush, and no tree is rebuilt from it. |
| `SlimBlocks.VerifyIntegrity` | model/wire/msgslimblock.go:198-213 | Holds exactly when flagged neighbours are of shards on their side and every other out is of the shard. |
| `SlimBlocks.Rebuild` | model/wire/msgslimblock.go:216-235 | Each outcome exactly in its case, paths that are too short included; succeeds exactly for integral data whose clipped tree has the root, and then the tree gives for every out sent its path in the block's outs tree. |
| `SlimBlocks.SlimAccepted` | model/wire/msgslimblock.go:98-235 | Every generated slim block is integral and is rebuilt against the block's outs root. |
| `SlimBlocks.SlimOwn` | model/wire/msgslimblock.go:98-177 | Without its neighbours, a slim block holds exactly the outs of its shard. |
| `SlimBlocks.SlimBlocksCover` | model/wire/msgslimblock.go:98-177 | The slim blocks' own outs, one shard after the other, are the block's outs. |
| `SlimBlocks.AcceptedSlice` | model/wire/msgslimblock.go:216-235 | Whatever is accepted for a block of that size is a run of the block's own outs at the claimed place. |
| `SlimBlocks.AcceptedComplete` | model/wire/msgslimblock.go:198-235 | Accepted data holds all outs of the shard if and only if a missing neighbour means that no out of the shard lies beyond. |
| `SlimBlocks.AcceptedFlush` | model/wire/msgslimblock.go:198-235 | Accepted data that starts at the block's start where its left neighbour is missing, and ends at its end where the right one is, holds all outs of the shard. |
| `SlimBlocks.SlimFlush` | model/wire/msgslimblock.go:124-141 | Every generated slim block is like that. |
| `SlimBlocks.AcceptedIncomplete` | model/wire/msgslimblock.go:198-235 | For any two outs of shard 0: data with only the second, flagged as having no left neighbour, is not like that, and is accepted. |
| `DiskDb.Db.CommitTransaction` | base/db/db.go:101-115 | The write set goes over the persistent map and is closed. |
| `DiskDb.StartBacked` | base/db/db.go:96-98 | Opening a transaction changes nothing that is read. |
| `DiskDb.CommitBacked` | base/db/db.go:101-115 | Nor does committing one, whatever was recorded. |
| `DiskDb.RehashBacked` | model/merkle/disk_merkle_node_and_map.go:130-135 | Filing a node under a new hash and deleting the old one leaves reads with exactly the new one, although deletion bypasses the write set. |
| `DiskDb.RefileBacked` | model/merkle/disk_merkle_node_and_map.go:93-99 | Filing a saved node once more under the hash of its record leaves reads with that entry and all others, although the write set drops the old entry first. |
| `DiskTree.DiskNodes.Get` | model/merkle/disk_merkle_node_and_map.go:121-128 | Finds a node exactly for the indexed hashes, as a current snapshot. |
| `DiskTree.DiskNodes.JoinLeaf` | model/merkle/common.go:156-187 | With detached snapshots, some stale by then, the records after a join are those of the pointer tree. |
| `DiskTree.DiskNodes.SetNodeHash` | model/merkle/common.go:296-325 | Record, index and last hash change as in memory, in or out of a transaction; that the left child is told by its hash makes no difference. |
| `DiskTree.DiskNodes.UpdateNode` | model/merkle/common.go:286-294 | The climb over snapshots read one by one settles the same tree as in memory. |
| `DiskFull.DiskMerkleTree.Append` | model/merkle/full_merkle_tree.go:113-123 | In any order with updates, hooks, transactions and commits: what is read back has the top layer grown by the new leaves, as in memory. |
| `DiskFull.DiskMerkleTree.UpdateLeaf` | model/merkle/full_merkle_tree.go:99-110 | Succeeds exactly for the hash of a node present; what is read back is the content with that leaf, in whichever layer, replaced. |
| `DiskFull.DiskMerkleTree.HookSecondLayerTree` | model/merkle/full_merkle_tree.go:150-177 | Each failure exactly in its case, with nothing changed; else what is read back is the content with the subtree's in the place of the leaf, every node indexed, root and last leaf as before. |
| `DiskFull.DiskMerkleTree.DeepcopyNode` | model/merkle/full_merkle_tree.go:179-194 | From a tree in memory, records for exactly the places present below a node, linked, hashed and indexed, and a current snapshot of the topmost; no other record changes. |
| `DiskFull.DiskMerkleTree.GetMerklePath` | model/merkle/full_merkle_tree.go:197-216 | Succeeds exactly for the hashes of nodes present, with the path of that node in the content: the path the tree in memory gives. |
| `DiskFull.DiskMerkleTree.SiblingOf` | model/merkle/disk_merkle_node_and_map.go:195-201 | Telling snapshots apart by their hashes gives the right side and sibling at every node. |
| `DiskFull.DiskMerkleTree.UpdateMerkleRoot` | model/merkle/full_merkle_tree.go:137-146 | Reading up from the last leaf gives the root of the content. |
| `DiskFull.DiskMerkleTree.CommitTransaction` | base/db/db.go:101-115 | The tree read back is the same before and after. |
| `RlpSpec.BigEndianLength` | base/rlp/encode.go:677-683 | A number takes at most k bytes if and only if it is below 256 to the k. |
| `RlpSpec.BigEndianOfValue` | base/rlp/decode.go:1020-1044 | Every byte string without a leading zero is the minimal big endian form of its value. |
| `RlpParse.HeadCanonical` | base/rlp/decode.go:958-1018 | A header that is accepted is byte for byte the one the encoder writes for that size. |
| `RlpParse.HeaderRead` | base/rlp/encode.go:154-162 | Every header the encoder writes, whatever follows it, is read back as that kind and size. |
| `RlpParse.CanonicalBijection` | base/rlp/decode.go:533-555 | Strict decoding accepts bytes with a result if and only if the bytes are the encoding of that result. |
| `RlpParse.PrefixFree` | base/rlp/encode.go:84-97 | No encoding is a proper prefix of another, so sequences of values are read in one way only. |
| `RlpRaw.SplitEncoding` | base/rlp/raw.go:39-45 | Input that starts with an encoding is split into that value's kind, its content and the rest. |
| `RlpRaw.SplitExactly` | base/rlp/raw.go:39-137 | Input is split into a kind, a content and a rest if and only if it is the content with the one header it can have, and the rest. |
| `RlpRaw.CountValues` | base/rlp/raw.go:74-84 | Counts the pieces if the input can be cut into pieces to its end, and fails otherwise. |
| `RlpRaw.PiecesOfEncodings` | base/rlp/raw.go:74-156 | Any concatenation of encodings is cut exactly between them. |
| `RlpRaw.SplitAgreesWithParse` | base/rlp/raw.go:39-45 | Where decoding succeeds so does splitting, and at the same place. |
| `RlpFlat.FlatEncode` | base/rlp/encode.go:215-250 | For every nesting, the string data with the deferred headers put in at their offsets is the recursive encoding. |
| `RlpFlat.AheadFlat` | base/rlp/encode.go:234-250 | Putting the headers in from front to back or from back to front gives the same bytes. |
| `RlpEncode.IntSize` | base/rlp/encode.go:677-683 | The number of minimal big endian bytes, but one for zero. |
| `RlpEncode.PutIntBigEndian` | base/rlp/encode.go:619-674 | What the case distinction on ranges writes is the minimal big endian form, for all 64-bit numbers. |
| `RlpEncode.PutIntAt` | base/rlp/encode.go:619-674 | Those bytes, from an offset of a buffer on, and nothing else of it; a panic exactly when the buffer ends before they do. |
| `RlpEncode.PutHeadIsHeader` | base/rlp/encode.go:154-162 | The header written is the specified one for every size that fits 64 bits. |
| `RlpEncode.EncBuf.EncodeString` | base/rlp/encode.go:194-213 | Adds exactly the encoding of the string to the string data; its header always fits the nine bytes. |
| `RlpEncode.EncBuf.WriteUint` | base/rlp/encode.go:396-410 | Adds the encoding of the number's big endian bytes as a string, for all 64-bit numbers. |
| `RlpEncode.EncBuf.WriteInt` | base/rlp/encode.go:413-438 | Panics if and only if the magnitude takes more than seven bytes; else adds the encoding of a sign byte and magnitude as a string, or of the empty string for zero. |
| `RlpEncode.TooLongForBuffer` | base/rlp/encode.go:166-166 | 2^56, which is a 64-bit signed integer, is not written. |
| `RlpEncode.EncBuf.ListEnd` | base/rlp/encode.go:221-228 | The recorded size is the payload's, headers inside it included, and the header counter grows by exactly this list's header. |
| `RlpEncode.EncBuf.Write` | base/rlp/encode.go:541-577 | After an item of any nesting the buffer has its string data and headers, and the size is exact. |
| `RlpEncode.EncBuf.WriteTyped` | base/rlp/encode.go:349-615 | For every type and value: panics if and only if some signed integer in it does; else the buffer has the string data and headers of the item the value is written as, nil pointers included, and the size is exact. |
| `RlpEncode.EncBuf.ToBytes` | base/rlp/encode.go:234-250 | The output array has exactly the announced size, no write is out of range, and it holds the encoding. |
| `RlpEncode.EncBuf.ToWriter` | base/rlp/encode.go:252-274 | The pieces written are the encoding. |
| `RlpEncode.EncReader.Next` | base/rlp/encode.go:310-341 | The next piece is never empty and, with what is then left, is what was left before; there is none exactly at the end. |
| `RlpEncode.EncReader.Read` | base/rlp/encode.go:285-306 | Under any sequence of buffer sizes, the bytes read are the next bytes of the encoding, as many as fit, and the end is told exactly when they run out. |
| `RlpEncode.EncodeToBytes` | base/rlp/encode.go:101-109 | The bytes are the recursive encoding of the item. |
| `RlpEncode.EncodeToReader` | base/rlp/encode.go:116-123 | The size told is the number of bytes there are to read. |
| `RlpStreamState.MoveSound` | base/rlp/decode.go:1106-1124 | Reading what the innermost list allows keeps every open list within the one around it and within the limit, so that no subtraction wraps. |
| `RlpStreamState.PushSound` | base/rlp/decode.go:813-825 | Entering a list that is within its surroundings keeps the accounts; what can be seen inside is exactly its bytes. |
| `RlpStreamState.PopSound` | base/rlp/decode.go:829-844 | Leaving a list that was read keeps them too. |
| `RlpStream.Stream.WillRead` | base/rlp/decode.go:1106-1124 | Fails exactly when the innermost list, or else the limit, has too few bytes left, and tells which. |
| `RlpStream.Stream.KindOf` | base/rlp/decode.go:925-956 | Succeeds exactly when a header and the value it announces are there; the end of the list is told exactly there. |
| `RlpStream.Stream.Bytes` | base/rlp/decode.go:673-694 | Succeeds exactly when the next value is a canonical string, and consumes exactly its encoding. |
| `RlpStream.Stream.ListStart` | base/rlp/decode.go:813-825 | Succeeds exactly when the next value is a list that fits, and enters it. |
| `RlpStream.Stream.ListEnd` | base/rlp/decode.go:829-844 | Succeeds exactly at the end of an open list, which is then booked to the list around it. |
| `RlpStream.Stream.Uint` | base/rlp/decode.go:728-759 | Succeeds exactly for the canonical encodings of numbers of that width, with that number. |
| `RlpStream.Stream.Int` | base/rlp/decode.go:761-790 | Succeeds exactly for what the sign rules of that width accept, with that number. |
| `RlpStream.Stream.Raw` | base/rlp/decode.go:697-719 | The bytes returned, header made anew, are exactly the bytes consumed. |
| `RlpStream.Stream.DecodeInterface` | base/rlp/decode.go:533-555 | Succeeds exactly where strict decoding does, with the same value, consuming the same bytes. |
| `RlpStream.DecodeBytes` | base/rlp/decode.go:146-156 | Gives `x` if and only if the input is the encoding of `x` and nothing more. |
| `RlpStream.Stream.DecodeTyped` | base/rlp/decode.go:205-529 | For every type: the stream-driven decoder succeeds exactly where strict decoding gives an item that stands for a value of the type, with that value, and consumes exactly its bytes; the end of the list is told exactly there. |
| `RlpStream.Stream.DecodeElems` | base/rlp/decode.go:360-387 | The loop that ends at the end of the list reads all of its values or fails exactly when one of them is not of the type. |
| `RlpStream.Stream.DecodeStruct` | base/rlp/decode.go:454-474 | Succeeds exactly for a list of as many values as there are fields, each of its field's type. |
| `RlpStream.Stream.DecodeOptional` | base/rlp/decode.go:502-529 | An empty string or list is nil and is passed over; anything else is read as what it is. |
| `RlpStream.Stream.DecodeByteArray` | base/rlp/decode.go:417-452 | Succeeds exactly for strings of that length, which are consumed, except that an array of one byte takes a bare zero and leaves it as the next value. |
| `RlpStream.ZeroReadTwice` | base/rlp/decode.go:431-432 | Wherever that happens, reading a number next fails, whatever follows. |
| `RlpStream.DecodeTypedBytes` | base/rlp/decode.go:146-156 | Gives exactly the value the input stands for, if it stands for one and nothing follows. |
| `RlpStream.ThereAndBack` | base/rlp/encode.go:101-109 | A typed value through the encoder's buffer and the stream decoder: it comes out again if and only if it is restorable, and there are no bytes if and only if writing panics. |
| `RlpTyped.IntRestored` | base/rlp/decode.go:1046-1078 | A signed integer of w bytes comes back if and only if its magnitude is below 256 to the (w - 1). |
| `RlpTyped.RoundTrip` | base/rlp/decode.go:205-529 | For every type and value: reading what was written gives the value if and only if its integers have a byte to spare, no optional pointer is to an empty value and no other pointer is nil. |
| `RlpTyped.NilIsZero` | base/rlp/encode.go:579-607 | A nil pointer is written as the zero value of its target, but for structures and arrays, of which it is an empty one. |
| `RlpExact.ReadExactly` | base/rlp/decode.go:205-529 | For every type and item: it is read as a value if and only if that value is restorable and written as this item, unless something in it is read leniently. |
| `RlpExact.LenientReads` | base/rlp/decode.go:502-529 | What is: a bare byte is that signed number, if it is not zero, and an empty string or list is a nil pointer, whatever its type. |
| `RlpExact.MeaningExact` | base/rlp/decode.go:146-158 | Bytes stand for a value if and only if they are the encoding of an item that is read as it, with nothing before or after. |
| `RlpExact.PartsInOrder` | base/rlp/encode.go:533-577 | Slices and structures are written as their parts in order, and pointers as what they point to. |
| `RlpExact.HeaderBytes` | base/rlp/encode.go:143-164 | The bytes of every header of less than 64K. |
| `RlpExact.KnownItems` | base/rlp/encode_test.go:152-180 | The bytes of some items, as the tests have them. |
| `RlpExact.KnownValues` | base/rlp/encode_test.go:76-118 | The strings some booleans and integers are written as. |
| `RlpExact.ScalarBytes` | base/rlp/encode.go:413-447 | The encoder makes 01 of true, 80 of false, 82 01 05 of 5 and 82 80 05 of -5. |
| `RlpExact.NilBytes` | base/rlp/encode_test.go:250-262 | It makes C0 of a nil pointer to any slice or structure, and 80 of one to a number or bytes. |
| `RlpTyped.TypedRoundTrip` | base/rlp/encode.go:349-615 | The same from value to bytes and back. |
| `RlpTyped.RestorableWritable` | base/rlp/encode.go:413-438 | No restorable value is too long for the buffer. |
| `RlpTyped.LostValues` | base/rlp/decode.go:293-309 | 1 in one signed byte is not read back, an optional pointer to 0 comes back as nil, and a nil big integer as 0. |
| `RlpCpp.PushInt` | mvvm/rlp/RLP.h:438-444 | The bytes filled in from the last to the first are the minimal big endian form. |
| `RlpCpp.AnnounceAddAll` | mvvm/rlp/RLP.cpp:274-282 | Announcing a list of n items and adding them is the same as adding the list. |
| `RlpCpp.RLPStream.NoteAppended` | mvvm/rlp/RLP.cpp:235-272 | For any number of items: throws if and only if the innermost open list lacks fewer; else they close every list they complete, several at once if need be, with each header put in at the right place. |
| `RlpCpp.RLPStream.AppendRaw` | mvvm/rlp/RLP.cpp:228-233 | The same for items that are encoded already. |
| `RlpCpp.RLPStream.Append` | mvvm/rlp/RLP.cpp:294-313 | Adds a string to the innermost open list. |
| `RlpCpp.RLPStream.PushCount` | mvvm/rlp/RLP.cpp:340-347 | A long length is written as the number of its bytes on top of the base, then those bytes, and always fits. |
| `RlpCpp.RLPStream.AppendList` | mvvm/rlp/RLP.cpp:274-282 | Opens a list, or for no items adds the empty one, closing what that completes. |
| `RlpCpp.RLPStream.Output` | mvvm/rlp/RLP.h:422-422 | Refused exactly while a list is open; else the encodings of all finished items. |
| `RlpCpp.Rlp` | mvvm/rlp/RLP.h:456-456 | The C++ stream writes for every item the bytes the Go encoder writes. |
| `RlpCpp.Length` | mvvm/rlp/RLP.cpp:157-213 | The length shifted together byte by byte is the big endian number, and each exception is thrown exactly in its case. |
| `RlpCpp.SizeAgrees` | mvvm/rlp/RLP.cpp:157-213 | On any data the C++ header reader, with its own checks in their order, finds a first item if and only if the Go one does, and ends it at the same place. |
| `RlpCpp.ErrorsAgree` | mvvm/rlp/RLP.cpp:36-213 | They also agree on whether data is too short or bad, except for a lone byte 81. |
| `RlpCpp.ScanAgrees` | mvvm/rlp/RLP.cpp:215-226 | A scan from the start gets through exactly where the Go code cuts all of the data into values, and finds the same ones. |
| `RlpCpp.RLP.Items` | mvvm/rlp/RLP.cpp:215-226 | The number of items a scan finds, or the exception of the first bad one. |
| `RlpCpp.RLP.Index` | mvvm/rlp/RLP.cpp:83-104 | On any payload and after any accesses, whether they threw or not: the item a scan from the start gives, nothing past the end, or the exception of the first bad item. Only the last good item is not found, exactly if the last access threw. |
| `RlpCpp.AfterException` | mvvm/rlp/RLP.cpp:92-103 | In a list of the bytes 01 and B8 the first item is found, the second access throws, and from then on the first throws too. |
| `AddrBook.CountersAddUp` | p2p/addrmgr/addrmanager.go:615-617 | The two counters add up to the number of known addresses. |
| `AddrBook.EachInItsPlace` | p2p/addrmgr/addrmanager.go:169-275 | An untried address is in 1 to 8 new buckets, as many as it has references, and in no tried list; a tried one is in no new bucket and in exactly one place of one tried list. |
| `AddrBook.Bounds` | p2p/addrmgr/addrmanager.go:108-132 | There are 1024 new buckets of at most 65 addresses, and 64 tried lists of at most 256. |
| `AddrBook.EvictSane` | p2p/addrmgr/addrmanager.go:913-942 | Trading places between a tried address and a new one keeps all accounts, bucket and list bounds included. |
| `AddrBook.PromoteSane` | p2p/addrmgr/addrmanager.go:905-911 | So does filing a new address in a tried list with room. |
| `AddrMgr.AddrManager.constructor` | p2p/addrmgr/addrmanager.go:1090-1101 | An empty manager's accounts are in order. |
| `AddrMgr.KnownAddress.JustTried` | p2p/addrmgr/knownaddress.go:62-75 | An address tried within the last minute is not bad. |
| `AddrMgr.KnownAddress.BadExactly` | p2p/addrmgr/knownaddress.go:62-101 | Any other is bad exactly if it is more than ten minutes ahead, was not seen for thirty days, failed three times and never succeeded, or ten times with no success in a week. |
| `AddrMgr.AddrManager.ExpireNew` | p2p/addrmgr/addrmanager.go:239-275 | Of one bucket go exactly the bad addresses and the oldest of the rest, if there is one; those for which it was the last bucket are forgotten, and the accounts stay in order. |
| `AddrMgr.AddrManager.UpdateAddress` | p2p/addrmgr/addrmanager.go:169-235 | The accounts stay in order and the address is known. It is in the chosen bucket unless it is tried, in eight buckets or out of luck, in which case no bucket changes; that bucket loses others only if it was overfull, and then the bad ones and the oldest; no other bucket changes. |
| `AddrMgr.AddrManager.Referenced` | p2p/addrmgr/addrmanager.go:199-204 | An untried address always has a reference, so that the random number drawn has a range. |
| `AddrMgr.AddrManager.PickTried` | p2p/addrmgr/addrmanager.go:280-291 | The first of the oldest entries. |
| `AddrMgr.AddrManager.Good` | p2p/addrmgr/addrmanager.go:859-943 | No address is forgotten and the accounts stay in order. The address leaves every new bucket for the end of its tried list or, if that is full, for the place of the first of its oldest entries, which goes back to its own bucket or, if that is full, to the first one just freed. That it was in no bucket cannot arise. |
| `AddrMgr.AddrManager.NumAddresses` | p2p/addrmgr/addrmanager.go:615-617 | The number of known addresses. |
| `AddrFile.ImplicitInBuckets` | p2p/addrmgr/addrmanager.go:378-380 | References, tried flags and counters of orderly accounts are all implied by the keys in the buckets and lists. |
| `AddrFile.LoadedSane` | p2p/addrmgr/addrmanager.go:474-520 | What the checks on loading let through is in order if and only if no bucket or list repeats a key, every tried key is in its own list, and bounds are kept. |
| `AddrFile.FirstUnknown` | p2p/addrmgr/addrmanager.go:474-505 | When a key that is not known is met, nothing was filed before if and only if it is the first key of all. |
| `AddrSave.SavePeers` | p2p/addrmgr/addrmanager.go:358-396 | The file has every address once, as it is, the keys of every bucket in some order, and those of every tried list in its order. |
| `AddrSave.DeserializePeers` | p2p/addrmgr/addrmanager.go:435-520 | Accepts a file if and only if its version and addresses can be read and exactly its addresses are filed, each as new or as tried; then the accounts are what follows from the buckets and lists, and the addresses are as the last entry for each says. |
| `AddrSave.LoadPeers` | p2p/addrmgr/addrmanager.go:416-433 | Of any file: what is accepted leaves the accounts in order if and only if it is orderly; what is refused leaves no address, and the accounts in order if and only if nothing had been counted. |
| `AddrSave.SaveThenLoad` | p2p/addrmgr/addrmanager.go:358-520 | What a manager in order saves is loaded with the same accounts, buckets, lists and addresses, but for when these were last seen. |
| `AddrSave.BadFiles` | p2p/addrmgr/addrmanager.go:474-520 | A file that is refused after something was counted, and one that is accepted with a key twice in a bucket. |
| `Relay.NextKeeps` | p2p/connection/connserver.go:1474-1535 | Every event keeps: a message is being requested exactly when one chain for it is live, on a channel of its own, and each absorbed announcement is worth two requests, made or owed. |
| `Relay.AnnounceAsks` | p2p/connection/connserver.go:1474-1489 | A message neither received nor being requested is requested once, from the peer that announces it, and a chain with that peer to be asked once more is started. |
| `Relay.AnnounceAbsorbed` | p2p/connection/connserver.go:1480-1484 | For one being requested nothing is sent, two requests more are left, and the peer is asked next. |
| `Relay.AnnounceIgnored` | p2p/connection/connserver.go:1476-1478 | For one received nothing changes. |
| `Relay.FireAsks` | p2p/connection/connserver.go:1495-1532 | A timer that fires before the message arrived, with requests left, makes one: to the latest peer not asked yet, else to the latest asked once. The chain goes on with what is left. |
| `Relay.FireEnds` | p2p/connection/connserver.go:1523-1533 | With none left, or once the message arrived, it makes none and the chain is over. |
| `Relay.NoRequestsOnceArrived` | p2p/connection/connserver.go:1474-1535 | In every run after a message arrived, and unless it is dropped from the cache, nobody is asked for it again: its chain makes no request, fires at most once more, and no new one starts. |
| `Relay.ArrivalEnds` | p2p/connection/connserver.go:1522-1533 | A message that arrives between two firings ends its chain without a request. |
| `Relay.FireProgress` | p2p/connection/connserver.go:1495-1535 | A firing timer ends its chain or uses up one request, and ends it of itself only when both requests of every announcement were made. |
| `Relay.ChainEnds` | p2p/connection/connserver.go:1495-1535 | In any run without new announcements of a message, its chain fires at most once more than it has requests left, and the requests left go down by one each time. |
| `Relay.AtMostTwoRequests` | p2p/connection/connserver.go:1474-1535 | In every run from the start, no chain asks a peer more than twice per announcement of that peer it absorbed. |
| `Relay.ConnServer.HandleRelayHashMsg` | p2p/connection/connserver.go:1474-1490 | Handling a list of hashes is the run of its announcements, in order. |
| `Relay.ConnServer.HandleRequest` | p2p/connection/connserver.go:1495-1535 | The closure run by a timer is one firing step of the protocol. |

## Left out

- SHA-256 and LevelDB: hashing is a free datatype, the persistent store a map, `Hash`, which hashes 64 zero bytes, the right child and the left one, a constructor.
- Locks, the LRU cache of disk nodes, the buffer pool, reflection and the type cache: operations are sequential, values come with an explicit schema.
- FullTree.FullMerkleTree.UpdateLeaf: only for hashes of leaves; the source would also replace an inner node's hash and leave it unlike its children. A new hash does not occur in the tree, as the Merkle code assumes (model/merkle/common.go:102).
- FullTree.FullMerkleTree.Append: new leaves occur neither in one another nor in the tree, for the same reason.
- FullTree.FullMerkleTree.HookSecondLayerTree: for trees that share no hash but the subtree's root, for the same reason.
- DiskFull.DiskMerkleTree.UpdateLeaf: only for hashes of leaves, and new hashes that do not occur in the tree.
- DiskFull.DiskMerkleTree.HookSecondLayerTree: of trees in memory, which share no hash with the tree but their root.
- DeltaTree.DeltaMerkleTree.UpdateLeaf: paths that lead to the original root are taken to start from a leaf of some layer; a path of an inner node would be accepted by the source.
- DeltaTree.DeltaMerkleTree.RefreshMerklePath: the same.
- DeltaTree.DeltaMerkleTree.SetSizeAndLastNodeMerklePath: for a size that is the number of trees in some top layer of the original tree, as the source assumes of it (model/merkle/utils.go:44-45).
- DeltaTree.DeltaMerkleTree.Append: new leaves do not occur in the original tree, and a recorded last hash finds the last leaf or nothing; the source takes for the last leaf whatever other node has that hash.
- The delta tree's own `GetMerklePath`, `HasNode`, `String`: short readers of the same nodes.
- SlimBlocks.GetSlimBlocksFromBlock: for outs that are pairwise different; the fields that are only passed on are left out.
- The byte format of disk records, reading the size and the root back from disk at start-up, and disk errors.
- RLP streams without an input limit, writers that fail, custom encoders, `RawValue`, negative big integers, the `tail` tag, and big integers in the C++ stream.
- RlpStream.Stream.DecodeTyped: for types without arrays of one byte; what those do is stated of DecodeByteArray.
- The choice of an address to connect to, local addresses, the source of an address, the JSON format and parts of a second. Clocks, bucket choice, random numbers, and what key an address has that was read from text, are parameters.
- AddrSave.DeserializePeers: the source address of an entry, which has to be readable as well, is left out.
- AddrSave.LoadPeers: into a manager that knows no address yet, as at the start.
- AddrMgr.AddrManager.UpdateAddress: the bucket, the random draw and whether the services are new are arbitrary arguments.
- Relay.ConnServer.HandleRelayHashMsg: each handler step is atomic, and a sender blocked on a full channel is taken to wait.
- Consensus, the VM and its WASM runtime, wire messages other than slim blocks, networking, RPC, configuration and logging.
