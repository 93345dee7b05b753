# Verified models of Merkle stores, header chains, payment proofs and peer authentication

The project models five components of the repository and proves what they promise.

**Merkle subtrees** (`Base`, `Merkle`, `MerkleStore`, `MerkleProof`, `Composition`, `Subtree`, `Codec`,
`SubtreeWire`, `Inpoints`, `Meta`). The Merkle tree with the duplicate-last rule is defined level by level. The
zero-padded flat array, its parallel filling, the proofs read from it by index arithmetic and the proof glued from a
subtree and a top tree are compared with that definition. `Subtree` is a class with a cached root, running totals
and a lazy index. Its wire format and the metadata format are self-delimiting encodings that are exact both ways.

**The header chain** (`ChainWork`, `LittleEndian`, `Chain`, `ChainSteps`, `Walks`, `HeaderFiles`, `Persistence`,
`Reload`, `ChainRuns`, `ChainManager`). The state is the main chain by height, all known headers by hash, the tip, and the
header files. `Chain` and `ChainSteps` say what each step does to the state as a value. `ChainManager` is the class
that updates its fields in place. `ChainRuns` covers whole runs: genesis, announced blocks at any height, syncs from
any remote node, and restarts.

**BUMP paths and SPV** (`Bump`, `Inclusion`, `Spv`). Evaluation of Merkle paths with missing siblings, which of their
leaves a block's root binds, the ancestor search, and the whole verification of a BEEF.

**Authentication** (`Sessions`, `Peers`, `Handshake`, `Agreement`, `Certification`, `Listings`, `AuthPeer`). The
session table, the message handlers of BRC-31, and any number of peers over a network that loses, repeats, reorders
and misdelivers messages and may change every field of a signed message, but cannot sign. Requests, which carry no
signature, arrive as sent.

**Output allocation** (`OutputAllocator`). Which payment outputs go to which message recipient.

## Conventions

- A hash is 32 bytes. The parent hash and the header hash are parameters. No hash of 64 bytes to 32 is injective, so
  binding results say "equal, or these two different inputs have one hash", with the colliding pairs computed.
- `NeverZero` says that a parent hash is never the all-zero hash. It is a hypothesis only where the zero hash is
  taken for "no node".
- Integers are unbounded. Fees, sizes, satoshi sums and offsets wrap at 2^64 explicitly. Block heights are not wrapped.
- The remote header endpoint is a function of the request number and the hash. `WalkBack` needs its answers to be
  parent-linked, newest first, with a ghost measure that falls from each block to its parent, in order to terminate.
  `SyncExact` and `ChainRuns` take whatever headers were fetched.
- `rank` in `Spv` is the same kind of measure for transactions. The source says in a comment that the graph is
  acyclic.
- `confirms` and `blocks` in `Spv` are the root service and the chain it speaks for; `Trusted` says that only roots of
  blocks are confirmed. A BUMP with more or fewer levels than the block's tree is covered too: `Placed` says what
  it proves.
- Signatures are ideal: a signature is the tuple of signer, counterparty, key ID and data. Nonces are fresh, not
  empty, and have no spaces.
- Session objects are shared by reference in the source. Here they are values, and a write to a stored session's
  fields is a write to the table.

## Where a promise fails

- `Subtree.RemoveNodeAtIndex` does not shift later index entries; `IndexAfterRemoval` gives the exact condition.
- `Subtree.ReplaceRootNode` leaves the fee total alone and only adds the size; `ReplacedTotals` gives the condition.
  On an empty subtree an index that is already built goes wrong, as it does in `AddCoinbaseNode`.
- A zero leaf hash is taken for a missing node (`ZeroLeafIsTakenAsMissing`); `StoreRootExact` says that this is the
  only way in which the store's root goes wrong.
- SPV accepts a mined ancestor whose BUMP leaf no flagged path reads, and nothing binds that leaf to the block
  (`UnflaggedAncestorPasses`, `UnreadLeafIsNotProven`). Nor does it compare the number of levels of a BUMP with the
  block: with too few an inner node passes for a transaction (`ShortPathPasses`), with too many anything that a
  transaction id is hashed from (`LongPathPasses`). `AncestorIsInBlock` says what is proven: a leaf that is flagged as a
  transaction, or read for one, in a BUMP with as many levels as the block's tree.
- Satoshi sums wrap, so outputs of more than 2^64 pass with small inputs (`OutputsCanWrap`); `ValidateSatoshisSum` gives the
  exact condition.
- A root, totals or nodes read from bytes are not checked, and an index built before stays (`RunRoot`, `RunTotals`,
  `RunIndex`).
- The glued coinbase proof is right exactly when the last subtree is over half full (`CompositionExact`).
- `addBlockToChain` trusts the announced height (`WrongHeightBreaks`, `AnnouncedExact`).
- `SyncFromRemoteTip` does not look at the links of the headers it fetched (`UnlinkedBreaks`, `SyncExact`).
- `SyncFromRemoteTip` imports a branch without comparing work (`SyncRaisesWorkIff`, `SyncCanLowerWork`).
- Header files are not truncated; after the tip has fallen, loading brings back what was above it
  (`StaleRecordsComeBack`, `EveryRunReloads`, `TipCanFall`), and the result is sound exactly when the records are one
  chain (`RestartIsSoundIff`).
- `UpdateSession` removes under the new key only (`UpdateExact`).
- The peer that answers a handshake is not compared with the one that was asked for (`TargetIsNotCompared`), and its
  session stays listed under the key of the one that was (`OtherPeerIsListed`); `RunExactIff` gives the exact condition.
- The sender of certificates is not compared with the session's peer, so a peer that was never certified can end up
  authenticated (`UncertifiedPeerIsAuthenticated`); `RunCertifiedIff` gives the exact condition.
- Nor is the sender of a general message (`SenderIsNotCompared`); the senders accepted on an initiator's session are
  exactly the peers that answered its request (`AcceptedIsAuthentic`, `EveryAnswererIsAccepted`).
- Metadata with an empty parent list can be written once but not again after reading (`WriteThenRead`).
- Outputs are marked used by output index, so an untagged output that shares its index with a tagged one is not
  handed out (`RemainingExact`, `SharedIndexFails`); `SharingIsTheOnlyLoss` gives the exact condition.
- One output index can go to two recipients (`SharedTagGoesToBoth`); `IndexFairIff` gives the exact condition.

## Model

| member | source | states |
|---|---|---|
| Powers.RoundingFunctionsAgree | packages/sdk/go-subtree/power_of_two.go:9-45 | the two rounding functions agree and give the least power of two not below n |
| Powers.PowersOfTwo | packages/sdk/go-subtree/power_of_two.go:24-30 | the bit test holds exactly of 2^ceil(log2 n), so exactly of powers of two |
| Merkle.ComputeMerkleRoot | conformance/runner/main.go:181-194 | the level-by-level loop with the duplicate-last rule computes the recursive Root; fails exactly on an empty list |
| Merkle.DisplayRoot | conformance/runner/main.go:169-199 | reversing every txid, hashing, and reversing the root back is the root over reversed hashes |
| Merkle.SmallTrees | conformance/runner/main.go:181-194 | one leaf is its own root, the left leaf of a pair is hashed first, an unpaired leaf is hashed with itself |
| Merkle.LevelSize | conformance/runner/main.go:183-194 | level k has exactly ceil(n / 2^k) nodes |
| Merkle.RootIsTopLevel | conformance/runner/main.go:183-195 | the root is the only node ceil(log2 n) levels up |
| Merkle.ProofFoldsToRoot | packages/sdk/go-subtree/subtree.go:568-600 | folding the sibling proof of any index with the bits of the index gives the root, odd edges included |
| Merkle.PlaceFoldsToRoot | packages/messaging/go-paymail/beef/bump.go:67-106 | for every index, in range or not, there is a proof that folds to the root from the leaf at that place of the padded tree |
| Merkle.RootBinds | packages/sdk/go-subtree/merkle_tree.go:136-162 | lists of one length with one root are equal, or some level exhibits a hash collision |
| Merkle.RootIgnoresPadding | packages/sdk/go-subtree/merkle_tree.go:142-150 | the root does not bind the leaf count: an odd list and its padded form agree |
| MerkleStore.FilledUnique | packages/sdk/go-subtree/merkle_tree.go:97-133 | every slot below n satisfies its parent equation if and only if the prefix is the sequential store |
| MerkleStore.CalcMerkles | packages/sdk/go-subtree/merkle_tree.go:97-109 | fills exactly the slots of its range with their parents, reading only the finished part, and disturbs nothing finished |
| MerkleStore.CalcMerklesInParallel | packages/sdk/go-subtree/merkle_tree.go:72-86 | 1024-wide chunks stepped in any interleaving of single writes fill the level as the sequential pass does |
| MerkleStore.SchedulesAgree | packages/sdk/go-subtree/merkle_tree.go:72-86 | two schedules that write the same slots, in any order and with repetitions, leave the same store |
| MerkleStore.FillLevel | packages/sdk/go-subtree/merkle_tree.go:70-91 | one level, split or not, extends the filled part to the end of that level |
| MerkleStore.BuildMerkleTreeStore | packages/sdk/go-subtree/merkle_tree.go:45-94 | the array built in place is the flat store of the leaves, for every leaf count, with the empty and one-leaf cases |
| MerkleStore.StoreIsMerkleTree | packages/sdk/go-subtree/merkle_tree.go:45-162 | for nonzero leaves, entry j of level k is node j of the Merkle tree, and is zero exactly when j >= ceil(n / 2^k) |
| MerkleStore.StoreRootIsRoot | packages/sdk/go-subtree/merkle_tree.go:45-162 | for nonzero leaves, the last entry of the flat store is the root of the simple algorithm |
| MerkleStore.StoreRootExact | packages/sdk/go-subtree/merkle_tree.go:136-162 | for two leaves or more the store root is the Merkle root if and only if no leaf is zero, or building the two trees exhibits a collision |
| MerkleProof.WalkStore | packages/sdk/go-subtree/subtree.go:579-600 | the index arithmetic stays in bounds and reads one stored sibling per level |
| MerkleProof.WalkIsProof | packages/sdk/go-subtree/subtree.go:603-632 | what the walk reads from the store is the sibling proof of the Merkle tree |
| MerkleProof.GetMerkleProof | packages/sdk/go-subtree/subtree.go:568-600 | fails exactly out of range; has ceil(log2 n) entries; for nonzero leaves it is the sibling proof |
| Composition.GluedFolds | packages/sdk/go-subtree/merkle_tree.go:36-41 | the glued proof folds, from leaf 0, to the root over the subtree roots |
| Composition.BlockRoot | packages/sdk/go-subtree/merkle_tree.go:13-42 | the root over all leaves is the root over subtree roots, the last one hashed with itself as often as it is short of levels |
| Composition.CompositionLaw | packages/sdk/go-subtree/merkle_tree.go:13-42 | with full subtrees and a last one over half full, or one subtree of any size, the glued proof folds to the root of all leaves |
| Composition.CompositionExact | packages/sdk/go-subtree/merkle_tree.go:13-42 | without collisions it does so if and only if the last subtree is over half full |
| Subtrees.GetMerkleProofForCoinbase | packages/sdk/go-subtree/merkle_tree.go:13-42 | each error exactly when it arises; on success, for nonzero hashes, the result is the glued proof and folds from the first leaf to the root over the subtree roots |
| Subtrees.PlaceholderBytes | packages/sdk/go-subtree/coinbase_placeholder.go:11-20 | the placeholder is 32 bytes of 0xFF, and not the zero hash |
| Subtrees.PlaceholderProofFolds | packages/sdk/go-subtree/merkle_tree.go:13-42 | for nonzero hashes behind 32 bytes of 0xFF the glued proof folds from those to the root over the subtree roots |
| Subtrees.BuildTopTree | packages/sdk/go-subtree/merkle_tree.go:24-34 | the top tree holds the subtree roots in order; fails exactly when a root is the coinbase placeholder |
| Subtrees.NewTreeByLeafCount | packages/sdk/go-subtree/subtree.go:76-84 | succeeds exactly for a power of two |
| Subtrees.Subtree.AddNode | packages/sdk/go-subtree/subtree.go:395-428 | appends, or reports full or placeholder; keeps cached root, totals and index right |
| Subtrees.Subtree.AddSubtreeNodeWithoutLock | packages/sdk/go-subtree/subtree.go:317-333 | the same without the placeholder check |
| Subtrees.Subtree.AddCoinbaseNode | packages/sdk/go-subtree/subtree.go:336-351 | only for an empty subtree; stores 32 bytes of 0xFF; the index stays right exactly when it was not built yet |
| Subtrees.Subtree.RemoveNodeAtIndex | packages/sdk/go-subtree/subtree.go:431-452 | removes in the middle; totals stay right; the index stays right exactly when the last node goes and its hash is unique |
| Subtrees.Subtree.ReplaceRootNode | packages/sdk/go-subtree/subtree.go:269-288 | the new first node and root; totals and index stay right exactly under the stated conditions, for an empty subtree too |
| Subtrees.Subtree.RootHash | packages/sdk/go-subtree/subtree.go:455-477 | the cached or computed root is the store root of the present nodes |
| Subtrees.Subtree.NodeIndex | packages/sdk/go-subtree/subtree.go:516-535 | with a right index, the last position of the hash, or -1 exactly when it does not occur |
| Subtrees.Subtree.GetMerkleProof | packages/sdk/go-subtree/subtree.go:568-600 | the proof of the node folds to the root of the subtree |
| Subtrees.Subtree.AddConflictingNode | packages/sdk/go-subtree/subtree.go:354-392 | refused exactly when the hash is not in the subtree; listed at most once |
| Subtrees.TotalsAreSums | packages/sdk/go-subtree/subtree.go:303-306 | the running totals are the sums over all nodes modulo 2^64 |
| Subtrees.IndexIsSearch | packages/sdk/go-subtree/subtree.go:516-535 | the index maps a hash to the position a backward linear search finds, and has no other keys |
| Subtrees.IndexAfterRemoval | packages/sdk/go-subtree/subtree.go:446-449 | deleting one key gives the right index if and only if the last node is removed and its hash is unique |
| Subtrees.IndexAfterReplacement | packages/sdk/go-subtree/subtree.go:269-288 | the untouched index is right after replacing node 0 if and only if the hash is unchanged or both hashes occur later |
| Subtrees.ReplacedTotals | packages/sdk/go-subtree/subtree.go:269-288 | the untouched fee total is right if and only if the fee is unchanged, the grown size total if and only if the old size was 0 |
| Subtrees.RunRoot | packages/sdk/go-subtree/subtree.go:269-782 | in every run of the operations, deserialising included, the cached root is absent or the root of the nodes after every operation if and only if every root read from bytes was |
| Subtrees.RunTotals | packages/sdk/go-subtree/subtree.go:269-782 | in every run the totals are the sums over the nodes after every operation if and only if every operation kept them, as can be told before it |
| Subtrees.RunIndex | packages/sdk/go-subtree/subtree.go:269-782 | likewise the index agrees with a search of the nodes |
| Codecs.ManyRoundTrip | packages/sdk/go-subtree/subtree.go:866-878 | a list of self-delimiting values decodes to itself and leaves what follows |
| Codecs.CountedRoundTrip | packages/sdk/go-subtree/subtree.go:884-904 | the same behind a length |
| LittleEndian.EncodedByte | packages/sdk/go-subtree/subtree.go:635-709 | byte i of a number counts 256^i, the low byte first |
| SubtreeWire.ImageLayout | packages/sdk/go-subtree/subtree.go:635-709 | where root, totals, counts, each field of each node and each conflicting node are |
| SubtreeWire.ImageRoundTrip | packages/sdk/go-subtree/subtree.go:635-709 | decoding the bytes of root, totals, nodes and conflicting nodes gives them back, whatever follows |
| SubtreeWire.ImageExact | packages/sdk/go-subtree/subtree.go:742-782 | bytes that decode are the encoding of what they decode to |
| SubtreeWire.ReadersAgree | packages/sdk/go-subtree/subtree.go:192-218 | on all bytes that the full reader accepts, the nodes-only and conflicting-only readers give the same nodes and conflicting nodes |
| SubtreeWire.DeserializeNodesFromReader | packages/sdk/go-subtree/subtree.go:192-218 | the node hashes in order, or failure exactly when the nodes cannot be read |
| SubtreeWire.SerializedHash | packages/sdk/go-subtree/subtree.go:712-726 | hash i of a list of node hashes is at byte 32 * i |
| SubtreeWire.SignedRange | packages/sdk/go-subtree/subtree.go:907-953 | the wrapped 64-bit product is the signed integer that is equal modulo 2^64 |
| SubtreeWire.DeserializeSubtreeConflictingFromReader | packages/sdk/go-subtree/subtree.go:907-953 | follows the reader with its ignored skip errors and 64-bit product, on all bytes |
| SubtreeWire.ReadImage | packages/sdk/go-subtree/subtree.go:742-904 | field by field reading is the full decoder, and fails exactly when it does |
| SubtreeWire.Serialize | packages/sdk/go-subtree/subtree.go:635-709 | writes the encoding of the subtree, with its root computed if need be |
| SubtreeWire.SerializeThenDeserialize | packages/sdk/go-subtree/subtree.go:635-782 | a nonempty subtree comes back with root, totals, nodes and conflicting nodes; its capacity becomes the leaf count |
| Inpoints.AddTx | packages/sdk/go-subtree/inpoints.go:178-193 | parents in order of first appearance, each with the indexes of its inputs in order |
| Inpoints.AppearancesDistinct | packages/sdk/go-subtree/inpoints.go:178-193 | the parents are pairwise distinct and are exactly those of the inputs |
| Inpoints.FlattenIsStable | packages/sdk/go-subtree/inpoints.go:106-119 | for every parent the flattened inpoints have the same inputs in the same order |
| Inpoints.FlattenIsPermutation | packages/sdk/go-subtree/inpoints.go:106-119 | the flattened inpoints are a permutation of the inputs |
| Inpoints.FlattenPlace | packages/sdk/go-subtree/inpoints.go:106-119 | where index j of parent i is in the flattened list: parent by parent, each in order |
| Inpoints.GetTxInpoints | packages/sdk/go-subtree/inpoints.go:106-119 | computes the flattened inpoints |
| Inpoints.InpointsRoundTrip | packages/sdk/go-subtree/inpoints.go:131-243 | self-delimiting: the value comes back, up to unset versus empty, and the rest is left |
| Inpoints.InpointsExact | packages/sdk/go-subtree/inpoints.go:196-243 | bytes that decode are the encoding of what they decode to |
| Inpoints.InpointsLayout | packages/sdk/go-subtree/inpoints.go:131-175 | where the count, each parent hash and each list of output indexes are |
| Inpoints.Serialize | packages/sdk/go-subtree/inpoints.go:131-175 | fails exactly on lists of different length; writes the encoding when the lengths fit 32 bits |
| Inpoints.ReadInpoints | packages/sdk/go-subtree/inpoints.go:196-243 | the reader is the decoder, and fails exactly when it does |
| Metas.MetaRoundTrip | packages/sdk/go-subtree/subtree_meta.go:163-295 | root and all entries come back, up to unset versus empty parent lists |
| Metas.MetaLayout | packages/sdk/go-subtree/subtree_meta.go:163-196 | where the root, the count and each entry are |
| Metas.Meta.Serialize | packages/sdk/go-subtree/subtree_meta.go:163-196 | succeeds exactly when no node but the first is unset and the count fits 32 bits; then writes the encoding |
| Metas.Meta.Deserialize | packages/sdk/go-subtree/subtree_meta.go:204-254 | fills the first places from the bytes and leaves the others unset |
| Metas.FromEntries | packages/sdk/go-subtree/subtree_meta.go:152-160 | setting entries one by one fills the first places |
| Metas.WriteThenRead | packages/sdk/go-subtree/subtree_meta.go:163-295 | writing and reading back restores root and entries; the result can be written again exactly when no node but the first has an empty list of parents |
| ChainWork.WorkBounds | infra/go-chaintracks/chainmanager/chainwork.go:46-60 | work lies in [0, 2^255] and is positive exactly for 0 < target < 2^256 |
| ChainWork.WorkAntitone | infra/go-chaintracks/chainmanager/chainwork.go:46-60 | an easier target never has more work |
| ChainWork.WorkIn256Bits | infra/go-chaintracks/chainmanager/chainwork.go:55-57 | for 0 < t < 2^256 work is (2^256 - 1 - t) / (t + 1) + 1 |
| ChainWork.ChainWorkToHex | infra/go-chaintracks/chainmanager/chainwork.go:80-98 | each place shows its lower-case hexadecimal digit; the printed form parses back to the work, and has 64 digits exactly below 2^256 |
| ChainWork.TargetOf | infra/go-chaintracks/chainmanager/chainwork.go:17-41 | the target by exponent, sign and mantissa: mantissa * 256^(exponent - 3), or shifted right for small exponents |
| ChainWork.GenesisWork | infra/go-chaintracks/chainmanager/chainwork.go:17-60 | 0x1d00ffff stands for 0xffff * 256^26 and for work 0x100010001 |
| BlockHeaders.HeaderRoundTrip | packages/sdk/go-sdk/block/header.go:29-103 | parsing the 80 bytes of a header gives the header |
| BlockHeaders.BytesRoundTrip | packages/sdk/go-sdk/block/header.go:29-103 | any 80 bytes are the bytes of the header they parse to |
| BlockHeaders.HeaderLayout | packages/sdk/go-sdk/block/header.go:80-103 | where the fields are: the version as two's complement, numbers with the low byte first |
| BlockHeaders.NewHeaderFromBytes | packages/sdk/go-sdk/block/header.go:29-33 | parsing fails exactly when the length is not 80 |
| Chain.OnMainChainIsMembership | infra/go-chaintracks/chainmanager/manager.go:331-337 | under the invariant the two-step main-chain test is membership in byHeight, at the recorded height |
| Chain.SetTipByHeight | infra/go-chaintracks/chainmanager/loader.go:168-184 | byHeight afterwards is the old list below the branch, then the branch |
| Chain.SetTipKeepsInv | infra/go-chaintracks/chainmanager/loader.go:158-188 | a branch that grows from the main chain keeps it a parent-linked chain from genesis, with right heights and cumulative work |
| Chain.ImportExact | infra/go-chaintracks/chainmanager/loader.go:158-188 | a branch with consecutive heights keeps the invariant if and only if it is a chain that grows from the main chain, with no hash twice |
| Chain.GenesisInv | infra/go-chaintracks/chainmanager/loader.go:132-152 | genesis alone satisfies the invariant |
| ChainSteps.AddBlockKeepsInv | infra/go-chaintracks/chainmanager/p2p.go:86-120 | a new block on the main chain at its parent's height plus one keeps the invariant, tip or not |
| ChainSteps.AddBlockTip | infra/go-chaintracks/chainmanager/p2p.go:94-119 | the block is the new tip exactly when its work on top of its parent's is more than the tip's; otherwise the main chain stays |
| ChainSteps.AddBlockExact | infra/go-chaintracks/chainmanager/p2p.go:99-116 | a block that becomes the tip keeps the invariant if and only if its announced height is its parent's plus one |
| ChainSteps.AddOrphanExact | infra/go-chaintracks/chainmanager/p2p.go:94-119 | a block that is recorded without becoming the tip keeps the invariant if and only if its height and work are those of some chain from genesis |
| ChainSteps.WrongHeightOnChain | infra/go-chaintracks/chainmanager/p2p.go:94-119 | a wrong height that is that of some chain all the same exhibits a hash collision, or a cycle through genesis |
| ChainSteps.AnnouncedExact | infra/go-chaintracks/chainmanager/p2p.go:43-120 | so a new block on the main chain, announced at any height, keeps the invariant if and only if it is announced well |
| ChainSteps.WorkGrows | infra/go-chaintracks/chainmanager/chainwork.go:46-67 | with valid targets cumulative work strictly grows along a chain |
| ChainSteps.FoundBranchExtends | infra/go-chaintracks/chainmanager/sync.go:104-125 | the branch found by walking back is linked, numbered from the ancestor, pairwise distinct and new to the chain below it |
| Walks.MetEndsWalk | infra/go-chaintracks/chainmanager/sync.go:45-97 | once a request's own hash, or a header that answers it, is on the main chain, the walk does not fail, whatever is refused later |
| Walks.FailureEndsWalk | infra/go-chaintracks/chainmanager/sync.go:59-69 | a request that the walk makes and that is not answered with headers is where it fails, and nowhere else |
| Walks.OneBatchIsEnough | infra/go-chaintracks/chainmanager/sync.go:59-97 | so a first answer that holds a block of the main chain is enough |
| Walks.GatheredIsWalk | infra/go-chaintracks/chainmanager/sync.go:71-97 | what is gathered before the main chain is met is parent-linked, off the main chain, and ends where the next request begins |
| ChainSteps.SyncExact | infra/go-chaintracks/chainmanager/sync.go:45-153 | whatever a remote node answered, importing the headers fetched keeps the invariant if and only if they are linked down to the common ancestor and none comes twice |
| ChainSteps.TwiceCollides | infra/go-chaintracks/chainmanager/sync.go:45-153 | a header that comes twice in a linked walk exhibits a hash collision |
| ChainSteps.SyncRaisesWorkIff | infra/go-chaintracks/chainmanager/sync.go:142-153 | a sync raises the tip's work if and only if the branch has more work than what it replaces |
| ChainSteps.SyncCanLowerWork | infra/go-chaintracks/chainmanager/sync.go:142-153 | work is not compared: a lighter branch is imported and lowers the tip's work |
| ChainSteps.OrphanedIsDifference | infra/go-chaintracks/chainmanager/sync.go:128-140 | the orphaned hashes are exactly the old main chain minus the new one, as many as old tip height minus ancestor height |
| HeaderFiles.GroupsAreIndependent | infra/go-chaintracks/chainmanager/loader.go:270-301 | writing file by file comes to the same as header by header |
| HeaderFiles.WriteHeadersToFiles | infra/go-chaintracks/chainmanager/loader.go:261-306 | grouped writes, in any order of files, leave the files as header-by-header writes do |
| Persistence.WriteRecord | infra/go-chaintracks/chainmanager/loader.go:282-293 | a write at the position of a height updates that record and no other |
| Persistence.HoldsBranch | infra/go-chaintracks/chainmanager/loader.go:261-306 | after writing a branch the files hold the old records overlaid with it; nothing is truncated |
| Persistence.SetTipKeepsDisk | infra/go-chaintracks/chainmanager/loader.go:209-219 | after every tip change the files and the list of files hold the new main chain |
| Reload.HeaderOnDisk | infra/go-chaintracks/chainmanager/loader.go:261-306 | the main-chain header of height h is in file h / 100000, 80 bytes from 80 * (h % 100000) on |
| Reload.LoadHeadersFromFile | infra/go-chaintracks/chainmanager/loader.go:21-44 | parses every 80 bytes; fails exactly when bytes are left over |
| Reload.MainIsChainOf | infra/go-chaintracks/chainmanager/loader.go:80-117 | renumbering the headers of a main chain gives back its heights, hashes and work |
| Reload.LoadFilesRebuilds | infra/go-chaintracks/chainmanager/loader.go:75-126 | loading n files files the first blocks of the recorded chain, across file boundaries and whatever hashes repeat; without repeats it records nothing else |
| Reload.PersistThenReload | infra/go-chaintracks/chainmanager/loader.go:63-129 | when nothing was written above the tip, loading restores byHeight, tip and every main-chain record |
| Reload.StaleRecordsComeBack | infra/go-chaintracks/chainmanager/loader.go:282-301 | loading restores the main chain if and only if nothing was left above the tip |
| Reload.LoadedIsSoundIff | infra/go-chaintracks/chainmanager/loader.go:63-129 | what is loaded satisfies the invariant if and only if the records are one linked chain from genesis without a repeated hash |
| ChainRuns.StepIsSoundIff | infra/go-chaintracks/chainmanager/p2p.go:43-120 | a step from a sound state, on disk too, ends in one if and only if the announced height is right, the headers fetched are linked, or the records restarted from are one chain |
| ChainRuns.RunIsSoundIff | infra/go-chaintracks/chainmanager/p2p.go:43-120 | in every run of genesis, announcements at any height, syncs from any remote node and restarts, every state is sound and the disk holds as many records as the chain was ever long, if and only if every step was harmless |
| ChainRuns.WrongHeightBreaks | infra/go-chaintracks/chainmanager/p2p.go:99-116 | the first block on genesis, announced at any height but 1, breaks the main chain |
| ChainRuns.UnlinkedBreaks | infra/go-chaintracks/chainmanager/sync.go:75-153 | so does a fetched header that does not name the common ancestor as its parent |
| ChainRuns.EveryRunReloads | infra/go-chaintracks/chainmanager/loader.go:63-129 | in every run of harmless steps loading gives the main chain in memory if and only if the tip was never higher |
| ChainRuns.RestartIsSoundIff | infra/go-chaintracks/chainmanager/loader.go:63-129 | a restart from a sound state gives a sound state if and only if the records on disk are one chain from genesis |
| ChainRuns.TipCanFall | infra/go-chaintracks/chainmanager/sync.go:142-153 | a run of two announced blocks and a sync after which the tip is lower and loading brings the old one back |
| ChainManagers.ReverseHeaders | infra/go-chaintracks/chainmanager/sync.go:104-107 | swapping ends in place reverses the branch |
| ChainManagers.NumberHeaders | infra/go-chaintracks/chainmanager/sync.go:109-125 | counts height and work up from the ancestor |
| ChainManagers.CollectOrphans | infra/go-chaintracks/chainmanager/sync.go:128-140 | the hashes above the ancestor, newest first |
| ChainManagers.ChainManager.FindOnMainChain | infra/go-chaintracks/chainmanager/sync.go:46-52 | finds a hash exactly when the main chain holds it, with its record |
| ChainManagers.ChainManager.PruneOrphans | infra/go-chaintracks/chainmanager/manager.go:340-362 | visiting the map in any order drops exactly the headers off the main chain below the prune height |
| ChainManagers.ChainManager.SetChainTip | infra/go-chaintracks/chainmanager/loader.go:158-229 | memory, files and metadata after a tip change; every header kept is on the main chain or at most 100 below the tip |
| ChainManagers.ChainManager.Import | infra/go-chaintracks/chainmanager/loader.go:158-229 | sets the tip; a branch that grows from the main chain keeps memory and disk sound |
| ChainManagers.ChainManager.AddBlockToChain | infra/go-chaintracks/chainmanager/p2p.go:86-120 | is the announced-block step for every height; fails exactly when the parent is unknown; a new tip has more work; with the right height memory and disk stay sound |
| ChainManagers.ChainManager.WalkBack | infra/go-chaintracks/chainmanager/sync.go:45-97 | terminates; fails exactly when a request that it makes has no answer, or an empty one, and says which; otherwise ends on the first main-chain block on the way back, with the first headers of its batches |
| ChainManagers.ChainManager.SyncFromRemoteTip | infra/go-chaintracks/chainmanager/sync.go:28-161 | fails exactly when the walk does, and then changes nothing; otherwise keeps memory and disk sound, makes the remote tip the tip, and reports a reorganisation exactly when the ancestor is below the old tip |
| ChainManagers.ChainManager.ProcessBlockMessage | infra/go-chaintracks/chainmanager/p2p.go:43-83 | known blocks change nothing, blocks on the main chain are added, others are synced, with the failures, the new state and the report of that sync; failures change nothing; an added block keeps the invariant if and only if it was announced well |
| ChainManagers.ChainManager.InitializeFromGenesis | infra/go-chaintracks/chainmanager/loader.go:132-152 | gives the first sound state |
| ChainManagers.ChainManager.LoadFromLocalFiles | infra/go-chaintracks/chainmanager/loader.go:63-129 | genesis when nothing is stored; otherwise the recorded chain, whatever it is, with the files left as they were |
| ChainManagers.Restart | infra/go-chaintracks/chainmanager/loader.go:63-129 | a new manager over the files is sound if and only if the records are one chain from genesis; if the tip was never higher it has the same main chain |
| Sessions.AddExact | packages/sdk/go-sdk/auth/session_manager.go:44-65 | adding keeps the key index exact if and only if it moves no nonce from one key to another |
| Sessions.RemoveExact | packages/sdk/go-sdk/auth/session_manager.go:118-134 | removing likewise, for the key of the session it is given |
| Sessions.UpdateExact | packages/sdk/go-sdk/auth/session_manager.go:69-73 | updating likewise; otherwise the old listing stays and is wrong |
| Sessions.FieldWriteExact | packages/sdk/go-sdk/auth/peer.go:609-612 | writing the key of a stored session without updating the index keeps the index exact if and only if the key stays |
| Sessions.RunExact | packages/sdk/go-sdk/auth/session_manager.go:44-134 | in every run the index is exact after every operation if and only if no operation moved a nonce between keys |
| Sessions.SessionManager.AddSession | packages/sdk/go-sdk/auth/session_manager.go:44-65 | the sessions and the listings after adding; refused exactly without a nonce |
| Sessions.SessionManager.UpdateSession | packages/sdk/go-sdk/auth/session_manager.go:69-73 | the sessions and the listings after updating: an old listing under another key stays |
| Sessions.SessionManager.RemoveSession | packages/sdk/go-sdk/auth/session_manager.go:118-134 | the sessions and the listings after removing, under the given key only |
| Sessions.SessionManager.GetSession | packages/sdk/go-sdk/auth/session_manager.go:82-115 | by nonce, or among the sessions of the key an authenticated one if there is any, and then the latest update, for every order of visiting them |
| Sessions.SessionManager.HasSession | packages/sdk/go-sdk/auth/session_manager.go:137-150 | whether a nonce or a key has a session |
| Peers.KeyIDParts | packages/sdk/go-sdk/auth/peer.go:1161-1163 | equal key IDs have equal parts when prefixes, or suffixes, have no spaces |
| Peers.ResponseDataParts | packages/sdk/go-sdk/auth/peer.go:454-607 | a response signs the bytes of the request's nonce, then those of the session's |
| Handshake.ResponseBinds | packages/sdk/go-sdk/auth/peer.go:570-607 | a response that verifies was made by the claimed peer for this very request |
| Handshake.MessageBinds | packages/sdk/go-sdk/auth/peer.go:945-968 | a message that verifies comes from the peer whose request a responder's session answers, and on an initiator's session from some peer that answered its request |
| Handshake.StepKeeps | packages/sdk/go-sdk/auth/peer.go:324-968 | every step of every peer keeps the invariant on sessions, signatures and validated certificates |
| Agreement.InitiatorAgreement | packages/sdk/go-sdk/auth/peer.go:557-612 | in every reachable state an initiator session that accepted a response has a responder session with crossed nonces and identities |
| Agreement.AgreementIsInjective | packages/sdk/go-sdk/auth/peer.go:557-612 | no two initiator sessions match one responder session |
| Agreement.ResponderSession | packages/sdk/go-sdk/auth/peer.go:454-490 | a responder session names a session that its peer did start |
| Agreement.GeneralMessageVerifies | packages/sdk/go-sdk/auth/peer.go:223-278 | a general message signed on a session verifies under the receiver's key ID and is accepted exactly when the receiver's session is authenticated |
| Agreement.AcceptedIsAuthentic | packages/sdk/go-sdk/auth/peer.go:918-968 | an accepted general message was signed for this receiver by the peer of its session, or on an initiator's session by a peer that answered the request |
| Agreement.RequestIsAuthentic | packages/sdk/go-sdk/auth/peer.go:738-802 | an accepted request for certificates was signed for this receiver by the peer of its session, or on an initiator's session by a peer that answered the request |
| Agreement.CertificatesAreAuthentic | packages/sdk/go-sdk/auth/peer.go:805-895 | likewise accepted certificates |
| Agreement.CertificatesFirst | packages/sdk/go-sdk/auth/peer.go:862-895 | where certificates are required no session is authenticated before those of its peer, or on an initiator's session of a peer that answered, were validated |
| Agreement.SoleAnswerer | packages/sdk/go-sdk/auth/peer.go:557-612 | when only the peer asked for has answered, the session peer, the sender of accepted messages and the certified identity are that peer |
| Agreement.TargetIsNotCompared | packages/sdk/go-sdk/auth/peer.go:609-612 | a handshake started for one peer and answered by another ends in an authenticated session with the other |
| Certification.StepCertifiedIff | packages/sdk/go-sdk/auth/peer.go:862-895 | when the peer of every authenticated session is certified, where certificates are required, a step keeps that so if and only if the sender of certificates is the session's peer, or that peer was certified before, and a peer that takes over an authenticated session was |
| Certification.RunCertifiedIff | packages/sdk/go-sdk/auth/peer.go:557-895 | in every run the peer of every authenticated session is certified after every step if and only if those guards hold of every step |
| Certification.UncertifiedPeerIsAuthenticated | packages/sdk/go-sdk/auth/peer.go:862-895 | two peers answer, one is the session's peer and the other sends certificates: the session is authenticated and its peer was never certified |
| Certification.EveryAnswererIsAccepted | packages/sdk/go-sdk/auth/peer.go:918-968 | on an authenticated session the messages of every peer that answered the request are accepted |
| Certification.SenderIsNotCompared | packages/sdk/go-sdk/auth/peer.go:918-968 | a reachable session with one peer that accepts the messages of another |
| Listings.StepExactIff | packages/sdk/go-sdk/auth/peer.go:557-612 | when every peer's index by key is exact, a step keeps that so if and only if an accepted response comes from the peer that was asked for, or from any peer when none was asked for and its certificates are not refused |
| Listings.RunExactIff | packages/sdk/go-sdk/auth/peer.go:324-612 | in every run every peer's index is exact after every step if and only if that holds of every step |
| Listings.OtherPeerIsListed | packages/sdk/go-sdk/auth/peer.go:298-308 | a handshake started for one peer and answered by another leaves an authenticated session with the other listed under the key of the first |
| Agreement.HandshakeCompletes | packages/sdk/go-sdk/auth/peer.go:324-695 | request, answer and delivery complete a handshake from any state |
| AuthPeers.AuthPeer.InitiateHandshake | packages/sdk/go-sdk/auth/peer.go:324-361 | records an unauthenticated session and sends its nonce |
| AuthPeers.AuthPeer.HandleInitialRequest | packages/sdk/go-sdk/auth/peer.go:454-554 | refuses exactly an empty nonce; otherwise the session it stores and the signed response, field by field |
| AuthPeers.AuthPeer.HandleInitialResponse | packages/sdk/go-sdk/auth/peer.go:557-664 | which signature it accepts, when certificates are refused, and the session it leaves, with the field writes that precede a certificate error |
| AuthPeers.AuthPeer.HandleCertificateRequest | packages/sdk/go-sdk/auth/peer.go:738-802 | refuses exactly a signature that is not the sender's over the request for this session; touches only the time stamp |
| AuthPeers.AuthPeer.HandleCertificateResponse | packages/sdk/go-sdk/auth/peer.go:805-895 | which signature it accepts; authenticates exactly when certificates are there and validate |
| AuthPeers.AuthPeer.HandleGeneralMessage | packages/sdk/go-sdk/auth/peer.go:918-977 | refuses exactly unauthenticated sessions and signatures that are not the sender's over the payload for this session |
| AuthPeers.AuthPeer.GetAuthenticatedSession | packages/sdk/go-sdk/auth/peer.go:298-308 | finds a session exactly when an authenticated one is listed under the key, and then the best of those listed; with an exact index it is one with that key |
| AuthPeers.AuthPeer.ToPeer | packages/sdk/go-sdk/auth/peer.go:223-294 | the message that is signed and sent on a session |
| Bumps.CalculatePathRoot | packages/messaging/go-paymail/beef/bump.go:67-106 | the loop is the recursive climb, errors included |
| Bumps.FindsFirst | packages/messaging/go-paymail/beef/bump.go:115-122 | of several leaves with one offset the first is taken |
| Bumps.CalculateMerkleRoot | packages/messaging/go-paymail/beef/bump.go:43-64 | one root that all transaction leaves evaluate to, or an error with its reason |
| Bumps.ClimbsIff | packages/messaging/go-paymail/beef/bump.go:71-97 | a path evaluates if and only if every sibling on the way is given or both its children are |
| Bumps.OneLeafFails | packages/messaging/go-paymail/beef/bump.go:80-83 | a single leaf at the bottom is an error |
| Bumps.ClimbIsFold | packages/messaging/go-paymail/beef/bump.go:67-106 | evaluating a path is folding its siblings with the bits of the offset |
| Bumps.ConsistentPathGivesRoot | packages/messaging/go-paymail/beef/bump.go:67-168 | on leaves of one tree every path that evaluates gives the root of that tree |
| Bumps.ConsistentPathsAgree | packages/messaging/go-paymail/beef/bump.go:58-60 | so the mismatch error cannot occur there |
| Bumps.PathBindsLeaf | packages/messaging/go-paymail/beef/bump.go:67-106 | equal root, level count and offset force equal leaf hashes, or a collision is exhibited |
| Inclusion.PathAgrees | packages/messaging/go-paymail/beef/bump.go:67-106 | a path that evaluates to a block root agrees with the block tree, leaf and siblings, for every offset and length, or a collision is exhibited |
| Inclusion.PathProvesInclusion | packages/messaging/go-paymail/beef/bump.go:67-106 | a path of the right length that evaluates to a block root proves the leaf is in the block, at its offset if in range, or a collision is exhibited |
| Inclusion.PlacedAtFullHeight | packages/messaging/go-paymail/beef/bump.go:67-106 | at the height of the block's tree, being placed is being in the block |
| Inclusion.ReadLeafIsInBlock | packages/messaging/go-paymail/beef/bump.go:43-106 | a bottom leaf that is flagged, or read as a sibling or a child for a flagged one, is in the block when the path has as many levels as its tree, an inner node when it has fewer, and what a transaction id is hashed from when it has more; or a collision is exhibited |
| Inclusion.UnreadLeafIsFree | packages/messaging/go-paymail/beef/bump.go:43-106 | a bottom leaf that is not read can carry any hash without changing what the flagged leaves evaluate to |
| Spv.FindMinedAncestors | packages/messaging/go-paymail/spv/bump_validation.go:27-37 | terminates; finds exactly the mined transactions reached through unmined ones; fails exactly when such a path meets a missing parent |
| Spv.FindMinedAncestorsForInput | packages/messaging/go-paymail/spv/bump_validation.go:39-58 | the same from one input, into the shared map |
| Spv.MinedUnfolds | packages/messaging/go-paymail/spv/bump_validation.go:39-58 | paths through unmined transactions unfold as the recursion does |
| Spv.ExistsInBumps | packages/messaging/go-paymail/spv/bump_validation.go:60-79 | found exactly when the named BUMP has a leaf with the transaction's id |
| Spv.EnsureAncestorsArePresentInBump | packages/messaging/go-paymail/spv/bump_validation.go:12-25 | succeeds exactly when no path is broken and every mined ancestor is a leaf of its BUMP |
| Spv.FindParentForInput | packages/messaging/go-paymail/spv/spv.go:96-106 | the first transaction with the parent's id |
| Spv.ValidateSatoshisSum | packages/messaging/go-paymail/spv/spv.go:73-94 | succeeds exactly when all parents are there and the inputs exceed the outputs, modulo 2^64; for one input, when the output that its index names does; that is comparing the sums themselves if and only if they wrap equally often, or their order survives the wrapping |
| Spv.SumsOfOne | packages/messaging/go-paymail/spv/spv.go:76-88 | an input counts the output of its parent that its index names |
| Spv.InputSumAdds | packages/messaging/go-paymail/spv/spv.go:76-85 | inputs add up |
| Spv.OutputSumAdds | packages/messaging/go-paymail/spv/spv.go:86-88 | outputs add up |
| Spv.OverspendIsRefused | packages/messaging/go-paymail/spv/spv.go:73-94 | a transaction that spends an output of 7 and pays 500 is refused, though its parent pays 1000 in another output |
| Spv.ValidateLockTime | packages/messaging/go-paymail/spv/spv.go:61-71 | succeeds exactly for lock time 0 or final sequence numbers only |
| Spv.ValidateScripts | packages/messaging/go-paymail/spv/scripts_validation.go:11-25 | succeeds exactly when every input's parent is there and its script passes |
| Spv.GetMerkleRootsVerificationRequests | packages/messaging/go-paymail/spv/merkle_path_validation.go:26-44 | one root per BUMP, or failure exactly when there is none |
| Spv.ExecuteSimplifiedPaymentVerification | packages/messaging/go-paymail/spv/spv.go:27-58 | succeeds if and only if all transactions are in order, the ancestors are present and the roots are confirmed; otherwise reports the first transaction that is not, or which of the other two failed |
| Spv.VerifiedTransaction | packages/messaging/go-paymail/spv/spv.go:27-58 | what that says of each transaction: inputs, outputs, lock time, sums and scripts |
| Spv.AncestorIsInBlock | packages/messaging/go-paymail/spv/merkle_path_validation.go:9-24 | from a successful verification: every mined ancestor is a leaf of its BUMP, and if that leaf is flagged or read and the BUMP has as many levels as the block's tree, the ancestor is in the confirmed block, or a collision is exhibited; with other lengths it is placed as `Placed` says |
| Spv.UnreadLeafIsNotProven | packages/messaging/go-paymail/spv/bump_validation.go:60-79 | a bottom leaf that is not read can carry any hash: the requested root stays |
| Spv.UnflaggedAncestorPasses | packages/messaging/go-paymail/spv/bump_validation.go:60-79 | a BEEF that verifies although its mined ancestor is not in the confirmed block |
| Spv.ShortPathPasses | packages/messaging/go-paymail/beef/bump.go:43-106 | a BEEF that verifies although its mined ancestor, flagged and read, is an inner node of the block's tree, because its BUMP has too few levels |
| Spv.LongPathPasses | packages/messaging/go-paymail/beef/bump.go:43-106 | likewise one whose mined ancestor is what a transaction id is hashed from, because its BUMP has too many |
| Spv.OutputsCanWrap | packages/messaging/go-paymail/spv/spv.go:73-94 | a transaction that passes with 5 satoshis in and 2^64 + 1 out |
| OutputAllocator.BuildPerRecipientOutputs | infra/go-message-box-server/pkg/handlers/helpers.go:124-210 | with a delivery fee the first output goes to no one and the others are allocated, otherwise all are; fails exactly when fewer outputs remain than there are fee recipients without a tagged output; serves exactly those with a positive fee |
| OutputAllocator.FeeRecipientsAre | infra/go-message-box-server/pkg/handlers/helpers.go:134-140 | the fee recipients are those with a row of positive fee |
| OutputAllocator.FeeRecipientsAdd | infra/go-message-box-server/pkg/handlers/helpers.go:134-140 | in the order of the rows |
| OutputAllocator.PlaceDecides | infra/go-message-box-server/pkg/handlers/helpers.go:181-205 | a recipient without tagged outputs gets the remaining output at its own place among such recipients |
| OutputAllocator.InOrder | infra/go-message-box-server/pkg/handlers/helpers.go:158-172 | without any tags the outputs go to the fee recipients one each, in order |
| OutputAllocator.HasTagIff | infra/go-message-box-server/pkg/handlers/helpers.go:146-156 | a recipient has tagged outputs if and only if one is tagged for it |
| OutputAllocator.ResultIsFair | infra/go-message-box-server/pkg/handlers/helpers.go:124-210 | no position of the list goes to two recipients or twice to one, everyone served gets something, tagged outputs go to whom they name |
| OutputAllocator.IndexFairIff | infra/go-message-box-server/pkg/handlers/helpers.go:124-210 | for all fee recipients no output index goes to two of them, if and only if no two outputs of one index are tagged for different recipients or both free to be handed out |
| OutputAllocator.SharedTagGoesToBoth | infra/go-message-box-server/pkg/handlers/helpers.go:146-156 | outputs on which one index goes to two recipients |
| OutputAllocator.RemainingIsUntagged | infra/go-message-box-server/pkg/handlers/helpers.go:187-192 | with distinct output indexes, what remains is exactly what is not tagged |
| OutputAllocator.RemainingExact | infra/go-message-box-server/pkg/handlers/helpers.go:187-192 | an output remains if and only if no tagged output has its index |
| OutputAllocator.SharingIsTheOnlyLoss | infra/go-message-box-server/pkg/handlers/helpers.go:187-199 | for all fee recipients success means enough untagged outputs, if and only if no untagged output shares its index with a tagged one |
| OutputAllocator.SharedIndexFails | infra/go-message-box-server/pkg/handlers/helpers.go:187-199 | outputs on which allocation fails although the untagged ones suffice |
| OutputAllocator.GroupByTag | infra/go-message-box-server/pkg/handlers/helpers.go:146-156 | groups the tagged outputs by recipient, in order |

## Left out

- SHA-256, ECDSA, base64, JSON and hexadecimal text of hashes and headers.
- Floating-point rounding of `log2` and `pow`; exact integer versions stand in for them.
- The bit trick `n & (n-1)`; the model halves instead.
- Memory-mapped node storage, locks, channels, subscribers and logging.
- Negative indexes, nil receivers and other inputs on which the Go code stops with a run-time error.
- Overflow of 32-bit block heights.
- File-system, HTTP and JSON errors, and partial writes to header files.
- The count, last hash and work fields of the file metadata; only the list of files is kept.
- The CDN bootstrap, which repeats the numbering loop of the loader.
- `Subtree.Duplicate`, `Difference`, `GetMap` and the other thin accessors.
- The VarInt and transaction codecs of BEEF, and the script interpreter, which is a parameter.
- Callbacks, time-outs, waiting and the last-interacted peer of an authenticating peer.
- Undecodable nonces in the handshake: every nonce is taken to decode.
- Forged initial requests: a request arrives only as some peer sent it.
- SubtreeWire.ReadersAgree: the conflicting-nodes part needs 48 times the leaf count to fit a 64-bit integer, which every byte slice that holds the nodes satisfies.
- Agreement.CertificatesFirst: on an initiator's session the certificates may be those of any peer that answered its request, because the source does not compare the sender with the session's peer; `Certification.RunCertifiedIff` says exactly when they are the peer's.
- Agreement.SoleAnswerer: a sufficient condition on the whole history; the exact conditions are `Certification.RunCertifiedIff` and `Listings.RunExactIff`.
- Agreement.AcceptedIsAuthentic: likewise on an initiator's session the sender is a peer that answered the request, and every such sender is accepted (`Certification.EveryAnswererIsAccepted`).
- Handshake.MessageBinds: likewise.
- ChainRuns.EveryRunReloads: runs of harmless steps only; after any other step memory and disk are not sound, as `ChainRuns.RunIsSoundIff` says.
- ChainManagers.ChainManager.SyncFromRemoteTip: a remote node with links that do not lead to the main chain may never let the source's loop end, so its answers are taken to be linked here; `ChainSteps.SyncExact` is about any headers that were fetched.
- AuthPeers.AuthPeer.HandleInitialRequest: sending requested certificates is a separate step here, so its error return is not modelled.
- AuthPeers.AuthPeer.HandleInitialResponse: callbacks and the certificates sent afterwards are not modelled.
- AuthPeers.AuthPeer.HandleCertificateRequest: the certificates sent after verification are a separate step here.
- AuthPeers.AuthPeer.ToPeer: the session is given; `GetAuthenticatedSession` finds one, and waiting for a handshake is not modelled.
- Metas.Meta.Serialize: says nothing about the bytes when an entry has a list too long for a 32-bit length.
- Metas.Meta.Deserialize: more entries than places is a failure here and a run-time error in the source.
- Allocation failures for very large counts in serialised data.
- Inpoints.Serialize: says nothing about the bytes when a list is too long for a 32-bit length.
- Message-box SQL, Firebase, paymail clients and servers, UHRP storage and payment wrappers.
