/**
 Merkle proofs read from the flat store by index arithmetic, and the law by which the
 proof inside a subtree and the proof inside the tree of subtree roots compose.
 */
module MerkleProof {
  import opened Base
  import opened Powers
  import opened Merkle
  import opened MerkleStore

  function LeafSiblingHash(leaves: seq<Hash>, index: nat): Hash
    requires index < |leaves|
  {
    if index % 2 == 0 then
      if index + 1 >= |leaves| then leaves[index] else leaves[index + 1]
    else leaves[index - 1]
  }

  /** Where the sibling of the stored node at treePos stands; treePos itself if it has none. */
  function CalculateTreePosition(store: seq<Hash>, treePos: nat, totalLength: nat): (pos: nat)
    requires treePos < |store| && (treePos % 2 == 0 ==> treePos + 1 < |store|)
    ensures pos < |store|
  {
    if treePos % 2 == 0 then
      if totalLength > treePos + 1 && store[treePos + 1] != ZERO then treePos + 1 else treePos
    else
      if store[treePos - 1] != ZERO then treePos - 1 else treePos
  }

  lemma {:induction false} ShiftBound(index: nat, k: nat, m: nat)
    requires index < Pow2(k + m)
    ensures Shifted(index, k) < Pow2(m)
    decreases k
  {
    if k > 0 {
      ShiftBound(index / 2, k - 1, m);
    }
  }

  /** A stored level ends before the root. */
  lemma LevelFits(height: nat, m: nat, j: nat)
    requires 0 < m < height && j < Pow2(m)
    ensures 0 <= Pow2(height) - 2 * Pow2(m)
    ensures Pow2(height) - 2 * Pow2(m) + j < Pow2(height) - 2
  {
    Pow2Monotone(m + 1, height);
  }

  /** A stored level starts at an even slot and has an even number of slots. */
  lemma LevelParity(height: nat, m: nat, j: nat)
    requires 0 < m < height && j < Pow2(m)
    ensures (Pow2(height) - 2 * Pow2(m) + j) % 2 == j % 2
    ensures j % 2 == 0 ==> j + 1 < Pow2(m)
  {
    EvenShift(Pow2(height - 1) - Pow2(m), j);
    EvenGap(Pow2(m - 1), j);
  }

  lemma EvenShift(a: int, j: int)
    ensures (2 * a + j) % 2 == j % 2
  {
  }

  lemma EvenGap(a: int, j: int)
    requires j < 2 * a
    ensures j % 2 == 0 ==> j + 1 < 2 * a
  {
  }

  /** Slot j of the level with 2^m places, by its position in the store. */
  lemma SlotOfLevel(leaves: seq<Hash>, height: nat, store: seq<Hash>, m: nat, j: nat)
    requires 0 < m < height && j < Pow2(m) && |store| == Pow2(height) - 1
    ensures 0 <= Pow2(height) - 2 * Pow2(m) + j < |store|
    ensures store[Pow2(height) - 2 * Pow2(m) + j] == EntryOfLevel(leaves, height, store, m, j)
  {
    LevelFits(height, m, j);
  }

  /** The sibling, as found by position, of slot j of the stored level with 2^m places. */
  function StoredSibling(height: nat, store: seq<Hash>, m: nat, j: nat): Hash
    requires 0 < m < height && |store| == Pow2(height) - 1 && j < Pow2(m)
  {
    LevelFits(height, m, j);
    store[CalculateTreePosition(store, Pow2(height) - 2 * Pow2(m) + j, Pow2(height) + |store|)]
  }

  /** The position arithmetic finds the sibling of the level, or the node itself at an odd edge. */
  lemma StoredSiblingIsSibling(leaves: seq<Hash>, height: nat, store: seq<Hash>, m: nat, level: seq<Hash>, j: nat)
    requires 0 < m < height && |store| == Pow2(height) - 1 && j < Pow2(m)
    requires HoldsLevel(leaves, height, store, m, level) && AllNonZero(level) && j < |level|
    ensures StoredSibling(height, store, m, j) == Sibling(level, j)
  {
    var start := Pow2(height) - 2 * Pow2(m);
    LevelFits(height, m, j);
    LevelParity(height, m, j);
    StoredNode(leaves, height, store, m, level, start, j);
    StoredNode(leaves, height, store, m, level, start, if j % 2 == 0 then j + 1 else j - 1);
    PickSibling(store, start + j, Pow2(height) + |store|, level, j);
  }

  lemma PickSibling(store: seq<Hash>, pos: nat, total: nat, level: seq<Hash>, j: nat)
    requires j < |level| && AllNonZero(level) && pos + 1 < |store| <= total && pos % 2 == j % 2
    requires store[pos] == level[j]
    requires j % 2 == 0 ==> store[pos + 1] == Padded(level, j + 1)
    requires j % 2 == 1 ==> store[pos - 1] == Padded(level, j - 1)
    ensures store[CalculateTreePosition(store, pos, total)] == Sibling(level, j)
  {
  }

  lemma StoredNode(leaves: seq<Hash>, height: nat, store: seq<Hash>, m: nat, level: seq<Hash>, start: int, j: nat)
    requires 0 < m < height && |store| == Pow2(height) - 1 && start == Pow2(height) - 2 * Pow2(m)
    requires HoldsLevel(leaves, height, store, m, level) && AllNonZero(level) && j < Pow2(m)
    ensures 0 <= start + j < |store| && store[start + j] == Padded(level, j)
    ensures store[start + j] == ZERO <==> j >= |level|
  {
    SlotOfLevel(leaves, height, store, m, j);
    assert EntryOfLevel(leaves, height, store, m, j) == Padded(level, j);
  }

  /** Entry k of the proof of leaf `index`, as read from the store. */
  function StoredEntry(height: nat, store: seq<Hash>, index: nat, k: nat): Hash
    requires 0 < k < height && |store| == Pow2(height) - 1 && index < Pow2(height)
  {
    ShiftBound(index, k, height - k);
    StoredSibling(height, store, height - k, Shifted(index, k))
  }

  lemma StoredEntryIsProofEntry(H: Hasher, leaves: seq<Hash>, height: nat, store: seq<Hash>, index: nat, k: nat)
    requires IsStore(H, leaves, height, store) && AllNonZero(leaves) && NeverZero(H)
    requires 0 < k < height && index < |leaves| && index < Pow2(height)
    ensures |ProofOf(H, leaves, index)| == height
    ensures StoredEntry(height, store, index, k) == ProofOf(H, leaves, index)[k]
  {
    var j := Shifted(index, k);
    ShiftBound(index, k, height - k);
    ProofEntry(H, leaves, index, k);
    assert ProofOf(H, leaves, index)[k] == Sibling(Level(H, leaves, k), j);
    StoredSiblingOfTree(H, leaves, height, store, k, height - k, j);
  }

  lemma StoredSiblingOfTree(H: Hasher, leaves: seq<Hash>, height: nat, store: seq<Hash>, k: nat, m: nat, j: nat)
    requires IsStore(H, leaves, height, store) && AllNonZero(leaves) && NeverZero(H)
    requires 0 < m < height && k + m == height && j < Pow2(m) && j < |Level(H, leaves, k)|
    ensures StoredSibling(height, store, m, j) == Sibling(Level(H, leaves, k), j)
  {
    LevelOfStore(H, leaves, height, store, k, m);
    StoredSiblingIsSibling(leaves, height, store, m, Level(H, leaves, k), j);
  }

  lemma LevelOfStore(H: Hasher, leaves: seq<Hash>, height: nat, store: seq<Hash>, k: nat, m: nat)
    requires IsStore(H, leaves, height, store) && AllNonZero(leaves) && NeverZero(H) && k + m == height
    ensures HoldsLevel(leaves, height, store, m, Level(H, leaves, k)) && AllNonZero(Level(H, leaves, k))
  {
    StoreHoldsLevel(H, leaves, height, store, k, m);
    LevelNonZero(H, leaves, k);
  }

  /** From the leaf up: the sibling leaf first, then one stored sibling per level. */
  method WalkStore(leaves: seq<Hash>, index: nat, height: nat, merkleTree: seq<Hash>) returns (nodes: seq<Hash>)
    requires |merkleTree| == Pow2(height) - 1 && height > 0 && index < |leaves| && index < Pow2(height)
    ensures |nodes| == height && nodes[0] == Sibling(leaves, index)
    ensures forall k :: 0 < k < height ==> nodes[k] == StoredEntry(height, merkleTree, index, k)
  {
    nodes := [LeafSiblingHash(leaves, index)];
    var totalLength := Pow2(height) + |merkleTree|;
    var treeIndexPos, treeIndex, i := 0, index / 2, height - 1;
    while i > 0
      invariant 0 <= i < height && |nodes| == height - i && nodes[0] == Sibling(leaves, index)
      invariant treeIndexPos == Pow2(height) - 2 * Pow2(i) && treeIndex == Shifted(index, height - i)
      invariant forall k :: 0 < k < height - i ==> nodes[k] == StoredEntry(height, merkleTree, index, k)
    {
      ShiftBound(index, height - i, i);
      LevelFits(height, i, treeIndex);
      var treePos := CalculateTreePosition(merkleTree, treeIndexPos + treeIndex, totalLength);
      nodes := nodes + [merkleTree[treePos]];
      treeIndexPos := treeIndexPos + Pow2(i);
      ShiftStep(index, height - i);
      treeIndex := treeIndex / 2;
      i := i - 1;
    }
  }

  /** The proof of the leaf at `index`, or None when there is no such leaf. It has
      ceil(log2 n) entries, and for nonzero hashes it is the inclusion proof of the tree. */
  method GetMerkleProof(H: Hasher, leaves: seq<Hash>, index: nat) returns (proof: Option<seq<Hash>>)
    ensures proof.None? <==> index >= |leaves|
    ensures proof.Some? ==> |proof.value| == CeilLog2(|leaves|)
    ensures proof.Some? && AllNonZero(leaves) && NeverZero(H) ==> proof.value == ProofOf(H, leaves, index)
  {
    if index >= |leaves| {
      return None;
    }
    var merkleTree := BuildMerkleTreeStore(H, leaves);
    var height := CeilLog2(|leaves|);
    ProofLength(H, leaves, index);
    CeilLog2Step(|leaves|);
    if height == 0 {
      return Some([]);
    }
    StoreOfIsStore(H, leaves);
    CeilLog2Bounds(|leaves|);
    var nodes := WalkStore(leaves, index, height, merkleTree);
    if AllNonZero(leaves) && NeverZero(H) {
      WalkIsProof(H, leaves, height, merkleTree, index, nodes);
    }
    return Some(nodes);
  }

  lemma WalkIsProof(H: Hasher, leaves: seq<Hash>, height: nat, store: seq<Hash>, index: nat, nodes: seq<Hash>)
    requires IsStore(H, leaves, height, store) && AllNonZero(leaves) && NeverZero(H)
    requires index < |leaves| && index < Pow2(height) && height > 0
    requires |nodes| == height && nodes[0] == Sibling(leaves, index)
    requires forall k :: 0 < k < height ==> nodes[k] == StoredEntry(height, store, index, k)
    ensures nodes == ProofOf(H, leaves, index)
  {
    ProofEntry(H, leaves, index, 0);
    forall k | 0 < k < height
      ensures nodes[k] == ProofOf(H, leaves, index)[k]
    {
      StoredEntryIsProofEntry(H, leaves, height, store, index, k);
    }
  }
}
