/**
 The flat Merkle store of go-subtree: one array holding every level above the leaves,
 padded to a power of two with the zero hash, big levels filled by parallel chunks.
 */
module MerkleStore {
  import opened Base
  import opened Powers
  import opened Merkle

  const ROUTINE_SPLIT_SIZE := 1024

  function NodeHashAt(leaves: seq<Hash>, index: nat): Hash {
    if index >= |leaves| then ZERO else leaves[index]
  }

  /** The parent of two entries, where the zero hash means that there is no child. */
  function CalcMerkle(H: Hasher, left: Hash, right: Hash): Hash {
    if left == ZERO then ZERO
    else if right == ZERO then H(left, left)
    else H(left, right)
  }

  /** Entry i of the whole tree: P leaf places first, then the stored levels. */
  function At(leaves: seq<Hash>, P: nat, store: seq<Hash>, i: nat): Hash
    requires i < P + |store|
  {
    if i < P then NodeHashAt(leaves, i) else store[i - P]
  }

  /** Slot j holds the parent of the entries 2j and 2j+1. */
  predicate Filled(H: Hasher, leaves: seq<Hash>, P: nat, store: seq<Hash>, j: nat)
    requires |store| == P - 1 && j < P - 1
  {
    store[j] == CalcMerkle(H, At(leaves, P, store, 2 * j), At(leaves, P, store, 2 * j + 1))
  }

  ghost predicate FilledBelow(H: Hasher, leaves: seq<Hash>, P: nat, store: seq<Hash>, n: int)
    requires |store| == P - 1
  {
    forall j: nat :: j < n && j < P - 1 ==> Filled(H, leaves, P, store, j)
  }

  /** The value of the slot after the given ones. */
  function NextSlot(H: Hasher, leaves: seq<Hash>, P: nat, store: seq<Hash>): Hash
    requires |store| < P - 1
  {
    CalcMerkle(H, At(leaves, P, store, 2 * |store|), At(leaves, P, store, 2 * |store| + 1))
  }

  /** The first n slots, filled one after the other from the left. */
  function FlatStore(H: Hasher, leaves: seq<Hash>, P: nat, n: nat): (store: seq<Hash>)
    requires n <= P - 1
    ensures |store| == n
  {
    if n == 0 then []
    else FlatStore(H, leaves, P, n - 1) + [NextSlot(H, leaves, P, FlatStore(H, leaves, P, n - 1))]
  }

  lemma AtPrefix(leaves: seq<Hash>, P: nat, s: seq<Hash>, t: seq<Hash>, i: nat)
    requires t <= s && i < P + |t|
    ensures At(leaves, P, s, i) == At(leaves, P, t, i)
  {
  }

  /** The equations of a store have one solution, whatever the order the slots were filled in. */
  lemma {:induction false} FilledUnique(H: Hasher, leaves: seq<Hash>, P: nat, store: seq<Hash>, n: nat)
    requires |store| == P - 1 && n <= P - 1
    ensures FilledBelow(H, leaves, P, store, n) <==> store[..n] == FlatStore(H, leaves, P, n)
  {
    if n > 0 {
      var m := n - 1;
      FilledUnique(H, leaves, P, store, m);
      FillsNext(H, leaves, P, store, m);
      FilledBelowStep(H, leaves, P, store, m);
      SnocEqual(store, n, FlatStore(H, leaves, P, m), NextSlot(H, leaves, P, FlatStore(H, leaves, P, m)));
    }
  }

  lemma SnocEqual(s: seq<Hash>, n: nat, t: seq<Hash>, x: Hash)
    requires 0 < n <= |s| && |t| == n - 1
    ensures s[..n] == t + [x] <==> s[..n - 1] == t && s[n - 1] == x
  {
    assert s[..n] == s[..n - 1] + [s[n - 1]];
    assert s[..n][..n - 1] == s[..n - 1] && (t + [x])[..n - 1] == t;
  }

  lemma FilledBelowStep(H: Hasher, leaves: seq<Hash>, P: nat, store: seq<Hash>, m: nat)
    requires |store| == P - 1 && m < P - 1
    ensures FilledBelow(H, leaves, P, store, m + 1) <==>
            FilledBelow(H, leaves, P, store, m) && Filled(H, leaves, P, store, m)
  {
  }

  lemma FillsNext(H: Hasher, leaves: seq<Hash>, P: nat, store: seq<Hash>, m: nat)
    requires |store| == P - 1 && m < P - 1
    ensures Filled(H, leaves, P, store, m) <==> store[m] == NextSlot(H, leaves, P, store[..m])
  {
    AtPrefix(leaves, P, store, store[..m], 2 * m);
    AtPrefix(leaves, P, store, store[..m], 2 * m + 1);
  }

  // ----- Levels inside the flat array

  /** Where the level with 2^m places starts, when the leaves have 2^height places. */
  function LevelStart(height: nat, m: nat): int {
    2 * Pow2(height) - 2 * Pow2(m)
  }

  function Padded(level: seq<Hash>, j: nat): Hash {
    if j < |level| then level[j] else ZERO
  }

  ghost predicate AllNonZero(level: seq<Hash>) {
    forall i :: 0 <= i < |level| ==> level[i] != ZERO
  }

  /** Going up one level, the zero-padded pairing is the duplicate-last pairing. */
  lemma PaddedStep(H: Hasher, level: seq<Hash>, j: nat)
    requires |level| >= 1 && AllNonZero(level)
    ensures CalcMerkle(H, Padded(level, 2 * j), Padded(level, 2 * j + 1)) == Padded(NextLevel(H, level), j)
  {
    NextLevelLength(H, level);
    if 2 * j < |level| {
      NextLevelNode(H, level, j);
    }
  }

  lemma {:induction false} NextLevelNonZero(H: Hasher, level: seq<Hash>)
    requires NeverZero(H)
    ensures AllNonZero(NextLevel(H, level))
    decreases |level|
  {
    if |level| > 1 {
      NextLevelNonZero(H, level[2..]);
    }
  }

  lemma {:induction false} LevelNonZero(H: Hasher, leaves: seq<Hash>, k: nat)
    requires |leaves| >= 1 && AllNonZero(leaves) && NeverZero(H)
    ensures AllNonZero(Level(H, leaves, k))
    decreases k
  {
    if k > 0 {
      NextLevelNonZero(H, leaves);
      LevelNonZero(H, NextLevel(H, leaves), k - 1);
    }
  }

  /** The level with 2^m places of the store is the given level of the tree, zero past its end. */
  ghost predicate HoldsLevel(leaves: seq<Hash>, height: nat, store: seq<Hash>, m: nat, level: seq<Hash>)
    requires m <= height && |store| == Pow2(height) - 1
  {
    forall j: nat :: j < Pow2(m) ==> EntryOfLevel(leaves, height, store, m, j) == Padded(level, j)
  }

  function EntryOfLevel(leaves: seq<Hash>, height: nat, store: seq<Hash>, m: nat, j: nat): Hash
    requires m <= height && |store| == Pow2(height) - 1 && j < Pow2(m)
  {
    LevelInside(height, m, j);
    At(leaves, Pow2(height), store, LevelStart(height, m) + j)
  }

  lemma LevelInside(height: nat, m: nat, j: nat)
    requires m <= height && j < Pow2(m)
    ensures 0 <= LevelStart(height, m) + j < 2 * Pow2(height) - 1
  {
    Pow2Monotone(m, height);
  }

  /** The pair at places 2j and 2j+1 of one level has its parent at place j of the next. */
  lemma ParentEntry(H: Hasher, leaves: seq<Hash>, height: nat, store: seq<Hash>, m: nat, j: nat)
    requires m < height && |store| == Pow2(height) - 1 && j < Pow2(m)
    requires FilledBelow(H, leaves, Pow2(height), store, |store|)
    ensures EntryOfLevel(leaves, height, store, m, j) ==
            CalcMerkle(H, EntryOfLevel(leaves, height, store, m + 1, 2 * j),
                       EntryOfLevel(leaves, height, store, m + 1, 2 * j + 1))
  {
    var P, q := Pow2(height), Pow2(height) - Pow2(m + 1) + j;
    Pow2Monotone(m + 1, height);
    assert Filled(H, leaves, P, store, q);
  }

  lemma LevelUp(H: Hasher, leaves: seq<Hash>, height: nat, store: seq<Hash>, m: nat, level: seq<Hash>)
    requires m < height && |store| == Pow2(height) - 1
    requires FilledBelow(H, leaves, Pow2(height), store, |store|)
    requires |level| >= 1 && AllNonZero(level) && HoldsLevel(leaves, height, store, m + 1, level)
    ensures HoldsLevel(leaves, height, store, m, NextLevel(H, level))
  {
    forall j: nat | j < Pow2(m)
      ensures EntryOfLevel(leaves, height, store, m, j) == Padded(NextLevel(H, level), j)
    {
      ParentEntry(H, leaves, height, store, m, j);
      PaddedStep(H, level, j);
    }
  }

  /** Every level of the store is the level of the tree at that height. */
  lemma {:induction false} StoreHoldsLevel(H: Hasher, leaves: seq<Hash>, height: nat, store: seq<Hash>, k: nat, m: nat)
    requires |leaves| >= 1 && AllNonZero(leaves) && NeverZero(H)
    requires k + m == height && |store| == Pow2(height) - 1
    requires FilledBelow(H, leaves, Pow2(height), store, |store|)
    ensures HoldsLevel(leaves, height, store, m, Level(H, leaves, k))
    decreases k
  {
    if k == 0 {
      LeavesHeld(leaves, height, store);
    } else {
      var below := Level(H, leaves, k - 1);
      LevelStep(H, leaves, k - 1);
      LevelNonZero(H, leaves, k - 1);
      StoreHoldsLevel(H, leaves, height, store, k - 1, m + 1);
      LevelUp(H, leaves, height, store, m, below);
    }
  }

  lemma LeavesHeld(leaves: seq<Hash>, height: nat, store: seq<Hash>)
    requires |store| == Pow2(height) - 1
    ensures HoldsLevel(leaves, height, store, height, leaves)
  {
  }

  // ----- What the builder returns

  /** The store as returned to callers; a single leaf is its own root. */
  function StoreOf(H: Hasher, leaves: seq<Hash>): (store: seq<Hash>)
    ensures |leaves| > 0 ==> |store| > 0
  {
    if |leaves| == 0 then []
    else if |leaves| == 1 then [leaves[0]]
    else
      var P := Pow2(CeilLog2(|leaves|));
      FlatStore(H, leaves, P, P - 1)
  }

  function StoreRoot(H: Hasher, leaves: seq<Hash>): Hash
    requires |leaves| >= 1
  {
    StoreOf(H, leaves)[|StoreOf(H, leaves)| - 1]
  }

  /** A store for two or more leaves: every slot holds the parent of its two children. */
  ghost predicate IsStore(H: Hasher, leaves: seq<Hash>, height: nat, store: seq<Hash>) {
    && |leaves| > 1
    && height == CeilLog2(|leaves|)
    && |store| == Pow2(height) - 1
    && FilledBelow(H, leaves, Pow2(height), store, |store|)
  }

  lemma StoreOfIsStore(H: Hasher, leaves: seq<Hash>)
    requires |leaves| > 1
    ensures IsStore(H, leaves, CeilLog2(|leaves|), StoreOf(H, leaves))
  {
    var P, store := Pow2(CeilLog2(|leaves|)), StoreOf(H, leaves);
    FilledUnique(H, leaves, P, store, P - 1);
    assert store[..P - 1] == store;
  }

  /** Entry j of level k of the built store is node j of that level of the duplicate-last tree,
      and it is the zero hash exactly when j >= ceil(n / 2^k). */
  lemma StoreIsMerkleTree(H: Hasher, leaves: seq<Hash>, height: nat, store: seq<Hash>, k: nat, m: nat, j: nat)
    requires IsStore(H, leaves, height, store) && AllNonZero(leaves) && NeverZero(H)
    requires k + m == height && j < Pow2(m)
    ensures EntryOfLevel(leaves, height, store, m, j) == Padded(Level(H, leaves, k), j)
    ensures EntryOfLevel(leaves, height, store, m, j) == ZERO <==> !(Scale(j, k) < |leaves|)
    ensures j < |Level(H, leaves, k)| <==> Scale(j, k) < |leaves|
  {
    StoreHoldsLevel(H, leaves, height, store, k, m);
    LevelNonZero(H, leaves, k);
    LevelSize(H, leaves, k, j);
  }

  /** The last entry of the store is the root of the simple level-by-level algorithm. */
  lemma StoreRootIsRoot(H: Hasher, leaves: seq<Hash>)
    requires |leaves| >= 1 && AllNonZero(leaves) && NeverZero(H)
    ensures StoreRoot(H, leaves) == Root(H, leaves)
  {
    if |leaves| > 1 {
      var height, store := CeilLog2(|leaves|), StoreOf(H, leaves);
      StoreOfIsStore(H, leaves);
      StoreIsMerkleTree(H, leaves, height, store, height, 0, 0);
      RootIsTopLevel(H, leaves);
      LastEntry(leaves, height, store);
    }
  }

  lemma LastEntry(leaves: seq<Hash>, height: nat, store: seq<Hash>)
    requires height > 0 && |store| == Pow2(height) - 1
    ensures |store| > 0 && EntryOfLevel(leaves, height, store, 0, 0) == store[|store| - 1]
  {
    LevelInside(height, 0, 0);
  }

  // ----- Zero leaves

  /** One step up as the store does it, with any leaves: an unpaired last entry has no right child. */
  function SparseNext(H: Hasher, s: seq<Hash>): (next: seq<Hash>)
    ensures |s| >= 1 ==> |next| >= 1
    ensures |s| > 1 ==> |next| < |s|
  {
    if |s| == 0 then []
    else if |s| == 1 then [CalcMerkle(H, s[0], ZERO)]
    else [CalcMerkle(H, s[0], s[1])] + SparseNext(H, s[2..])
  }

  lemma {:induction false} SparseNextLength(H: Hasher, s: seq<Hash>)
    ensures |SparseNext(H, s)| == (|s| + 1) / 2
    decreases |s|
  {
    if |s| > 1 {
      SparseNextLength(H, s[2..]);
    }
  }

  lemma {:induction false} PaddedSparse(H: Hasher, s: seq<Hash>, j: nat)
    ensures CalcMerkle(H, Padded(s, 2 * j), Padded(s, 2 * j + 1)) == Padded(SparseNext(H, s), j)
    decreases |s|
  {
    if |s| > 1 && j > 0 {
      PaddedSparse(H, s[2..], j - 1);
    }
  }

  function SparseRoot(H: Hasher, s: seq<Hash>): Hash
    requires |s| >= 1
    decreases |s|
  {
    if |s| == 1 then s[0] else SparseRoot(H, SparseNext(H, s))
  }

  function SparseLevel(H: Hasher, s: seq<Hash>, k: nat): (level: seq<Hash>)
    ensures |s| >= 1 ==> |level| >= 1
    decreases k
  {
    if k == 0 then s else SparseLevel(H, SparseNext(H, s), k - 1)
  }

  lemma {:induction false} SparseLevelStep(H: Hasher, s: seq<Hash>, k: nat)
    ensures SparseLevel(H, s, k + 1) == SparseNext(H, SparseLevel(H, s, k))
    decreases k
  {
    if k > 0 {
      SparseLevelStep(H, SparseNext(H, s), k - 1);
    }
  }

  lemma {:induction false} SparseTop(H: Hasher, s: seq<Hash>)
    requires |s| >= 1
    ensures SparseLevel(H, s, CeilLog2(|s|)) == [SparseRoot(H, s)]
    decreases |s|
  {
    CeilLog2Step(|s|);
    SparseNextLength(H, s);
    if |s| > 1 {
      SparseTop(H, SparseNext(H, s));
    }
  }

  /** Every level of the store, with any leaves. */
  lemma {:induction false} StoreHoldsSparse(H: Hasher, leaves: seq<Hash>, height: nat, store: seq<Hash>, k: nat, m: nat)
    requires k + m == height && |store| == Pow2(height) - 1
    requires FilledBelow(H, leaves, Pow2(height), store, |store|)
    ensures HoldsLevel(leaves, height, store, m, SparseLevel(H, leaves, k))
    decreases k
  {
    if k == 0 {
      LeavesHeld(leaves, height, store);
    } else {
      var below := SparseLevel(H, leaves, k - 1);
      SparseLevelStep(H, leaves, k - 1);
      StoreHoldsSparse(H, leaves, height, store, k - 1, m + 1);
      SparseUp(H, leaves, height, store, m, below);
    }
  }

  lemma SparseUp(H: Hasher, leaves: seq<Hash>, height: nat, store: seq<Hash>, m: nat, level: seq<Hash>)
    requires m < height && |store| == Pow2(height) - 1
    requires FilledBelow(H, leaves, Pow2(height), store, |store|)
    requires HoldsLevel(leaves, height, store, m + 1, level)
    ensures HoldsLevel(leaves, height, store, m, SparseNext(H, level))
  {
    forall j: nat | j < Pow2(m)
      ensures EntryOfLevel(leaves, height, store, m, j) == Padded(SparseNext(H, level), j)
    {
      ParentEntry(H, leaves, height, store, m, j);
      PaddedSparse(H, level, j);
    }
  }

  lemma StoreRootIsSparse(H: Hasher, leaves: seq<Hash>)
    requires |leaves| >= 1
    ensures StoreRoot(H, leaves) == SparseRoot(H, leaves)
  {
    if |leaves| > 1 {
      var height, store := CeilLog2(|leaves|), StoreOf(H, leaves);
      StoreOfIsStore(H, leaves);
      StoreHoldsSparse(H, leaves, height, store, height, 0);
      SparseTop(H, leaves);
      LastEntry(leaves, height, store);
      assert EntryOfLevel(leaves, height, store, 0, 0) == Padded([SparseRoot(H, leaves)], 0);
    }
  }

  /** The children in the store, where a zero right child is replaced by the left one. */
  function SparseChildren(s: seq<Hash>, m: nat): (Hash, Hash)
    requires 2 * m < |s|
  {
    (s[2 * m], if Padded(s, 2 * m + 1) != ZERO then Padded(s, 2 * m + 1) else s[2 * m])
  }

  predicate PairsCollide(H: Hasher, a: (Hash, Hash), b: (Hash, Hash)) {
    Collision(H, a.0, a.1, b.0, b.1)
  }

  /** Two different pairs of one level with one parent hash: two of the tree's, or the store's
      and the tree's at one place. */
  ghost predicate LevelCollision(H: Hasher, s: seq<Hash>, t: seq<Hash>)
    requires |s| == |t|
  {
    || (exists i, j ::
         0 <= i && 0 <= j && 2 * i < |t| && 2 * j < |t| && PairsCollide(H, Children(t, i), Children(t, j)))
    || (exists m :: 0 <= m && 2 * m < |t| && PairsCollide(H, SparseChildren(s, m), Children(t, m)))
  }

  /** Some level of building the two trees exhibits a collision. */
  ghost predicate StoreCollision(H: Hasher, s: seq<Hash>, t: seq<Hash>)
    requires |s| == |t|
    decreases |t|
  {
    |t| > 1 && (LevelCollision(H, s, t) || StoreCollisionAbove(H, s, t))
  }

  ghost predicate StoreCollisionAbove(H: Hasher, s: seq<Hash>, t: seq<Hash>)
    requires |s| == |t| > 1
    decreases |t|, 0
  {
    NextLevelLength(H, t);
    SparseNextLength(H, s);
    StoreCollision(H, SparseNext(H, s), NextLevel(H, t))
  }

  /** Equal nodes of the tree are both absent or both present in the store. */
  ghost predicate SameGaps(s: seq<Hash>, t: seq<Hash>)
    requires |s| == |t|
  {
    forall i, j :: 0 <= i < |t| && 0 <= j < |t| && t[i] == t[j] && s[i] == ZERO ==> s[j] == ZERO
  }

  predicate Apart(s: seq<Hash>, t: seq<Hash>)
    requires |s| == |t|
  {
    exists j :: 0 <= j < |t| && s[j] != t[j]
  }

  lemma SparseNode(H: Hasher, s: seq<Hash>, t: seq<Hash>, m: nat)
    requires |s| == |t| && 2 * m < |t| && NeverZero(H)
    ensures m < |NextLevel(H, t)| == |SparseNext(H, s)|
    ensures NextLevel(H, t)[m] == H(Children(t, m).0, Children(t, m).1) != ZERO
    ensures s[2 * m] == ZERO ==> SparseNext(H, s)[m] == ZERO
    ensures s[2 * m] != ZERO ==> SparseNext(H, s)[m] == H(SparseChildren(s, m).0, SparseChildren(s, m).1) != ZERO
  {
    NextLevelLength(H, t);
    SparseNextLength(H, s);
    NextLevelNode(H, t, m);
    PaddedSparse(H, s, m);
  }

  lemma GapsRise(H: Hasher, s: seq<Hash>, t: seq<Hash>)
    requires |s| == |t| >= 1 && NeverZero(H) && SameGaps(s, t) && !LevelCollision(H, s, t)
    ensures |SparseNext(H, s)| == |NextLevel(H, t)| && SameGaps(SparseNext(H, s), NextLevel(H, t))
  {
    NextLevelLength(H, t);
    SparseNextLength(H, s);
    var s', t' := SparseNext(H, s), NextLevel(H, t);
    forall i, j | 0 <= i < |t'| && 0 <= j < |t'| && t'[i] == t'[j] && s'[i] == ZERO
      ensures s'[j] == ZERO
    {
      SparseNode(H, s, t, i);
      SparseNode(H, s, t, j);
      assert !PairsCollide(H, Children(t, i), Children(t, j));
    }
  }

  lemma DifferenceRises(H: Hasher, s: seq<Hash>, t: seq<Hash>, j: nat)
    requires |s| == |t| && j < |t| && s[j] != t[j] && NeverZero(H) && SameGaps(s, t) && !LevelCollision(H, s, t)
    ensures |SparseNext(H, s)| == |NextLevel(H, t)| && Apart(SparseNext(H, s), NextLevel(H, t))
  {
    var m := j / 2;
    SparseNode(H, s, t, m);
    assert !PairsCollide(H, SparseChildren(s, m), Children(t, m));
    assert j == 2 * m || j == 2 * m + 1;
    assert SparseNext(H, s)[m] != NextLevel(H, t)[m];
  }

  lemma {:induction false} ApartToTheRoot(H: Hasher, s: seq<Hash>, t: seq<Hash>)
    requires |s| == |t| >= 1 && NeverZero(H) && SameGaps(s, t) && Apart(s, t) && !StoreCollision(H, s, t)
    ensures SparseRoot(H, s) != Root(H, t)
    decreases |t|
  {
    if |t| > 1 {
      var j :| 0 <= j < |t| && s[j] != t[j];
      DifferenceRises(H, s, t, j);
      GapsRise(H, s, t);
      assert !StoreCollisionAbove(H, s, t);
      ApartToTheRoot(H, SparseNext(H, s), NextLevel(H, t));
    }
  }

  /** A zero leaf makes the two trees differ one level up. */
  lemma ZeroLeafRises(H: Hasher, leaves: seq<Hash>, z: nat)
    requires z < |leaves| && leaves[z] == ZERO && NeverZero(H) && !LevelCollision(H, leaves, leaves)
    ensures |SparseNext(H, leaves)| == |NextLevel(H, leaves)| && Apart(SparseNext(H, leaves), NextLevel(H, leaves))
  {
    var m := z / 2;
    SparseNode(H, leaves, leaves, m);
    assert !PairsCollide(H, SparseChildren(leaves, m), Children(leaves, m));
    assert z == 2 * m || z == 2 * m + 1;
    assert SparseNext(H, leaves)[m] != NextLevel(H, leaves)[m];
  }

  /** For two leaves or more the store's root is the Merkle root if and only if no leaf is zero,
      unless building the two trees exhibits a collision. */
  lemma {:induction false} StoreRootExact(H: Hasher, leaves: seq<Hash>)
    requires |leaves| >= 2 && NeverZero(H)
    ensures (StoreRoot(H, leaves) == Root(H, leaves) <==> AllNonZero(leaves)) || StoreCollision(H, leaves, leaves)
  {
    if AllNonZero(leaves) {
      StoreRootIsRoot(H, leaves);
    } else if !StoreCollision(H, leaves, leaves) {
      var z :| 0 <= z < |leaves| && leaves[z] == ZERO;
      ZeroLeafRises(H, leaves, z);
      GapsRise(H, leaves, leaves);
      assert !StoreCollisionAbove(H, leaves, leaves);
      ApartToTheRoot(H, SparseNext(H, leaves), NextLevel(H, leaves));
      StoreRootIsSparse(H, leaves);
    }
  }

  /** A zero leaf is taken for a missing one: the pair (a, 0) is hashed as (a, a). */
  lemma ZeroLeafIsTakenAsMissing(H: Hasher, a: Hash)
    requires a != ZERO
    ensures StoreRoot(H, [a, ZERO]) == H(a, a)
    ensures Root(H, [a, ZERO]) == H(a, ZERO)
  {
    StoreRootIsSparse(H, [a, ZERO]);
    assert SparseNext(H, [a, ZERO]) == [H(a, a)];
    assert NextLevel(H, [a, ZERO]) == [H(a, ZERO)];
  }

  // ----- The builder

  /** The children of slot i/2: two leaves, or two slots of the level below. */
  function MerklePair(leaves: seq<Hash>, P: nat, store: seq<Hash>, i: nat): (Hash, Hash)
    requires i + 1 < P + |store| && (i + 1 < P || i >= P)
  {
    if i < P then (NodeHashAt(leaves, i), NodeHashAt(leaves, i + 1))
    else (store[i - P], store[i - P + 1])
  }

  /** The store after one goroutine has written the parent of the pair at 2q. */
  function WriteParent(H: Hasher, leaves: seq<Hash>, P: nat, store: seq<Hash>, q: nat): (after: seq<Hash>)
    requires |store| == P - 1 && P % 2 == 0 && q < P - 1
    ensures |after| == |store|
  {
    var (l, r) := MerklePair(leaves, P, store, 2 * q);
    store[q := CalcMerkle(H, l, r)]
  }

  /** Slot j belongs to the level whose slots start at `base`: its children lie below `base`. */
  predicate InLevel(P: nat, base: nat, j: nat) {
    base <= j < P - 1 && 2 * j + 1 < P + base
  }

  lemma SameChildren(leaves: seq<Hash>, P: nat, store: seq<Hash>, after: seq<Hash>, base: nat, j: nat)
    requires |store| == |after| == P - 1 && j < P - 1 && 2 * j + 1 < P + base
    requires forall n :: 0 <= n < base && n < P - 1 ==> store[n] == after[n]
    ensures At(leaves, P, store, 2 * j) == At(leaves, P, after, 2 * j)
    ensures At(leaves, P, store, 2 * j + 1) == At(leaves, P, after, 2 * j + 1)
  {
  }

  /** Writing one parent fills its slot and keeps every filled slot of the level and below. */
  lemma WriteKeepsFilled(H: Hasher, leaves: seq<Hash>, P: nat, store: seq<Hash>, base: nat, q: nat, j: nat)
    requires |store| == P - 1 && P % 2 == 0 && InLevel(P, base, q)
    requires j < base || InLevel(P, base, j)
    requires j == q || (j < P - 1 && Filled(H, leaves, P, store, j))
    ensures Filled(H, leaves, P, WriteParent(H, leaves, P, store, q), j)
  {
    SameChildren(leaves, P, store, WriteParent(H, leaves, P, store, q), base, j);
  }

  ghost predicate FilledFrom(H: Hasher, leaves: seq<Hash>, P: nat, store: seq<Hash>, lo: nat, hi: int)
    requires |store| == P - 1
  {
    forall j: nat :: lo <= j < hi && j < P - 1 ==> Filled(H, leaves, P, store, j)
  }

  /** The pairs at merkleFrom, merkleFrom+2, ... below merkleTo, one after the other. */
  method CalcMerkles(H: Hasher, leaves: seq<Hash>, merkleFrom: nat, merkleTo: nat, P: nat,
                     merkles: array<Hash>, ghost base: nat)
    requires merkles.Length == P - 1 && P % 2 == 0
    requires merkleFrom % 2 == 0 && 2 * base <= merkleFrom
    requires merkleTo < P + base && merkleTo <= 2 * P - 3
    requires FilledBelow(H, leaves, P, merkles[..], base)
    modifies merkles
    ensures FilledBelow(H, leaves, P, merkles[..], base)
    ensures FilledFrom(H, leaves, P, merkles[..], merkleFrom / 2, (merkleTo + 1) / 2)
  {
    var i := merkleFrom;
    while i < merkleTo
      invariant merkleFrom <= i && i % 2 == 0
      invariant FilledBelow(H, leaves, P, merkles[..], base)
      invariant FilledFrom(H, leaves, P, merkles[..], merkleFrom / 2, i / 2)
    {
      FillSlot(H, leaves, i, P, merkles, base);
      i := i + 2;
    }
  }

  /** One parent write, as a goroutine does it. */
  method FillSlot(H: Hasher, leaves: seq<Hash>, i: nat, P: nat, merkles: array<Hash>, ghost base: nat)
    requires merkles.Length == P - 1 && P % 2 == 0 && i % 2 == 0 && InLevel(P, base, i / 2)
    requires FilledBelow(H, leaves, P, merkles[..], base)
    modifies merkles
    ensures merkles[..] == WriteParent(H, leaves, P, old(merkles[..]), i / 2)
    ensures FilledBelow(H, leaves, P, merkles[..], base)
    ensures Filled(H, leaves, P, merkles[..], i / 2)
    ensures forall j: nat :: InLevel(P, base, j) && Filled(H, leaves, P, old(merkles[..]), j) ==>
                             Filled(H, leaves, P, merkles[..], j)
  {
    ghost var before := merkles[..];
    var left, right;
    if i < P {
      left, right := NodeHashAt(leaves, i), NodeHashAt(leaves, i + 1);
    } else {
      left, right := merkles[i - P], merkles[i - P + 1];
    }
    merkles[i / 2] := CalcMerkle(H, left, right);
    assert merkles[..] == WriteParent(H, leaves, P, before, i / 2);
    forall j: nat | (j < base && j < P - 1) || (InLevel(P, base, j) && (j == i / 2 || Filled(H, leaves, P, before, j)))
      ensures Filled(H, leaves, P, merkles[..], j)
    {
      WriteKeepsFilled(H, leaves, P, before, base, i / 2, j);
    }
  }

  // ----- Parallel chunks

  function ChunkStart(merkleFrom: nat, t: nat): nat {
    merkleFrom + ROUTINE_SPLIT_SIZE * t
  }

  function ChunkEnd(merkleFrom: nat, merkleTo: nat, t: nat): nat {
    var end := merkleFrom + ROUTINE_SPLIT_SIZE * t + ROUTINE_SPLIT_SIZE;
    if end < merkleTo then end else merkleTo
  }

  /** What is left to do: the distance of every cursor from the end of the level. */
  ghost function Slack(cursor: seq<nat>, limit: nat): nat {
    if cursor == [] then 0
    else (if cursor[0] <= limit then limit - cursor[0] else 0) + Slack(cursor[1..], limit)
  }

  lemma {:induction false} SlackDrops(cursor: seq<nat>, t: nat, v: nat, limit: nat)
    requires t < |cursor| && cursor[t] < v <= limit
    ensures Slack(cursor[t := v], limit) < Slack(cursor, limit)
  {
    if t == 0 {
      assert cursor[0 := v][1..] == cursor[1..];
    } else {
      assert cursor[t := v][1..] == cursor[1..][t - 1 := v];
      SlackDrops(cursor[1..], t - 1, v, limit);
    }
  }

  /** The goroutine of chunk t has filled the parents of its pairs up to its cursor. */
  ghost predicate ChunkProgress(H: Hasher, leaves: seq<Hash>, P: nat, store: seq<Hash>,
                                merkleFrom: nat, merkleTo: nat, t: nat, cursor: nat)
    requires |store| == P - 1
  {
    && ChunkStart(merkleFrom, t) <= cursor <= merkleTo + 1
    && cursor % 2 == 0
    && FilledFrom(H, leaves, P, store, ChunkStart(merkleFrom, t) / 2, cursor / 2)
  }

  lemma ChunksCover(H: Hasher, leaves: seq<Hash>, P: nat, store: seq<Hash>,
                    merkleFrom: nat, merkleTo: nat, cursor: seq<nat>, j: nat)
    requires |store| == P - 1 && j < P - 1 && merkleFrom % 2 == 0 && merkleFrom <= 2 * j < merkleTo
    requires merkleTo <= merkleFrom + ROUTINE_SPLIT_SIZE * |cursor|
    requires forall t: nat :: t < |cursor| ==>
      ChunkProgress(H, leaves, P, store, merkleFrom, merkleTo, t, cursor[t]) &&
      ChunkEnd(merkleFrom, merkleTo, t) <= cursor[t]
    ensures Filled(H, leaves, P, store, j)
  {
    var t := (2 * j - merkleFrom) / ROUTINE_SPLIT_SIZE;
    assert ChunkStart(merkleFrom, t) <= 2 * j < ChunkEnd(merkleFrom, merkleTo, t);
    assert ChunkProgress(H, leaves, P, store, merkleFrom, merkleTo, t, cursor[t]);
  }

  /** Every goroutine is somewhere in its chunk. */
  ghost predicate AllProgress(H: Hasher, leaves: seq<Hash>, P: nat, store: seq<Hash>,
                              merkleFrom: nat, merkleTo: nat, cursor: seq<nat>)
    requires |store| == P - 1
  {
    forall t: nat :: t < |cursor| ==> ChunkProgress(H, leaves, P, store, merkleFrom, merkleTo, t, cursor[t])
  }

  function ChunkCount(merkleFrom: nat, merkleTo: nat): (n: nat)
    requires merkleFrom <= merkleTo
    ensures merkleTo <= merkleFrom + ROUTINE_SPLIT_SIZE * n
    ensures forall t: nat :: t < n ==> ChunkStart(merkleFrom, t) < merkleTo
  {
    (merkleTo - merkleFrom + ROUTINE_SPLIT_SIZE - 1) / ROUTINE_SPLIT_SIZE
  }

  function ChunkStarts(merkleFrom: nat, merkleTo: nat): (cursor: seq<nat>)
    requires merkleFrom <= merkleTo
    ensures |cursor| == ChunkCount(merkleFrom, merkleTo)
  {
    seq(ChunkCount(merkleFrom, merkleTo), t requires 0 <= t < ChunkCount(merkleFrom, merkleTo) =>
        ChunkStart(merkleFrom, t))
  }

  lemma NoProgress(H: Hasher, leaves: seq<Hash>, P: nat, store: seq<Hash>, merkleFrom: nat, merkleTo: nat)
    requires |store| == P - 1 && merkleFrom <= merkleTo && merkleFrom % 2 == 0
    ensures AllProgress(H, leaves, P, store, merkleFrom, merkleTo, ChunkStarts(merkleFrom, merkleTo))
  {
  }

  /** When every goroutine is done the whole level is filled. */
  lemma AllDone(H: Hasher, leaves: seq<Hash>, P: nat, store: seq<Hash>,
                merkleFrom: nat, merkleTo: nat, base: nat, cursor: seq<nat>)
    requires |store| == P - 1 && merkleFrom == 2 * base <= merkleTo && |cursor| == ChunkCount(merkleFrom, merkleTo)
    requires AllProgress(H, leaves, P, store, merkleFrom, merkleTo, cursor)
    requires forall t :: 0 <= t < |cursor| ==> ChunkEnd(merkleFrom, merkleTo, t) <= cursor[t]
    ensures FilledFrom(H, leaves, P, store, base, (merkleTo + 1) / 2)
  {
    forall j: nat | base <= j < (merkleTo + 1) / 2 && j < P - 1
      ensures Filled(H, leaves, P, store, j)
    {
      ChunksCover(H, leaves, P, store, merkleFrom, merkleTo, cursor, j);
    }
  }

  /** One goroutine per chunk of 1024 entries; a scheduler that may run any of them next.
      Whatever it chooses, every slot of the level ends up filled. */
  method CalcMerklesInParallel(H: Hasher, leaves: seq<Hash>, merkleFrom: nat, merkleTo: nat, P: nat,
                               merkles: array<Hash>, ghost base: nat)
    requires merkles.Length == P - 1 && P % 2 == 0
    requires merkleFrom == 2 * base <= merkleTo
    requires merkleTo < P + base && merkleTo <= 2 * P - 3
    requires FilledBelow(H, leaves, P, merkles[..], base)
    modifies merkles
    ensures FilledBelow(H, leaves, P, merkles[..], base)
    ensures FilledFrom(H, leaves, P, merkles[..], base, (merkleTo + 1) / 2)
  {
    var cursor: seq<nat> := ChunkStarts(merkleFrom, merkleTo);
    NoProgress(H, leaves, P, merkles[..], merkleFrom, merkleTo);
    while exists t :: 0 <= t < |cursor| && cursor[t] < ChunkEnd(merkleFrom, merkleTo, t)
      invariant |cursor| == ChunkCount(merkleFrom, merkleTo)
      invariant FilledBelow(H, leaves, P, merkles[..], base)
      invariant AllProgress(H, leaves, P, merkles[..], merkleFrom, merkleTo, cursor)
      decreases Slack(cursor, merkleTo + 1)
    {
      var t :| 0 <= t < |cursor| && cursor[t] < ChunkEnd(merkleFrom, merkleTo, t);
      SlackDrops(cursor, t, cursor[t] + 2, merkleTo + 1);
      cursor := StepChunk(H, leaves, merkleFrom, merkleTo, P, merkles, base, cursor, t);
    }
    AllDone(H, leaves, P, merkles[..], merkleFrom, merkleTo, base, cursor);
  }

  method StepChunk(H: Hasher, leaves: seq<Hash>, merkleFrom: nat, merkleTo: nat, P: nat,
                   merkles: array<Hash>, ghost base: nat, cursor: seq<nat>, t: nat)
    returns (next: seq<nat>)
    requires merkles.Length == P - 1 && P % 2 == 0
    requires merkleFrom == 2 * base && merkleTo < P + base && merkleTo <= 2 * P - 3
    requires FilledBelow(H, leaves, P, merkles[..], base)
    requires t < |cursor| && cursor[t] < merkleTo
    requires AllProgress(H, leaves, P, merkles[..], merkleFrom, merkleTo, cursor)
    modifies merkles
    ensures FilledBelow(H, leaves, P, merkles[..], base)
    ensures next == cursor[t := cursor[t] + 2]
    ensures AllProgress(H, leaves, P, merkles[..], merkleFrom, merkleTo, next)
  {
    FillSlot(H, leaves, cursor[t], P, merkles, base);
    next := cursor[t := cursor[t] + 2];
    forall u: nat | u < |next|
      ensures ChunkProgress(H, leaves, P, merkles[..], merkleFrom, merkleTo, u, next[u])
    {
      assert ChunkProgress(H, leaves, P, old(merkles[..]), merkleFrom, merkleTo, u, cursor[u]);
    }
  }

  /** A list of slots of the level that starts at `base`, in the order in which they are written. */
  ghost predicate Schedule(P: nat, base: nat, order: seq<nat>) {
    forall i :: 0 <= i < |order| ==> base <= order[i] < P - 1 && 2 * order[i] + 1 < P + base
  }

  /** The store after the given parent writes, in the given order. */
  ghost function RunWrites(H: Hasher, leaves: seq<Hash>, P: nat, store: seq<Hash>, base: nat,
                           order: seq<nat>): (after: seq<Hash>)
    requires |store| == P - 1 && P % 2 == 0 && Schedule(P, base, order)
    ensures |after| == |store|
    decreases |order|
  {
    if order == [] then store
    else RunWrites(H, leaves, P, WriteParent(H, leaves, P, store, order[0]), base, order[1..])
  }

  lemma {:induction false} WrittenSlot(H: Hasher, leaves: seq<Hash>, P: nat, store: seq<Hash>, base: nat,
                                       order: seq<nat>, j: nat)
    requires |store| == P - 1 && P % 2 == 0 && j < P - 1
    requires Schedule(P, base, order)
    ensures RunWrites(H, leaves, P, store, base, order)[j] ==
            if j in order
            then CalcMerkle(H, At(leaves, P, store, 2 * j), At(leaves, P, store, 2 * j + 1))
            else store[j]
    decreases |order|
  {
    if order != [] {
      var q := order[0];
      assert InLevel(P, base, q);
      var after := WriteParent(H, leaves, P, store, q);
      if j in order {
        assert InLevel(P, base, j);
        SameChildren(leaves, P, store, after, base, j);
      }
      WrittenSlot(H, leaves, P, after, base, order[1..], j);
      assert j in order <==> j == q || j in order[1..];
    }
  }

  /** Any two schedules that write the same slots of one level leave the same store. */
  lemma SchedulesAgree(H: Hasher, leaves: seq<Hash>, P: nat, store: seq<Hash>, base: nat, p: seq<nat>, q: seq<nat>)
    requires |store| == P - 1 && P % 2 == 0
    requires Schedule(P, base, p) && Schedule(P, base, q)
    requires forall j: nat :: j in p <==> j in q
    ensures RunWrites(H, leaves, P, store, base, p) == RunWrites(H, leaves, P, store, base, q)
  {
    forall j: nat | j < P - 1
      ensures RunWrites(H, leaves, P, store, base, p)[j] == RunWrites(H, leaves, P, store, base, q)[j]
    {
      WrittenSlot(H, leaves, P, store, base, p, j);
      WrittenSlot(H, leaves, P, store, base, q, j);
    }
  }

  // ----- The whole store

  /** One level, with 2^m entries: in one piece, or in parallel when it is large. */
  method FillLevel(H: Hasher, leaves: seq<Hash>, height: nat, m: nat, P: nat, merkleFrom: nat,
                   merkleTo: nat, merkles: array<Hash>)
    requires height > 0 && m <= height && P == Pow2(height) && merkles.Length == P - 1
    requires merkleFrom == 2 * (P - Pow2(m)) && merkleTo == merkleFrom + Pow2(m) - 1
    requires FilledBelow(H, leaves, P, merkles[..], P - Pow2(m))
    modifies merkles
    ensures FilledBelow(H, leaves, P, merkles[..], if m == 0 then P - 1 else P - Pow2(m - 1))
  {
    ghost var base := P - Pow2(m);
    if merkleTo - merkleFrom > ROUTINE_SPLIT_SIZE {
      CalcMerklesInParallel(H, leaves, merkleFrom, merkleTo, P, merkles, base);
    } else if m > 0 {
      CalcMerkles(H, leaves, merkleFrom, merkleTo, P, merkles, base);
    }
  }

  /** Fills the store level by level. Whatever the scheduling, the result is the sequential store. */
  method BuildMerkleTreeStore(H: Hasher, leaves: seq<Hash>) returns (store: seq<Hash>)
    ensures store == StoreOf(H, leaves)
  {
    if |leaves| == 0 {
      return [];
    }
    var P := NextPowerOfTwo(|leaves|);
    NextIsCeil(|leaves|);
    var merkles := new Hash[P - 1](_ => ZERO);
    if 2 * P - 1 == 1 {
      CeilLog2Bounds(|leaves|);
      return [leaves[0]];
    }
    FillLevels(H, leaves, CeilLog2(|leaves|), P, merkles);
    FilledUnique(H, leaves, P, merkles[..], P - 1);
    assert merkles[..][..P - 1] == merkles[..];
    return merkles[..];
  }

  method FillLevels(H: Hasher, leaves: seq<Hash>, height: nat, P: nat, merkles: array<Hash>)
    requires height > 0 && P == Pow2(height) && merkles.Length == P - 1
    modifies merkles
    ensures FilledBelow(H, leaves, P, merkles[..], P - 1)
  {
    var merkleFrom := 0;
    for h := 0 to height + 1
      invariant merkleFrom == if h <= height then 2 * (P - Pow2(height - h)) else 2 * P - 1
      invariant FilledBelow(H, leaves, P, merkles[..], if h <= height then P - Pow2(height - h) else P - 1)
    {
      var merkleTo := merkleFrom + Pow2(height - h) - 1;
      Pow2Monotone(height - h, height);
      FillLevel(H, leaves, height, height - h, P, merkleFrom, merkleTo, merkles);
      merkleFrom := merkleTo + 1;
    }
  }
}
