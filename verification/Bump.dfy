/**
 BUMP (BRC-74) Merkle paths: evaluating a path from a leaf, with missing siblings recomputed
 from their children.
 */
module Bumps {
  import opened Base
  import opened Powers
  import opened Merkle

  datatype Leaf = Leaf(hash: Hash, txId: bool, duplicate: bool, offset: u64)

  datatype Bump = Bump(blockHeight: u64, path: seq<seq<Leaf>>)

  datatype BumpError = MerkleRootMismatch | LeafNotComputable | ChildNotFound

  // ----- Evaluating a path

  function OffsetPair(offset: u64): u64 {
    if offset % 2 == 0 then offset + 1 else offset - 1
  }

  /** The first leaf with this offset. */
  function FindLeaf(offset: u64, level: seq<Leaf>): (found: Option<Leaf>)
    ensures found.Some? ==> found.value in level && found.value.offset == offset
    ensures found.None? ==> forall f :: f in level ==> f.offset != offset
  {
    if level == [] then None
    else if level[0].offset == offset then Some(level[0])
    else FindLeaf(offset, level[1..])
  }

  lemma {:induction false} FindsFirst(offset: u64, level: seq<Leaf>) returns (i: nat)
    requires FindLeaf(offset, level).Some?
    ensures i < |level| && FindLeaf(offset, level) == Some(level[i])
    ensures forall j :: 0 <= j < i ==> level[j].offset != offset
  {
    if level[0].offset == offset {
      i := 0;
    } else {
      i := FindsFirst(offset, level[1..]);
      i := i + 1;
    }
  }

  /** Left and right child of a pair; a duplicate stands for the hash of its neighbour. */
  function PrepareNodes(base: Leaf, offset: u64, pair: Leaf, newOffset: u64): (Hash, Hash) {
    var baseHash := if base.duplicate then pair.hash else base.hash;
    var pairHash := if pair.duplicate then base.hash else pair.hash;
    if newOffset > offset then (baseHash, pairHash) else (pairHash, baseHash)
  }

  function ParentOf(H: Hasher, base: Leaf, offset: u64, pair: Leaf, newOffset: u64): Hash {
    var nodes := PrepareNodes(base, offset, pair, newOffset);
    H(nodes.0, nodes.1)
  }

  function CalculateFromChildren(H: Hasher, offset: u64, below: seq<Leaf>): Result<Leaf, BumpError> {
    var child := WrapAdd(offset, offset);
    var childPair := WrapAdd(child, 1);
    var leaf := FindLeaf(child, below);
    var pair := FindLeaf(childPair, below);
    if leaf.None? || pair.None? then Err(ChildNotFound)
    else Ok(Leaf(ParentOf(H, leaf.value, offset, pair.value, childPair), false, false, offset))
  }

  /** The other node of the pair at level i: given, or computed from the level below. */
  function PairLeaf(H: Hasher, path: seq<seq<Leaf>>, i: nat, offset: u64): Result<Leaf, BumpError>
    requires i < |path|
  {
    var newOffset := OffsetPair(offset);
    var given := FindLeaf(newOffset, path[i]);
    if given.Some? then Ok(given.value)
    else if i == 0 then Err(LeafNotComputable)
    else CalculateFromChildren(H, newOffset, path[i - 1])
  }

  function Above(H: Hasher, base: Leaf, pair: Leaf): Leaf {
    Leaf(ParentOf(H, base, base.offset, pair, OffsetPair(base.offset)), false, false, base.offset / 2)
  }

  /** Climbing from a node of level i to the top. */
  function Climb(H: Hasher, path: seq<seq<Leaf>>, i: nat, base: Leaf): Result<Hash, BumpError>
    requires i <= |path|
    decreases |path| - i
  {
    if i == |path| then Ok(base.hash)
    else
      match PairLeaf(H, path, i, base.offset)
      case Err(e) => Err(e)
      case Ok(pair) => Climb(H, path, i + 1, Above(H, base, pair))
  }

  method FindLeafByOffset(offset: u64, level: seq<Leaf>) returns (found: Option<Leaf>)
    ensures found == FindLeaf(offset, level)
  {
    for i := 0 to |level|
      invariant FindLeaf(offset, level) == FindLeaf(offset, level[i..])
    {
      if level[i].offset == offset {
        return Some(level[i]);
      }
      assert level[i..][1..] == level[i + 1..];
    }
    return None;
  }

  /** The root above one leaf. */
  method CalculatePathRoot(H: Hasher, baseLeaf: Leaf, path: seq<seq<Leaf>>) returns (root: Result<Hash, BumpError>)
    ensures root == Climb(H, path, 0, baseLeaf)
  {
    var base := baseLeaf;
    var calculatedHash := base.hash;
    var offset := base.offset;
    for i := 0 to |path|
      invariant base.offset == offset && base.hash == calculatedHash
      invariant Climb(H, path, i, base) == Climb(H, path, 0, baseLeaf)
    {
      var newOffset := OffsetPair(offset);
      var pair := FindLeafByOffset(newOffset, path[i]);
      if pair.None? {
        if i == 0 {
          return Err(LeafNotComputable);
        }
        var computed := CalculateFromChildren(H, newOffset, path[i - 1]);
        if computed.Err? {
          return Err(computed.error);
        }
        pair := Some(computed.value);
      }
      var nodes := PrepareNodes(base, offset, pair.value, newOffset);
      calculatedHash := H(nodes.0, nodes.1);
      offset := offset / 2;
      base := Leaf(calculatedHash, false, false, offset);
    }
    return Ok(calculatedHash);
  }

  // ----- All transaction leaves

  /** The leaves of the bottom level that stand for transactions of interest. */
  predicate IsTx(bump: Bump, f: Leaf)
    requires |bump.path| > 0
  {
    f in bump.path[0] && f.txId
  }

  /** One root above all transaction leaves, if there are any and all paths agree. */
  method CalculateMerkleRoot(H: Hasher, bump: Bump) returns (root: Result<Option<Hash>, BumpError>)
    requires |bump.path| > 0
    ensures root == Ok(None) <==> forall f :: f in bump.path[0] ==> !f.txId
    ensures root.Ok? && root.value.Some? ==>
              && (exists f :: IsTx(bump, f))
              && forall f :: IsTx(bump, f) ==> Climb(H, bump.path, 0, f) == Ok(root.value.value)
    ensures root.Err? ==>
              || (exists f :: IsTx(bump, f) && Climb(H, bump.path, 0, f) == Err(root.error))
              || (root.error == MerkleRootMismatch
                 && exists f, g :: IsTx(bump, f) && IsTx(bump, g) && Differ(H, bump, f, g))
  {
    var merkleRoot: Option<Hash> := None;
    ghost var first := Leaf(ZERO, false, false, 0);
    for i := 0 to |bump.path[0]|
      invariant merkleRoot.Some? ==> IsTx(bump, first) && Climb(H, bump.path, 0, first) == Ok(merkleRoot.value)
      invariant forall j :: 0 <= j < i ==> LeafAgrees(H, bump, bump.path[0][j], merkleRoot)
    {
      var f := bump.path[0][i];
      if f.txId {
        var calculated := CalculatePathRoot(H, f, bump.path);
        assert IsTx(bump, f);
        if calculated.Err? {
          return Err(calculated.error);
        }
        if merkleRoot.None? {
          merkleRoot, first := Some(calculated.value), f;
        } else if calculated.value != merkleRoot.value {
          assert Differ(H, bump, f, first);
          return Err(MerkleRootMismatch);
        }
      }
    }
    forall f | f in bump.path[0]
      ensures LeafAgrees(H, bump, f, merkleRoot)
    {
      var j :| 0 <= j < |bump.path[0]| && bump.path[0][j] == f;
    }
    return Ok(merkleRoot);
  }

  /** A transaction leaf evaluates to the root found so far. */
  predicate LeafAgrees(H: Hasher, bump: Bump, f: Leaf, root: Option<Hash>) {
    f.txId ==> root.Some? && Climb(H, bump.path, 0, f) == Ok(root.value)
  }

  predicate Differ(H: Hasher, bump: Bump, f: Leaf, g: Leaf) {
    && Climb(H, bump.path, 0, f).Ok? && Climb(H, bump.path, 0, g).Ok?
    && Climb(H, bump.path, 0, f) != Climb(H, bump.path, 0, g)
  }

  // ----- When a path can be evaluated

  predicate Given(level: seq<Leaf>, offset: nat) {
    exists f :: f in level && f.offset == offset
  }

  /** The sibling of the node is given, or both of its children are. */
  predicate PairKnown(path: seq<seq<Leaf>>, i: nat, offset: nat)
    requires i < |path|
  {
    var pair := if offset % 2 == 0 then offset + 1 else offset - 1;
    Given(path[i], pair) || (i > 0 && Given(path[i - 1], 2 * pair) && Given(path[i - 1], 2 * pair + 1))
  }

  lemma FindIffGiven(offset: u64, level: seq<Leaf>)
    ensures FindLeaf(offset, level).Some? <==> Given(level, offset)
  {
  }

  lemma PairKnownIff(H: Hasher, path: seq<seq<Leaf>>, i: nat, offset: u64)
    requires i < |path| && (i > 0 ==> offset < TWO64 / 2)
    ensures PairLeaf(H, path, i, offset).Ok? <==> PairKnown(path, i, offset)
  {
    var pair := OffsetPair(offset);
    FindIffGiven(pair, path[i]);
    if i > 0 {
      FindIffGiven(WrapAdd(pair, pair), path[i - 1]);
      FindIffGiven(WrapAdd(WrapAdd(pair, pair), 1), path[i - 1]);
    }
  }

  /** The sibling is known d levels above the node at level i. */
  predicate KnownAt(path: seq<seq<Leaf>>, i: nat, offset: nat, d: nat)
    requires i + d < |path|
  {
    PairKnown(path, i + d, Shifted(offset, d))
  }

  ghost predicate AllKnown(path: seq<seq<Leaf>>, i: nat, offset: nat)
    requires i <= |path|
  {
    forall d :: 0 <= d < |path| - i ==> KnownAt(path, i, offset, d)
  }

  lemma KnownAbove(path: seq<seq<Leaf>>, i: nat, offset: nat)
    requires i < |path|
    ensures AllKnown(path, i, offset) <==> PairKnown(path, i, offset) && AllKnown(path, i + 1, offset / 2)
  {
    if AllKnown(path, i, offset) {
      assert KnownAt(path, i, offset, 0);
      var j, half := i + 1, offset / 2;
      forall d | 0 <= d < |path| - j
        ensures KnownAt(path, j, half, d)
      {
        assert KnownAt(path, i, offset, d + 1);
      }
    }
    if PairKnown(path, i, offset) && AllKnown(path, i + 1, offset / 2) {
      forall d | 0 <= d < |path| - i
        ensures KnownAt(path, i, offset, d)
      {
        if d > 0 {
          assert KnownAt(path, i + 1, offset / 2, d - 1);
        }
      }
    }
  }

  /** A path evaluates exactly when every sibling on the way is known. */
  lemma {:induction false} ClimbsIff(H: Hasher, path: seq<seq<Leaf>>, i: nat, base: Leaf)
    requires i <= |path| && (i > 0 ==> base.offset < TWO64 / 2)
    ensures Climb(H, path, i, base).Ok? <==> AllKnown(path, i, base.offset)
    decreases |path| - i
  {
    if i < |path| {
      PairKnownIff(H, path, i, base.offset);
      KnownAbove(path, i, base.offset);
      if PairLeaf(H, path, i, base.offset).Ok? {
        var above := Above(H, base, PairLeaf(H, path, i, base.offset).value);
        ClimbStep(H, path, i, base, above);
        ClimbsIff(H, path, i + 1, above);
      }
    }
  }

  lemma {:induction false} ClimbStep(H: Hasher, path: seq<seq<Leaf>>, i: nat, base: Leaf, above: Leaf)
    requires i < |path| && PairLeaf(H, path, i, base.offset).Ok?
    requires above == Above(H, base, PairLeaf(H, path, i, base.offset).value)
    ensures Climb(H, path, i, base) == Climb(H, path, i + 1, above)
    ensures above.offset == base.offset / 2 && above.offset < TWO64 / 2
  {
  }

  /** A path with a single leaf at the bottom never evaluates. */
  lemma OneLeafFails(H: Hasher, path: seq<seq<Leaf>>, base: Leaf)
    requires |path| > 0 && path[0] == [base]
    ensures Climb(H, path, 0, base) == Err(LeafNotComputable)
  {
    FindIffGiven(OffsetPair(base.offset), path[0]);
  }

  // ----- A path is an inclusion proof

  function SiblingHash(base: Leaf, pair: Leaf): Hash {
    if pair.duplicate then base.hash else pair.hash
  }

  /** The sibling hashes used on the way up. */
  function Siblings(H: Hasher, path: seq<seq<Leaf>>, i: nat, base: Leaf): (proof: seq<Hash>)
    requires i <= |path| && Climb(H, path, i, base).Ok?
    ensures |proof| == |path| - i
    decreases |path| - i
  {
    if i == |path| then []
    else
      var pair := PairLeaf(H, path, i, base.offset).value;
      [SiblingHash(base, pair)] + Siblings(H, path, i + 1, Above(H, base, pair))
  }

  /** Evaluating a path is folding its siblings. */
  lemma {:induction false} ClimbIsFold(H: Hasher, path: seq<seq<Leaf>>, i: nat, base: Leaf)
    requires i <= |path| && Climb(H, path, i, base).Ok? && !base.duplicate
    ensures Climb(H, path, i, base) == Ok(Fold(H, base.hash, base.offset, Siblings(H, path, i, base)))
    decreases |path| - i
  {
    if i < |path| {
      var pair := PairLeaf(H, path, i, base.offset).value;
      ClimbIsFold(H, path, i + 1, Above(H, base, pair));
      FoldStep(H, base.hash, base.offset, SiblingHash(base, pair), Siblings(H, path, i + 1, Above(H, base, pair)));
    }
  }

  /** Equal roots, level counts and offsets force equal leaf hashes, or a hash collision that
      the two evaluations exhibit. */
  lemma PathBindsLeaf(H: Hasher, p: seq<seq<Leaf>>, a: Leaf, q: seq<seq<Leaf>>, b: Leaf)
    requires Climb(H, p, 0, a).Ok? && Climb(H, p, 0, a) == Climb(H, q, 0, b)
    requires |p| == |q| && a.offset == b.offset && !a.duplicate && !b.duplicate
    ensures a.hash == b.hash || FoldCollision(H, a.hash, Siblings(H, p, 0, a), b.hash, Siblings(H, q, 0, b), a.offset)
  {
    ClimbIsFold(H, p, 0, a);
    ClimbIsFold(H, q, 0, b);
    FoldBinds(H, a.hash, Siblings(H, p, 0, a), b.hash, Siblings(H, q, 0, b), a.offset);
  }

  // ----- Paths of one tree

  /** The leaf is the node at its level and offset, or marks a missing right sibling. */
  predicate IsNode(level: seq<Hash>, f: Leaf) {
    if f.duplicate then f.offset == |level| && f.offset % 2 == 1
    else f.offset < |level| && f.hash == level[f.offset]
  }

  /** Every leaf of every level belongs to the tree over these transactions. */
  ghost predicate Consistent(H: Hasher, txids: seq<Hash>, path: seq<seq<Leaf>>) {
    && |txids| >= 1
    && forall i :: 0 <= i < |path| ==> LevelConsistent(Level(H, txids, i), path[i])
  }

  predicate LevelConsistent(level: seq<Hash>, leaves: seq<Leaf>) {
    forall f :: f in leaves ==> IsNode(level, f)
  }

  /** The parent of a node and its pair is the node above. */
  lemma AboveIsNode(H: Hasher, level: seq<Hash>, base: Leaf, pair: Leaf)
    requires |level| >= 1 && IsNode(level, base) && IsNode(level, pair) && pair.offset == OffsetPair(base.offset)
    ensures IsNode(NextLevel(H, level), Above(H, base, pair))
  {
    NextLevelLength(H, level);
    NextLevelNode(H, level, base.offset / 2);
  }

  /** Two neighbours, the left one at an even place, have the node above as parent. */
  lemma ParentIsNode(H: Hasher, level: seq<Hash>, offset: u64, left: Leaf, right: Leaf, parent: Hash)
    requires |level| >= 1 && IsNode(level, left) && IsNode(level, right)
    requires left.offset == 2 * offset && right.offset == 2 * offset + 1
    requires parent == ParentOf(H, left, offset, right, right.offset)
    ensures IsNode(NextLevel(H, level), Leaf(parent, false, false, offset))
  {
    NextLevelNode(H, level, offset);
  }

  /** What is computed from children, for an offset that does not wrap around when doubled. */
  lemma ComputedFrom(H: Hasher, offset: u64, below: seq<Leaf>, child: u64) returns (left: Leaf, right: Leaf)
    requires offset < TWO64 / 2 && child == 2 * offset && CalculateFromChildren(H, offset, below).Ok?
    ensures left in below && left.offset == child && right in below && right.offset == child + 1
    ensures CalculateFromChildren(H, offset, below).value ==
            Leaf(ParentOf(H, left, offset, right, child + 1), false, false, offset)
  {
    assert WrapAdd(offset, offset) == child && WrapAdd(child, 1) == child + 1;
    left, right := FindLeaf(child, below).value, FindLeaf(child + 1, below).value;
  }

  lemma ComputedIsNode(H: Hasher, level: seq<Hash>, offset: u64, below: seq<Leaf>)
    requires |level| >= 1 && LevelConsistent(level, below) && offset < TWO64 / 2
    requires CalculateFromChildren(H, offset, below).Ok?
    ensures IsNode(NextLevel(H, level), CalculateFromChildren(H, offset, below).value)
    ensures CalculateFromChildren(H, offset, below).value.offset == offset
  {
    var left, right := ComputedFrom(H, offset, below, 2 * offset);
    ParentIsNode(H, level, offset, left, right, ParentOf(H, left, offset, right, right.offset));
  }

  lemma PairIsNode(H: Hasher, txids: seq<Hash>, path: seq<seq<Leaf>>, i: nat, offset: u64, pair: Leaf)
    requires Consistent(H, txids, path) && i < |path| && (i > 0 ==> offset < TWO64 / 2)
    requires PairLeaf(H, path, i, offset) == Ok(pair)
    ensures IsNode(Level(H, txids, i), pair) && pair.offset == OffsetPair(offset)
  {
    if FindLeaf(OffsetPair(offset), path[i]).Some? {
      assert LevelConsistent(Level(H, txids, i), path[i]);
    } else {
      ComputedPairIsNode(H, txids, path, i, OffsetPair(offset), pair);
    }
  }

  lemma ComputedPairIsNode(H: Hasher, txids: seq<Hash>, path: seq<seq<Leaf>>, i: nat, offset: u64, pair: Leaf)
    requires Consistent(H, txids, path) && 0 < i < |path| && offset < TWO64 / 2
    requires CalculateFromChildren(H, offset, path[i - 1]) == Ok(pair)
    ensures IsNode(Level(H, txids, i), pair) && pair.offset == offset
  {
    assert LevelConsistent(Level(H, txids, i - 1), path[i - 1]);
    LevelStep(H, txids, i - 1);
    ComputedIsNode(H, Level(H, txids, i - 1), offset, path[i - 1]);
  }

  /** Climbing a consistent path stays inside the tree. */
  lemma {:induction false} ClimbIsNode(H: Hasher, txids: seq<Hash>, path: seq<seq<Leaf>>, i: nat, base: Leaf)
    requires Consistent(H, txids, path) && i <= |path| && (i > 0 ==> base.offset < TWO64 / 2)
    requires IsNode(Level(H, txids, i), base) && Climb(H, path, i, base).Ok? && (i == |path| ==> !base.duplicate)
    ensures Shifted(base.offset, |path| - i) < |Level(H, txids, |path|)|
    ensures Climb(H, path, i, base).value == Level(H, txids, |path|)[Shifted(base.offset, |path| - i)]
    decreases |path| - i
  {
    if i < |path| {
      var pair := PairLeaf(H, path, i, base.offset).value;
      PairIsNode(H, txids, path, i, base.offset, pair);
      AboveIsNode(H, Level(H, txids, i), base, pair);
      LevelStep(H, txids, i);
      ClimbStep(H, path, i, base, Above(H, base, pair));
      ClimbIsNode(H, txids, path, i + 1, Above(H, base, pair));
    }
  }

  /** Every transaction leaf of a consistent path of full height that evaluates, evaluates to
      the Merkle root of the tree. */
  lemma ConsistentPathGivesRoot(H: Hasher, txids: seq<Hash>, bump: Bump, f: Leaf)
    requires |bump.path| > 0 && Consistent(H, txids, bump.path) && |bump.path| == CeilLog2(|txids|)
    requires IsTx(bump, f) && Climb(H, bump.path, 0, f).Ok?
    ensures Climb(H, bump.path, 0, f) == Ok(Root(H, txids))
  {
    assert LevelConsistent(Level(H, txids, 0), bump.path[0]);
    ClimbIsNode(H, txids, bump.path, 0, f);
    RootIsTopLevel(H, txids);
  }

  /** So the mismatch error cannot occur on a consistent path. */
  lemma ConsistentPathsAgree(H: Hasher, txids: seq<Hash>, bump: Bump, f: Leaf, g: Leaf)
    requires |bump.path| > 0 && Consistent(H, txids, bump.path) && |bump.path| == CeilLog2(|txids|)
    requires IsTx(bump, f) && IsTx(bump, g)
    ensures !Differ(H, bump, f, g)
  {
    if Differ(H, bump, f, g) {
      ConsistentPathGivesRoot(H, txids, bump, f);
      ConsistentPathGivesRoot(H, txids, bump, g);
    }
  }
}
