/**
 The Bitcoin Merkle tree with the duplicate-last rule: levels, root, inclusion proofs.
 This is the simple form that the flat store and the BUMP paths are compared with.
 */
module Merkle {
  import opened Base
  import opened Powers

  /** One step up: neighbours are hashed in pairs, an unpaired last node with itself. */
  function NextLevel(H: Hasher, level: seq<Hash>): (next: seq<Hash>)
    ensures |level| >= 1 ==> |next| >= 1
    ensures |level| > 1 ==> |next| < |level|
  {
    if |level| == 0 then []
    else if |level| == 1 then [H(level[0], level[0])]
    else [H(level[0], level[1])] + NextLevel(H, level[2..])
  }

  lemma {:induction false} NextLevelLength(H: Hasher, level: seq<Hash>)
    ensures |NextLevel(H, level)| == (|level| + 1) / 2
    decreases |level|
  {
    if |level| > 1 {
      NextLevelLength(H, level[2..]);
    }
  }

  /** Node i of the next level is the parent of nodes 2i and 2i+1, if there are two. */
  lemma {:induction false} NextLevelNode(H: Hasher, level: seq<Hash>, i: nat)
    requires 2 * i < |level|
    ensures i < |NextLevel(H, level)|
    ensures NextLevel(H, level)[i] == H(level[2 * i], if 2 * i + 1 < |level| then level[2 * i + 1] else level[2 * i])
    decreases |level|
  {
    if i > 0 {
      NextLevelNode(H, level[2..], i - 1);
    }
  }

  function Root(H: Hasher, level: seq<Hash>): Hash
    requires |level| >= 1
    decreases |level|
  {
    if |level| == 1 then level[0] else Root(H, NextLevel(H, level))
  }

  /** One leaf is its own root; the left leaf is hashed first; an unpaired one is hashed with itself. */
  lemma SmallTrees(H: Hasher, a: Hash, b: Hash, c: Hash)
    ensures Root(H, [a]) == a && Root(H, [a, b]) == H(a, b) && Root(H, [a, b, c]) == H(H(a, b), H(c, c))
  {
    var x, y := H(a, b), H(c, c);
    assert [a, b][2..] == [] && NextLevel(H, [a, b]) == [x];
    assert [a, b, c][2..] == [c] && NextLevel(H, [a, b, c]) == [x, y];
    assert [x, y][2..] == [] && NextLevel(H, [x, y]) == [H(x, y)];
    assert Root(H, [a, b, c]) == Root(H, [x, y]) == Root(H, [H(x, y)]);
  }

  /** The level k steps above the leaves. */
  function Level(H: Hasher, leaves: seq<Hash>, k: nat): (level: seq<Hash>)
    ensures |leaves| >= 1 ==> |level| >= 1
    decreases k
  {
    if k == 0 then leaves else Level(H, NextLevel(H, leaves), k - 1)
  }

  lemma {:induction false} LevelStep(H: Hasher, leaves: seq<Hash>, k: nat)
    ensures Level(H, leaves, k + 1) == NextLevel(H, Level(H, leaves, k))
    decreases k
  {
    if k > 0 {
      LevelStep(H, NextLevel(H, leaves), k - 1);
    }
  }

  /** Level k has ceil(n / 2^k) nodes. */
  lemma {:induction false} LevelSize(H: Hasher, leaves: seq<Hash>, k: nat, j: nat)
    requires |leaves| >= 1
    ensures j < |Level(H, leaves, k)| <==> Scale(j, k) < |leaves|
    decreases k
  {
    if k > 0 {
      LevelSize(H, NextLevel(H, leaves), k - 1, j);
      NextLevelLength(H, leaves);
    }
  }

  lemma Taller(H: Hasher, level: seq<Hash>)
    requires |level| >= 1
    ensures |level| == 1 ==> CeilLog2(|level|) == 0
    ensures |level| > 1 ==> CeilLog2(|level|) == 1 + CeilLog2(|NextLevel(H, level)|)
  {
    NextLevelLength(H, level);
  }

  /** The root is the only node of the level that is ceil(log2 n) steps up. */
  lemma {:induction false} RootIsTopLevel(H: Hasher, leaves: seq<Hash>)
    requires |leaves| >= 1
    ensures Level(H, leaves, CeilLog2(|leaves|)) == [Root(H, leaves)]
    decreases |leaves|
  {
    Taller(H, leaves);
    if |leaves| > 1 {
      RootIsTopLevel(H, NextLevel(H, leaves));
    }
  }

  /** Climbing k levels first does not change the root, while there are k levels to climb. */
  lemma {:induction false} RootOfLevel(H: Hasher, leaves: seq<Hash>, k: nat)
    requires |leaves| >= 1 && k <= CeilLog2(|leaves|)
    ensures Root(H, Level(H, leaves, k)) == Root(H, leaves)
    decreases k
  {
    Taller(H, leaves);
    if k > 0 {
      RootOfLevel(H, NextLevel(H, leaves), k - 1);
    }
  }

  // ----- Inclusion proofs

  /** The neighbour a node is hashed with; the node itself when it is the unpaired last one. */
  function Sibling(level: seq<Hash>, index: nat): Hash
    requires index < |level|
  {
    if index % 2 == 1 then level[index - 1]
    else if index + 1 < |level| then level[index + 1]
    else level[index]
  }

  function ProofOf(H: Hasher, leaves: seq<Hash>, index: nat): seq<Hash>
    requires index < |leaves|
    decreases |leaves|
  {
    if |leaves| == 1 then []
    else
      ParentPlace(H, leaves, index);
      [Sibling(leaves, index)] + ProofOf(H, NextLevel(H, leaves), index / 2)
  }

  lemma ParentPlace(H: Hasher, level: seq<Hash>, index: nat)
    requires index < |level|
    ensures index / 2 < |NextLevel(H, level)|
  {
    NextLevelLength(H, level);
  }

  /** One verification step: the bit of the index says on which side the node stands. */
  function Combine(H: Hasher, index: nat, node: Hash, sibling: Hash): Hash {
    if index % 2 == 0 then H(node, sibling) else H(sibling, node)
  }

  function Fold(H: Hasher, node: Hash, index: nat, proof: seq<Hash>): Hash
    decreases |proof|
  {
    if proof == [] then node
    else Fold(H, Combine(H, index, node, proof[0]), index / 2, proof[1..])
  }

  lemma {:induction false} ProofLength(H: Hasher, leaves: seq<Hash>, index: nat)
    requires index < |leaves|
    ensures |ProofOf(H, leaves, index)| == CeilLog2(|leaves|)
    decreases |leaves|
  {
    Taller(H, leaves);
    if |leaves| > 1 {
      ParentPlace(H, leaves, index);
      ProofLength(H, NextLevel(H, leaves), index / 2);
    }
  }

  lemma ParentNode(H: Hasher, level: seq<Hash>, index: nat)
    requires index < |level|
    ensures index / 2 < |NextLevel(H, level)|
    ensures NextLevel(H, level)[index / 2] == Combine(H, index, level[index], Sibling(level, index))
  {
    NextLevelNode(H, level, index / 2);
    if index % 2 == 0 {
      assert index == 2 * (index / 2);
    } else {
      assert index == 2 * (index / 2) + 1;
    }
  }

  lemma FoldStep(H: Hasher, node: Hash, index: nat, s: Hash, rest: seq<Hash>)
    ensures Fold(H, node, index, [s] + rest) == Fold(H, Combine(H, index, node, s), index / 2, rest)
  {
    assert ([s] + rest)[1..] == rest;
  }

  lemma {:induction false} ProofFoldsToRoot(H: Hasher, leaves: seq<Hash>, index: nat)
    requires index < |leaves|
    ensures Fold(H, leaves[index], index, ProofOf(H, leaves, index)) == Root(H, leaves)
    decreases |leaves|
  {
    if |leaves| > 1 {
      ParentNode(H, leaves, index);
      ProofFoldsToRoot(H, NextLevel(H, leaves), index / 2);
      FoldStep(H, leaves[index], index, Sibling(leaves, index), ProofOf(H, NextLevel(H, leaves), index / 2));
    }
  }

  function Shifted(index: nat, k: nat): nat {
    if k == 0 then index else Shifted(index / 2, k - 1)
  }

  /** The k-th entry of a proof is the sibling, k levels up, of the node above the leaf. */
  lemma {:induction false} ProofEntry(H: Hasher, leaves: seq<Hash>, index: nat, k: nat)
    requires index < |leaves| && k <= CeilLog2(|leaves|)
    ensures Shifted(index, k) < |Level(H, leaves, k)|
    ensures |ProofOf(H, leaves, index)| == CeilLog2(|leaves|)
    ensures k < CeilLog2(|leaves|) ==>
      ProofOf(H, leaves, index)[k] == Sibling(Level(H, leaves, k), Shifted(index, k))
    decreases k
  {
    ProofLength(H, leaves, index);
    Taller(H, leaves);
    if k > 0 {
      ParentPlace(H, leaves, index);
      ProofEntry(H, NextLevel(H, leaves), index / 2, k - 1);
    }
  }

  lemma {:induction false} ShiftStep(index: nat, k: nat)
    ensures Shifted(index, k + 1) == Shifted(index, k) / 2
  {
    if k > 0 {
      ShiftStep(index / 2, k - 1);
    }
  }

  lemma {:induction false} FoldAppend(H: Hasher, node: Hash, index: nat, p: seq<Hash>, q: seq<Hash>)
    ensures Fold(H, node, index, p + q) == Fold(H, Fold(H, node, index, p), Shifted(index, |p|), q)
    decreases |p|
  {
    if p == [] {
      assert p + q == q;
    } else {
      assert (p + q)[1..] == p[1..] + q;
      FoldAppend(H, Combine(H, index, node, p[0]), index / 2, p[1..], q);
    }
  }

  // ----- Proofs for any index

  /** The leaf that stands at place j of the padded tree: a place past the end repeats one. */
  function Place(n: nat, j: nat): (i: nat)
    requires n >= 1
    ensures i < n
    decreases n
  {
    if n == 1 then 0
    else
      var c := 2 * Place((n + 1) / 2, j / 2) + j % 2;
      if c < n then c else n - 1
  }

  lemma {:induction false} PlaceInside(n: nat, j: nat)
    requires j < n
    ensures Place(n, j) == j
  {
    if n > 1 {
      PlaceInside((n + 1) / 2, j / 2);
    }
  }

  /** The children of node m of the next level. */
  function Children(t: seq<Hash>, m: nat): (Hash, Hash)
    requires 2 * m < |t|
  {
    (t[2 * m], if 2 * m + 1 < |t| then t[2 * m + 1] else t[2 * m])
  }

  function PlaceSibling(t: seq<Hash>, m: nat, j: nat): Hash
    requires 2 * m < |t|
  {
    if j % 2 == 1 then Children(t, m).0 else Children(t, m).1
  }

  function PlaceProof(H: Hasher, leaves: seq<Hash>, j: nat): seq<Hash>
    requires |leaves| >= 1
    decreases |leaves|
  {
    if |leaves| == 1 then []
    else
      NextLevelLength(H, leaves);
      [PlaceSibling(leaves, Place(|NextLevel(H, leaves)|, j / 2), j)] + PlaceProof(H, NextLevel(H, leaves), j / 2)
  }

  lemma {:induction false} PlaceProofLength(H: Hasher, leaves: seq<Hash>, j: nat)
    requires |leaves| >= 1
    ensures |PlaceProof(H, leaves, j)| == CeilLog2(|leaves|)
    decreases |leaves|
  {
    Taller(H, leaves);
    if |leaves| > 1 {
      PlaceProofLength(H, NextLevel(H, leaves), j / 2);
    }
  }

  lemma PlaceUnfolds(n: nat, j: nat, m: nat)
    requires n > 1 && m == Place((n + 1) / 2, j / 2)
    ensures 2 * m < n && Place(n, j) == if j % 2 == 1 && 2 * m + 1 < n then 2 * m + 1 else 2 * m
  {
  }

  lemma PlaceStep(H: Hasher, leaves: seq<Hash>, j: nat, m: nat)
    requires |leaves| > 1 && m == Place(|NextLevel(H, leaves)|, j / 2)
    ensures 2 * m < |leaves|
    ensures Combine(H, j, leaves[Place(|leaves|, j)], PlaceSibling(leaves, m, j)) == NextLevel(H, leaves)[m]
  {
    NextLevelLength(H, leaves);
    PlaceUnfolds(|leaves|, j, m);
    NextLevelNode(H, leaves, m);
  }

  /** For every index there is a proof that folds to the root, from the leaf at its place. */
  lemma {:induction false} PlaceFoldsToRoot(H: Hasher, leaves: seq<Hash>, j: nat)
    requires |leaves| >= 1
    ensures Fold(H, leaves[Place(|leaves|, j)], j, PlaceProof(H, leaves, j)) == Root(H, leaves)
    decreases |leaves|
  {
    if |leaves| > 1 {
      var next := NextLevel(H, leaves);
      var m := Place(|next|, j / 2);
      PlaceStep(H, leaves, j, m);
      PlaceFoldsToRoot(H, next, j / 2);
      FoldStep(H, leaves[Place(|leaves|, j)], j, PlaceSibling(leaves, m, j), PlaceProof(H, next, j / 2));
    }
  }

  lemma PlaceProofFirst(H: Hasher, leaves: seq<Hash>, j: nat)
    requires |leaves| > 1
    ensures |PlaceProof(H, leaves, j)| > 0 && PlaceProof(H, leaves, j)[0] in leaves
  {
    NextLevelLength(H, leaves);
    var m := Place(|NextLevel(H, leaves)|, j / 2);
    assert PlaceProof(H, leaves, j)[0] == PlaceSibling(leaves, m, j);
  }

  /** The second sibling of a proof is the parent of two of the leaves. */
  lemma PlaceProofSecond(H: Hasher, leaves: seq<Hash>, j: nat) returns (m: nat)
    requires |leaves| > 1 && |NextLevel(H, leaves)| > 1
    ensures |PlaceProof(H, leaves, j)| > 1 && 2 * m < |leaves|
    ensures PlaceProof(H, leaves, j)[1] == H(Children(leaves, m).0, Children(leaves, m).1)
  {
    var next := NextLevel(H, leaves);
    PlaceProofFirst(H, next, j / 2);
    assert PlaceProof(H, leaves, j)[1] == PlaceProof(H, next, j / 2)[0];
    m :| 0 <= m < |next| && next[m] == PlaceProof(H, next, j / 2)[0];
    NextLevelLength(H, leaves);
    NextLevelNode(H, leaves, m);
  }

  /** Climbing k levels takes k off the height. */
  lemma {:induction false} LevelHeight(H: Hasher, leaves: seq<Hash>, k: nat)
    requires |leaves| >= 1 && k <= CeilLog2(|leaves|)
    ensures CeilLog2(|Level(H, leaves, k)|) == CeilLog2(|leaves|) - k
    decreases k
  {
    Taller(H, leaves);
    if k > 0 {
      LevelHeight(H, NextLevel(H, leaves), k - 1);
    }
  }

  /** What a proof that is not empty folds to is a parent hash. */
  lemma {:induction false} FoldIsHash(H: Hasher, node: Hash, index: nat, proof: seq<Hash>) returns (l: Hash, r: Hash)
    requires proof != []
    ensures Fold(H, node, index, proof) == H(l, r)
    decreases |proof|
  {
    if |proof| == 1 {
      l, r := if index % 2 == 0 then node else proof[0], if index % 2 == 0 then proof[0] else node;
      assert proof[1..] == [];
    } else {
      l, r := FoldIsHash(H, Combine(H, index, node, proof[0]), index / 2, proof[1..]);
    }
  }

  // ----- What a root binds

  /** Two different pairs of children with the same parent hash. */
  predicate Collision(H: Hasher, l: Hash, r: Hash, l': Hash, r': Hash) {
    (l, r) != (l', r') && H(l, r) == H(l', r')
  }

  /** Some step of verifying the two proofs at one index hashes different pairs to one value. */
  predicate FoldCollision(H: Hasher, a: Hash, p: seq<Hash>, b: Hash, q: seq<Hash>, index: nat)
    requires |p| == |q|
    decreases |p|
  {
    p != [] &&
    (|| (if index % 2 == 0 then Collision(H, a, p[0], b, q[0]) else Collision(H, p[0], a, q[0], b))
     || FoldCollision(H, Combine(H, index, a, p[0]), p[1..], Combine(H, index, b, q[0]), q[1..], index / 2))
  }

  /** Proofs of one length at one index that reach the same value prove the same leaf,
      unless verifying them exhibits a collision of the parent hash. */
  lemma {:induction false} FoldBinds(H: Hasher, a: Hash, p: seq<Hash>, b: Hash, q: seq<Hash>, index: nat)
    requires |p| == |q| && Fold(H, a, index, p) == Fold(H, b, index, q)
    ensures (a == b && p == q) || FoldCollision(H, a, p, b, q, index)
    decreases |p|
  {
    if p != [] {
      FoldBinds(H, Combine(H, index, a, p[0]), p[1..], Combine(H, index, b, q[0]), q[1..], index / 2);
      assert p == [p[0]] + p[1..] && q == [q[0]] + q[1..];
    }
  }

  /** Some level of the two trees hashes different pairs, at one position, to one value. */
  predicate TreeCollision(H: Hasher, a: seq<Hash>, b: seq<Hash>)
    requires |a| == |b|
    decreases |a|
  {
    |a| > 1 && (PairCollision(H, a, b) || TreeCollisionAbove(H, a, b))
  }

  predicate TreeCollisionAbove(H: Hasher, a: seq<Hash>, b: seq<Hash>)
    requires |a| == |b| > 1
    decreases |a|, 0
  {
    NextLevelLength(H, a);
    NextLevelLength(H, b);
    TreeCollision(H, NextLevel(H, a), NextLevel(H, b))
  }

  predicate PairCollision(H: Hasher, a: seq<Hash>, b: seq<Hash>)
    requires |a| == |b|
    decreases |a|
  {
    if |a| == 0 then false
    else if |a| == 1 then Collision(H, a[0], a[0], b[0], b[0])
    else Collision(H, a[0], a[1], b[0], b[1]) || PairCollision(H, a[2..], b[2..])
  }

  lemma {:induction false} LevelBinds(H: Hasher, a: seq<Hash>, b: seq<Hash>)
    requires |a| == |b| && NextLevel(H, a) == NextLevel(H, b) && !PairCollision(H, a, b)
    ensures a == b
    decreases |a|
  {
    if |a| > 1 {
      assert NextLevel(H, a)[1..] == NextLevel(H, a[2..]);
      assert NextLevel(H, b)[1..] == NextLevel(H, b[2..]);
      assert NextLevel(H, a)[0] == NextLevel(H, b)[0];
      LevelBinds(H, a[2..], b[2..]);
      assert a == [a[0], a[1]] + a[2..] && b == [b[0], b[1]] + b[2..];
    }
  }

  /** For a fixed number of leaves the root determines the leaves, unless the trees collide. */
  lemma {:induction false} RootBinds(H: Hasher, a: seq<Hash>, b: seq<Hash>)
    requires |a| == |b| >= 1 && Root(H, a) == Root(H, b)
    ensures a == b || TreeCollision(H, a, b)
    decreases |a|
  {
    if |a| > 1 && !TreeCollision(H, a, b) {
      NextLevelLength(H, a);
      NextLevelLength(H, b);
      RootBinds(H, NextLevel(H, a), NextLevel(H, b));
      assert !TreeCollisionAbove(H, a, b);
      LevelBinds(H, a, b);
    }
  }

  /** The leaf count is not bound: an odd list and its padded form have the same root. */
  lemma RootIgnoresPadding(H: Hasher, leaves: seq<Hash>)
    requires |leaves| > 1 && |leaves| % 2 == 1
    ensures Root(H, leaves + [leaves[|leaves| - 1]]) == Root(H, leaves)
  {
    PaddingPaired(H, leaves);
  }

  lemma {:induction false} PaddingPaired(H: Hasher, level: seq<Hash>)
    requires |level| % 2 == 1
    ensures NextLevel(H, level + [level[|level| - 1]]) == NextLevel(H, level)
    decreases |level|
  {
    if |level| > 1 {
      PaddingPaired(H, level[2..]);
      assert (level + [level[|level| - 1]])[2..] == level[2..] + [level[|level| - 1]];
    }
  }

  // ----- The level-by-level program

  lemma NextPair(H: Hasher, level: seq<Hash>, i: nat)
    requires i + 1 < |level|
    ensures NextLevel(H, level[i..]) == [H(level[i], level[i + 1])] + NextLevel(H, level[i + 2..])
  {
    assert level[i..][2..] == level[i + 2..];
  }

  method HashPairs(H: Hasher, level: seq<Hash>) returns (next: seq<Hash>)
    requires |level| % 2 == 0
    ensures next == NextLevel(H, level)
  {
    next := [];
    ghost var rest := level;
    var i := 0;
    while i < |level|
      invariant 0 <= i <= |level| && rest == level[i..] && |rest| % 2 == 0
      invariant next + NextLevel(H, rest) == NextLevel(H, level)
    {
      NextPair(H, level, i);
      next := next + [H(level[i], level[i + 1])];
      i := i + 2;
      rest := rest[2..];
    }
  }

  /** Doubles the last node of an odd level, then hashes pairs, until one node is left. */
  method ComputeMerkleRoot(H: Hasher, leaves: seq<Hash>) returns (root: Option<Hash>)
    ensures root == if leaves == [] then None else Some(Root(H, leaves))
  {
    if |leaves| == 0 {
      return None;
    }
    var level := leaves;
    while |level| > 1
      invariant |level| >= 1 && Root(H, level) == Root(H, leaves)
      decreases |level|
    {
      if |level| % 2 != 0 {
        PaddingPaired(H, level);
        level := HashPairs(H, level + [level[|level| - 1]]);
      } else {
        level := HashPairs(H, level);
      }
    }
    return Some(level[0]);
  }

  // ----- Display order

  function Reversed(h: Hash): (r: Hash) {
    seq(32, i requires 0 <= i < 32 => h[31 - i])
  }

  /** The parent of two byte-reversed hashes, byte-reversed. */
  function DisplayHasher(H: Hasher): Hasher {
    (l: Hash, r: Hash) => Reversed(H(Reversed(l), Reversed(r)))
  }

  function ReversedAll(hs: seq<Hash>): seq<Hash> {
    seq(|hs|, i requires 0 <= i < |hs| => Reversed(hs[i]))
  }

  lemma ReversedTwice(h: Hash)
    ensures Reversed(Reversed(h)) == h
  {
  }

  lemma {:induction false} DisplayLevel(H: Hasher, level: seq<Hash>)
    ensures NextLevel(DisplayHasher(H), ReversedAll(level)) == ReversedAll(NextLevel(H, level))
    decreases |level|
  {
    if |level| == 1 {
      ReversedTwice(level[0]);
    } else if |level| > 1 {
      ReversedTwice(level[0]);
      ReversedTwice(level[1]);
      DisplayLevel(H, level[2..]);
      assert ReversedAll(level)[2..] == ReversedAll(level[2..]);
    }
  }

  /** Hashing byte-reversed hashes throughout gives the byte-reversed root. */
  lemma {:induction false} DisplayRoot(H: Hasher, level: seq<Hash>)
    requires |level| >= 1
    ensures Root(DisplayHasher(H), ReversedAll(level)) == Reversed(Root(H, level))
    decreases |level|
  {
    if |level| > 1 {
      DisplayLevel(H, level);
      DisplayRoot(H, NextLevel(H, level));
    }
  }
}
