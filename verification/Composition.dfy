/**
 How the Merkle tree of a block is assembled from subtrees: the root over the subtree roots
 against the root over all leaves, and the coinbase proof glued from two proofs.
 */
module Composition {
  import opened Base
  import opened Powers
  import opened Merkle

  function Flatten(groups: seq<seq<Hash>>): seq<Hash> {
    if groups == [] then [] else groups[0] + Flatten(groups[1..])
  }

  /** The roots of the subtrees, none of which is empty. */
  function Roots(H: Hasher, groups: seq<seq<Hash>>): (roots: seq<Hash>)
    requires forall i :: 0 <= i < |groups| ==> |groups[i]| >= 1
    ensures |roots| == |groups|
  {
    if groups == [] then [] else [Root(H, groups[0])] + Roots(H, groups[1..])
  }

  /** Every subtree but the last has 2^k leaves, and the last has at most that many. */
  ghost predicate Uniform(groups: seq<seq<Hash>>, k: nat) {
    && |groups| >= 1
    && (forall i :: 0 <= i < |groups| ==> 1 <= |groups[i]| <= Pow2(k))
    && (forall i :: 0 <= i < |groups| - 1 ==> |groups[i]| == Pow2(k))
  }

  function Last(groups: seq<seq<Hash>>): seq<Hash>
    requires |groups| >= 1
  {
    groups[|groups| - 1]
  }

  // ----- Levels of a concatenation

  lemma {:induction false} NextLevelAppend(H: Hasher, a: seq<Hash>, b: seq<Hash>)
    requires |a| % 2 == 0
    ensures NextLevel(H, a + b) == NextLevel(H, a) + NextLevel(H, b)
    decreases |a|
  {
    if a == [] {
      assert a + b == b;
    } else {
      assert (a + b)[2..] == a[2..] + b;
      NextLevelAppend(H, a[2..], b);
    }
  }

  lemma {:induction false} LevelAppend(H: Hasher, a: seq<Hash>, b: seq<Hash>, k: nat, c: nat)
    requires |a| == Scale(c, k)
    ensures Level(H, a + b, k) == Level(H, a, k) + Level(H, b, k)
    decreases k
  {
    if k > 0 {
      NextLevelAppend(H, a, b);
      NextLevelLength(H, a);
      LevelAppend(H, NextLevel(H, a), NextLevel(H, b), k - 1, c);
    }
  }

  lemma {:induction false} ScaleOne(k: nat)
    ensures Scale(1, k) == Pow2(k)
  {
    if k > 0 {
      ScaleOne(k - 1);
    }
  }

  /** A full subtree is reduced to its root after k levels. */
  lemma FullSubtree(H: Hasher, group: seq<Hash>, k: nat)
    requires |group| == Pow2(k)
    ensures Level(H, group, k) == [Root(H, group)]
  {
    CeilLog2OfPow2(k);
    RootIsTopLevel(H, group);
  }

  /** After k levels, every full subtree is its root; only the last may still differ. */
  lemma {:induction false} LevelOfGroups(H: Hasher, groups: seq<seq<Hash>>, k: nat)
    requires Uniform(groups, k)
    ensures Level(H, Flatten(groups), k) == Roots(H, groups[..|groups| - 1]) + Level(H, Last(groups), k)
    decreases |groups|
  {
    if |groups| == 1 {
      assert Flatten(groups) == groups[0] + Flatten(groups[1..]) == groups[0];
    } else {
      var rest := groups[1..];
      ScaleOne(k);
      LevelAppend(H, groups[0], Flatten(rest), k, 1);
      FullSubtree(H, groups[0], k);
      LevelOfGroups(H, rest, k);
      assert groups[..|groups| - 1][0] == groups[0] && groups[..|groups| - 1][1..] == rest[..|rest| - 1];
    }
  }

  // ----- Climbing past the root

  /** x hashed with itself d times over. */
  function SelfHash(H: Hasher, x: Hash, d: nat): Hash
    decreases d
  {
    if d == 0 then x else SelfHash(H, H(x, x), d - 1)
  }

  lemma {:induction false} LevelOfOne(H: Hasher, x: Hash, d: nat)
    ensures Level(H, [x], d) == [SelfHash(H, x, d)]
    decreases d
  {
    if d > 0 {
      LevelOfOne(H, H(x, x), d - 1);
    }
  }

  /** Past its root, a short subtree keeps being hashed with itself. */
  lemma {:induction false} LevelPastRoot(H: Hasher, leaves: seq<Hash>, d: nat)
    requires |leaves| >= 1
    ensures Level(H, leaves, CeilLog2(|leaves|) + d) == [SelfHash(H, Root(H, leaves), d)]
    decreases |leaves|
  {
    Taller(H, leaves);
    if |leaves| == 1 {
      assert leaves == [leaves[0]];
      LevelOfOne(H, leaves[0], d);
    } else {
      LevelPastRoot(H, NextLevel(H, leaves), d);
    }
  }

  // ----- The composition law

  function Glued(H: Hasher, groups: seq<seq<Hash>>): seq<Hash>
    requires |groups| >= 1 && forall i :: 0 <= i < |groups| ==> |groups[i]| >= 1
  {
    ProofOf(H, groups[0], 0) + ProofOf(H, Roots(H, groups), 0)
  }

  lemma {:induction false} ShiftZero(k: nat)
    ensures Shifted(0, k) == 0
  {
    if k > 0 {
      ShiftZero(k - 1);
    }
  }

  /** The glued proof verifies leaf 0 of subtree 0 against the root over the subtree roots. */
  lemma GluedFolds(H: Hasher, groups: seq<seq<Hash>>)
    requires |groups| >= 1 && forall i :: 0 <= i < |groups| ==> |groups[i]| >= 1
    ensures Fold(H, groups[0][0], 0, Glued(H, groups)) == Root(H, Roots(H, groups))
  {
    var p, q := ProofOf(H, groups[0], 0), ProofOf(H, Roots(H, groups), 0);
    FoldAppend(H, groups[0][0], 0, p, q);
    ProofFoldsToRoot(H, groups[0], 0);
    ProofFoldsToRoot(H, Roots(H, groups), 0);
    ShiftZero(|p|);
  }

  lemma {:induction false} FlattenLength(groups: seq<seq<Hash>>, k: nat)
    requires Uniform(groups, k) && |groups| >= 2
    ensures |Flatten(groups)| > Pow2(k)
  {
    var rest := groups[1..];
    assert Flatten(groups) == groups[0] + Flatten(rest);
    assert Flatten(rest) == rest[0] + Flatten(rest[1..]);
  }

  lemma {:induction false} RootsSplit(H: Hasher, groups: seq<seq<Hash>>)
    requires |groups| >= 1 && forall i :: 0 <= i < |groups| ==> |groups[i]| >= 1
    ensures Roots(H, groups) == Roots(H, groups[..|groups| - 1]) + [Root(H, Last(groups))]
    decreases |groups|
  {
    if |groups| > 1 {
      RootsSplit(H, groups[1..]);
      assert groups[..|groups| - 1][1..] == groups[1..][..|groups| - 2];
    } else {
      assert groups[..0] == [] && groups[1..] == [];
    }
  }

  /** The block root is the root over the subtree roots, except that a short last subtree
      counts as hashed with itself up to the height of the others. */
  lemma BlockRoot(H: Hasher, groups: seq<seq<Hash>>, k: nat)
    requires Uniform(groups, k) && |groups| >= 2
    ensures CeilLog2(|Last(groups)|) <= k
    ensures Root(H, Flatten(groups)) ==
            Root(H, Roots(H, groups[..|groups| - 1])
                    + [SelfHash(H, Root(H, Last(groups)), k - CeilLog2(|Last(groups)|))])
  {
    var all, last := Flatten(groups), Last(groups);
    FlattenLength(groups, k);
    CeilLog2OfPow2(k);
    CeilLog2Monotone(Pow2(k), |all|);
    CeilLog2Monotone(|last|, Pow2(k));
    RootOfLevel(H, all, k);
    LevelOfGroups(H, groups, k);
    LevelPastRoot(H, last, k - CeilLog2(|last|));
  }

  /** When the last subtree is more than half full, or is the only one, the glued proof
      verifies the coinbase against the root of all the leaves. */
  lemma CompositionLaw(H: Hasher, groups: seq<seq<Hash>>, k: nat)
    requires Uniform(groups, k) && (|groups| == 1 || Pow2(k) < 2 * |Last(groups)|)
    ensures Fold(H, groups[0][0], 0, Glued(H, groups)) == Root(H, Flatten(groups))
  {
    GluedFolds(H, groups);
    if |groups| == 1 {
      assert Flatten(groups) == groups[0] + Flatten(groups[1..]) == groups[0];
      assert Roots(H, groups) == [Root(H, groups[0])];
    } else {
      CeilLog2Unique(|Last(groups)|, k);
      BlockRoot(H, groups, k);
      RootsSplit(H, groups);
    }
  }

  /** With a last subtree at most half full the glued proof fails, unless the parent hash has a
      self-hash cycle at that subtree's root or the two trees of subtree roots collide. */
  lemma CompositionExact(H: Hasher, groups: seq<seq<Hash>>, k: nat, last': Hash)
    requires Uniform(groups, k) && |groups| >= 2 && CeilLog2(|Last(groups)|) <= k
    requires last' == SelfHash(H, Root(H, Last(groups)), k - CeilLog2(|Last(groups)|))
    requires CeilLog2(|Last(groups)|) < k ==> last' != Root(H, Last(groups))
    requires !TreeCollision(H, Roots(H, groups), Roots(H, groups[..|groups| - 1]) + [last'])
    ensures Fold(H, groups[0][0], 0, Glued(H, groups)) == Root(H, Flatten(groups)) <==> Pow2(k) < 2 * |Last(groups)|
  {
    if Pow2(k) < 2 * |Last(groups)| {
      CompositionLaw(H, groups, k);
    } else {
      var init, r := Roots(H, groups[..|groups| - 1]), Root(H, Last(groups));
      GluedFolds(H, groups);
      BlockRoot(H, groups, k);
      RootsSplit(H, groups);
      ShortLast(|Last(groups)|, k);
      assert (init + [r])[|init|] != (init + [last'])[|init|];
      if Root(H, init + [r]) == Root(H, init + [last']) {
        RootBinds(H, init + [r], init + [last']);
      }
    }
  }

  lemma ShortLast(n: nat, k: nat)
    requires 1 <= n && 2 * n <= Pow2(k)
    ensures CeilLog2(n) < k
  {
    CeilLog2OfPow2(k - 1);
    CeilLog2Monotone(n, Pow2(k - 1));
  }
}
