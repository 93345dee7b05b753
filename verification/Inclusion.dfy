/**
 What a BUMP proves about a block: which of its bottom leaves are bound to the block's Merkle
 root, and which could be anything.
 */
module Inclusion {
  import opened Base
  import opened Powers
  import opened Merkle
  import opened Bumps

  // ----- One path against one block

  /** How many steps a path is longer than the block's tree is high. */
  function Extra(txids: seq<Hash>, k: nat): nat
    requires |txids| >= 1
  {
    if k > CeilLog2(|txids|) then k - CeilLog2(|txids|) else 0
  }

  /** The level of the block's tree at which a path of k levels starts: the transactions, when
      it has the right height. */
  function Bottom(H: Hasher, txids: seq<Hash>, k: nat): (level: seq<Hash>)
    requires |txids| >= 1
    ensures |level| >= 1
  {
    if k < CeilLog2(|txids|) then Level(H, txids, CeilLog2(|txids|) - k) else txids
  }

  lemma BottomFits(H: Hasher, txids: seq<Hash>, k: nat)
    requires |txids| >= 1
    ensures CeilLog2(|Bottom(H, txids, k)|) == k - Extra(txids, k)
    ensures Root(H, Bottom(H, txids, k)) == Root(H, txids)
  {
    if k < CeilLog2(|txids|) {
      LevelHeight(H, txids, CeilLog2(|txids|) - k);
      RootOfLevel(H, txids, CeilLog2(|txids|) - k);
    }
  }

  /** The node that the path has reached after its extra steps. */
  function Reached(H: Hasher, path: seq<seq<Leaf>>, f: Leaf, d: nat): Hash
    requires Climb(H, path, 0, f).Ok? && d <= |path|
  {
    Fold(H, f.hash, f.offset, Siblings(H, path, 0, f)[..d])
  }

  /** Verifying the rest of the path next to the block's own proof exhibits a collision. */
  ghost predicate RunsInto(H: Hasher, txids: seq<Hash>, path: seq<seq<Leaf>>, f: Leaf)
    requires |txids| >= 1
  {
    && Climb(H, path, 0, f).Ok?
    && var d, bottom := Extra(txids, |path|), Bottom(H, txids, |path|);
       var j := Shifted(f.offset, d);
       var rest, proof := Siblings(H, path, 0, f)[d..], PlaceProof(H, bottom, j);
    && |rest| == |proof|
    && FoldCollision(H, Reached(H, path, f, d), rest, bottom[Place(|bottom|, j)], proof, j)
  }

  /** A path that evaluates to the block's root agrees with the block's tree, leaf and siblings,
      from its extra steps on; or a collision is exhibited. No offset is excluded. */
  lemma {:induction false} PathAgrees(H: Hasher, txids: seq<Hash>, path: seq<seq<Leaf>>, f: Leaf, d: nat,
                                      bottom: seq<Hash>, j: nat)
    requires |txids| >= 1 && !f.duplicate && Climb(H, path, 0, f) == Ok(Root(H, txids))
    requires d == Extra(txids, |path|) && bottom == Bottom(H, txids, |path|) && j == Shifted(f.offset, d)
    ensures || (Reached(H, path, f, d) == bottom[Place(|bottom|, j)] &&
                Siblings(H, path, 0, f)[d..] == PlaceProof(H, bottom, j))
            || RunsInto(H, txids, path, f)
  {
    var siblings := Siblings(H, path, 0, f);
    ClimbIsFold(H, path, 0, f);
    FoldAppend(H, f.hash, f.offset, siblings[..d], siblings[d..]);
    assert siblings == siblings[..d] + siblings[d..];
    BottomFits(H, txids, |path|);
    PlaceFoldsToRoot(H, bottom, j);
    PlaceProofLength(H, bottom, j);
    FoldBinds(H, Reached(H, path, f, d), siblings[d..], bottom[Place(|bottom|, j)], PlaceProof(H, bottom, j), j);
  }

  /** A path of the block's height that evaluates to the block's root proves that the block
      holds the leaf, at its offset if the block is that long; or a collision is exhibited. */
  lemma PathProvesInclusion(H: Hasher, txids: seq<Hash>, path: seq<seq<Leaf>>, a: Leaf)
    requires |txids| >= 1 && |path| == CeilLog2(|txids|) && !a.duplicate
    requires Climb(H, path, 0, a) == Ok(Root(H, txids))
    ensures a.hash in txids || RunsInto(H, txids, path, a)
    ensures a.offset < |txids| ==> a.hash == txids[a.offset] || RunsInto(H, txids, path, a)
  {
    PathAgrees(H, txids, path, a, 0, txids, a.offset);
    assert Siblings(H, path, 0, a)[..0] == [];
    if a.offset < |txids| {
      PlaceInside(|txids|, a.offset);
    }
  }

  // ----- Which bottom leaves are read

  /** No leaf is both a transaction and a duplicate, as in every decoded BUMP. */
  predicate FlagsExclusive(path: seq<seq<Leaf>>)
    requires |path| > 0
  {
    forall f :: f in path[0] ==> !(f.txId && f.duplicate)
  }

  predicate Flagged(path: seq<seq<Leaf>>, f: Leaf)
    requires |path| > 0
  {
    f in path[0] && f.txId
  }

  /** The leaf at position p is the one that a search for its offset finds. */
  predicate FirstAt(level: seq<Leaf>, p: nat)
    requires p < |level|
  {
    forall j :: 0 <= j < p ==> level[j].offset != level[p].offset
  }

  /** The path of f reads the bottom leaf at position p, as the sibling of f. */
  predicate ReadAsPair(path: seq<seq<Leaf>>, f: Leaf, p: nat)
    requires |path| > 0 && p < |path[0]|
  {
    FirstAt(path[0], p) && path[0][p].offset == OffsetPair(f.offset)
  }

  /** The path of f reads it as a child of the sibling one level up, which is not given. */
  predicate ReadAsChild(path: seq<seq<Leaf>>, f: Leaf, p: nat)
    requires |path| > 0 && p < |path[0]|
  {
    && |path| > 1 && FindLeaf(OffsetPair(f.offset / 2), path[1]).None?
    && FirstAt(path[0], p) && path[0][p].offset / 2 == OffsetPair(f.offset / 2)
  }

  /** The leaf is flagged as a transaction, or the path of a flagged leaf reads it. */
  predicate IsRead(path: seq<seq<Leaf>>, p: nat)
    requires |path| > 0 && p < |path[0]|
  {
    path[0][p].txId || exists f :: f in path[0] && f.txId && (ReadAsPair(path, f, p) || ReadAsChild(path, f, p))
  }

  lemma {:induction false} FindsFirst(level: seq<Leaf>, p: nat)
    requires p < |level| && FirstAt(level, p)
    ensures FindLeaf(level[p].offset, level) == Some(level[p])
    decreases |level|
  {
    if p > 0 {
      assert level[0].offset != level[p].offset;
      FindsFirst(level[1..], p - 1);
    }
  }

  // ----- A leaf that is read is in the block

  /** Hashing it with d siblings gives a transaction of the block. */
  ghost predicate FoldsInto(H: Hasher, txids: seq<Hash>, d: nat, hash: Hash) {
    exists j: nat, proof: seq<Hash> :: |proof| == d && Fold(H, hash, j, proof) in txids
  }

  /** What a path of k levels proves of a hash: that it is a transaction of the block when k is
      the height of the block's tree, an inner node when k is smaller, and that a transaction id
      is hashed from it when k is larger. */
  ghost predicate Placed(H: Hasher, txids: seq<Hash>, k: nat, hash: Hash)
    requires |txids| >= 1
  {
    if k < CeilLog2(|txids|) then hash in Bottom(H, txids, k) else FoldsInto(H, txids, Extra(txids, k), hash)
  }

  lemma PlacedAtFullHeight(H: Hasher, txids: seq<Hash>, hash: Hash)
    requires |txids| >= 1
    ensures Placed(H, txids, CeilLog2(|txids|), hash) <==> hash in txids
  {
    if FoldsInto(H, txids, 0, hash) {
      var j: nat, proof: seq<Hash> :| |proof| == 0 && Fold(H, hash, j, proof) in txids;
    } else {
      assert Fold(H, hash, 0, []) == hash;
    }
  }

  /** The pair of bottom leaves that the path of f hashes for the sibling one level up. */
  function ChildPair(path: seq<seq<Leaf>>, f: Leaf): Option<(Hash, Hash)>
    requires |path| > 0
  {
    var q := OffsetPair(f.offset / 2);
    var left, right := FindLeaf(2 * q, path[0]), FindLeaf(2 * q + 1, path[0]);
    if left.None? || right.None? then None else Some(PrepareNodes(left.value, q, right.value, 2 * q + 1))
  }

  /** That pair and a pair of the block's tree collide. */
  ghost predicate ChildrenCollide(H: Hasher, txids: seq<Hash>, path: seq<seq<Leaf>>, f: Leaf)
    requires |txids| >= 1 && |path| > 0
  {
    && ChildPair(path, f).Some?
    && var pair, bottom := ChildPair(path, f).value, Bottom(H, txids, |path|);
       exists m :: 0 <= m && 2 * m < |bottom|
         && Collision(H, pair.0, pair.1, Children(bottom, m).0, Children(bottom, m).1)
  }

  /** The evaluation of some flagged leaf exhibits a collision with the block's tree. */
  ghost predicate CollisionFound(H: Hasher, txids: seq<Hash>, path: seq<seq<Leaf>>)
    requires |txids| >= 1 && |path| > 0
  {
    exists f :: Flagged(path, f) && (RunsInto(H, txids, path, f) || ChildrenCollide(H, txids, path, f))
  }

  lemma FirstSibling(H: Hasher, path: seq<seq<Leaf>>, f: Leaf, p: nat)
    requires |path| > 0 && Climb(H, path, 0, f).Ok? && p < |path[0]| && ReadAsPair(path, f, p) && !path[0][p].duplicate
    ensures Siblings(H, path, 0, f)[0] == path[0][p].hash
  {
    FindsFirst(path[0], p);
  }

  lemma ChildPairIsComputed(H: Hasher, path: seq<seq<Leaf>>, f: Leaf, computed: Leaf)
    requires |path| > 0 && CalculateFromChildren(H, OffsetPair(f.offset / 2), path[0]) == Ok(computed)
    ensures ChildPair(path, f).Some? && !computed.duplicate
    ensures computed.hash == H(ChildPair(path, f).value.0, ChildPair(path, f).value.1)
  {
    var q := OffsetPair(f.offset / 2);
    assert WrapAdd(q, q) == 2 * q && WrapAdd(2 * q, 1) == 2 * q + 1;
  }

  lemma SecondSibling(H: Hasher, path: seq<seq<Leaf>>, f: Leaf)
    requires |path| > 1 && Climb(H, path, 0, f).Ok? && FindLeaf(OffsetPair(f.offset / 2), path[1]).None?
    ensures ChildPair(path, f).Some?
    ensures Siblings(H, path, 0, f)[1] == H(ChildPair(path, f).value.0, ChildPair(path, f).value.1)
  {
    SiblingsTail(H, path, f);
    ChildPairIsComputed(H, path, f, PairLeaf(H, path, 1, f.offset / 2).value);
  }

  lemma SiblingsTail(H: Hasher, path: seq<seq<Leaf>>, f: Leaf)
    requires |path| > 1 && Climb(H, path, 0, f).Ok?
    ensures PairLeaf(H, path, 1, f.offset / 2).Ok?
    ensures Siblings(H, path, 0, f)[1] ==
            SiblingHash(Above(H, f, PairLeaf(H, path, 0, f.offset).value), PairLeaf(H, path, 1, f.offset / 2).value)
  {
    var above := Above(H, f, PairLeaf(H, path, 0, f.offset).value);
    assert Siblings(H, path, 0, f)[1] == Siblings(H, path, 1, above)[0];
  }

  /** A leaf read as a sibling of a transaction is at the bottom of the block's tree. */
  lemma PairIsPlaced(H: Hasher, bottom: seq<Hash>, path: seq<seq<Leaf>>, f: Leaf, p: nat)
    requires |bottom| > 1 && |path| > 0 && Climb(H, path, 0, f).Ok?
    requires p < |path[0]| && ReadAsPair(path, f, p) && !path[0][p].duplicate
    requires Siblings(H, path, 0, f) == PlaceProof(H, bottom, f.offset)
    ensures path[0][p].hash in bottom
  {
    FirstSibling(H, path, f, p);
    PlaceProofFirst(H, bottom, f.offset);
  }

  lemma ChildIsInPair(path: seq<seq<Leaf>>, f: Leaf, p: nat)
    requires |path| > 1 && p < |path[0]| && ReadAsChild(path, f, p) && !path[0][p].duplicate && ChildPair(path, f).Some?
    ensures path[0][p].hash == ChildPair(path, f).value.0 || path[0][p].hash == ChildPair(path, f).value.1
  {
    FindsFirst(path[0], p);
    var q := OffsetPair(f.offset / 2);
    assert path[0][p].offset == 2 * q || path[0][p].offset == 2 * q + 1;
  }

  /** So is a leaf read as a child of a sibling one level up. */
  lemma ChildIsPlaced(H: Hasher, txids: seq<Hash>, bottom: seq<Hash>, path: seq<seq<Leaf>>, f: Leaf, p: nat)
    requires |txids| >= 1 && bottom == Bottom(H, txids, |path|) && |bottom| > 1 && |NextLevel(H, bottom)| > 1
    requires |path| > 1 && Climb(H, path, 0, f).Ok?
    requires p < |path[0]| && ReadAsChild(path, f, p) && !path[0][p].duplicate
    requires Siblings(H, path, 0, f) == PlaceProof(H, bottom, f.offset)
    ensures path[0][p].hash in bottom || ChildrenCollide(H, txids, path, f)
  {
    SecondSibling(H, path, f);
    ChildIsInPair(path, f, p);
    var m := PlaceProofSecond(H, bottom, f.offset);
    var pair := ChildPair(path, f).value;
    assert H(pair.0, pair.1) == H(Children(bottom, m).0, Children(bottom, m).1);
    if !Collision(H, pair.0, pair.1, Children(bottom, m).0, Children(bottom, m).1) {
      assert pair == Children(bottom, m);
    }
  }

  /** What the path of one flagged leaf reads is at the bottom of the block's tree. */
  lemma ReadIsPlaced(H: Hasher, txids: seq<Hash>, path: seq<seq<Leaf>>, f: Leaf, p: nat)
    requires |txids| >= 1 && 0 < |path| <= CeilLog2(|txids|) && !f.duplicate
    requires Climb(H, path, 0, f) == Ok(Root(H, txids))
    requires p < |path[0]| && !path[0][p].duplicate
    requires path[0][p] == f || ReadAsPair(path, f, p) || ReadAsChild(path, f, p)
    ensures path[0][p].hash in Bottom(H, txids, |path|) || RunsInto(H, txids, path, f)
            || ChildrenCollide(H, txids, path, f)
  {
    var bottom := Bottom(H, txids, |path|);
    PathAgrees(H, txids, path, f, 0, bottom, f.offset);
    var siblings := Siblings(H, path, 0, f);
    assert siblings[..0] == [] && siblings[0..] == siblings;
    BottomFits(H, txids, |path|);
    Taller(H, bottom);
    if !RunsInto(H, txids, path, f) && path[0][p] != f {
      if ReadAsPair(path, f, p) {
        PairIsPlaced(H, bottom, path, f, p);
      } else {
        Taller(H, NextLevel(H, bottom));
        ChildIsPlaced(H, txids, bottom, path, f, p);
      }
    }
  }

  // ----- Paths that are too long

  /** Two neighbours have one parent, from whichever side it is computed. */
  lemma Swapped(H: Hasher, j: u64, x: Hash, y: Hash)
    ensures Combine(H, OffsetPair(j), y, x) == Combine(H, j, x, y) && OffsetPair(j) / 2 == j / 2
  {
  }

  lemma FoldFrom(H: Hasher, x: Hash, j: nat, proof: seq<Hash>)
    requires proof != []
    ensures Fold(H, x, j, proof) == Fold(H, Combine(H, j, x, proof[0]), j / 2, proof[1..])
  {
  }

  /** From the sibling of f the same node is reached as from f. */
  lemma FromPair(H: Hasher, x: Hash, j: u64, rest: seq<Hash>) returns (proof: seq<Hash>)
    requires rest != []
    ensures |proof| == |rest| && Fold(H, rest[0], OffsetPair(j), proof) == Fold(H, x, j, rest)
  {
    proof := [x] + rest[1..];
    Swapped(H, j, x, rest[0]);
    FoldFrom(H, x, j, rest);
    assert proof[1..] == rest[1..];
  }

  /** And from a child of the second sibling. */
  lemma FromChild(H: Hasher, x: Hash, j: u64, rest: seq<Hash>, g: Hash, other: Hash, o: u64) returns (proof: seq<Hash>)
    requires |rest| > 1 && o / 2 == OffsetPair(j / 2) && rest[1] == Combine(H, o, g, other)
    ensures |proof| == |rest| && Fold(H, g, o, proof) == Fold(H, x, j, rest)
  {
    FoldFrom(H, x, j, rest);
    var up := FromPair(H, Combine(H, j, x, rest[0]), j / 2, rest[1..]);
    proof := [other] + up;
    assert proof[1..] == up;
  }

  /** The other hash of the pair that a child belongs to. */
  lemma OtherChild(H: Hasher, path: seq<seq<Leaf>>, f: Leaf, p: nat) returns (other: Hash)
    requires |path| > 1 && p < |path[0]| && ReadAsChild(path, f, p) && !path[0][p].duplicate && ChildPair(path, f).Some?
    ensures Combine(H, path[0][p].offset, path[0][p].hash, other) ==
            H(ChildPair(path, f).value.0, ChildPair(path, f).value.1)
  {
    FindsFirst(path[0], p);
    var q := OffsetPair(f.offset / 2);
    assert path[0][p].offset == 2 * q || path[0][p].offset == 2 * q + 1;
    other := if path[0][p].offset == 2 * q then ChildPair(path, f).value.1 else ChildPair(path, f).value.0;
  }

  /** A child of a sibling one level up, on a path that is one or more levels too long. */
  lemma LongChild(H: Hasher, txids: seq<Hash>, path: seq<seq<Leaf>>, f: Leaf, p: nat, d: nat, siblings: seq<Hash>)
    requires |txids| >= 1 && |path| > 1 && Climb(H, path, 0, f).Ok? && siblings == Siblings(H, path, 0, f)
    requires 0 < d <= |path| && Fold(H, f.hash, f.offset, siblings[..d]) in txids
    requires d == 1 ==> siblings[1] in txids
    requires p < |path[0]| && ReadAsChild(path, f, p) && !path[0][p].duplicate
    ensures FoldsInto(H, txids, d, path[0][p].hash)
  {
    var g := path[0][p];
    SecondSibling(H, path, f);
    var other := OtherChild(H, path, f, p);
    if d == 1 {
      assert Fold(H, g.hash, g.offset, [other]) == siblings[1];
    } else {
      var proof := FromChild(H, f.hash, f.offset, siblings[..d], g.hash, other, g.offset);
      assert Fold(H, g.hash, g.offset, proof) in txids;
    }
  }

  /** What the path of one flagged leaf reads is hashed into a transaction, when it is too long. */
  lemma LongReadIsPlaced(H: Hasher, txids: seq<Hash>, path: seq<seq<Leaf>>, f: Leaf, p: nat, d: nat)
    requires |txids| >= 1 && |path| > CeilLog2(|txids|) && d == Extra(txids, |path|)
    requires !f.duplicate && Climb(H, path, 0, f) == Ok(Root(H, txids))
    requires p < |path[0]| && !path[0][p].duplicate
    requires path[0][p] == f || ReadAsPair(path, f, p) || ReadAsChild(path, f, p)
    ensures FoldsInto(H, txids, d, path[0][p].hash) || RunsInto(H, txids, path, f)
  {
    var siblings, j := Siblings(H, path, 0, f), Shifted(f.offset, d);
    PathAgrees(H, txids, path, f, d, txids, j);
    if !RunsInto(H, txids, path, f) {
      assert Fold(H, f.hash, f.offset, siblings[..d]) in txids;
      if path[0][p] != f && ReadAsPair(path, f, p) {
        FirstSibling(H, path, f, p);
        var proof := FromPair(H, f.hash, f.offset, siblings[..d]);
        assert Fold(H, path[0][p].hash, OffsetPair(f.offset), proof) in txids;
      } else if path[0][p] != f {
        if d == 1 {
          CeilLog2Step(|txids|);
          PlaceProofFirst(H, txids, j);
          assert siblings[1] == siblings[1..][0];
        }
        LongChild(H, txids, path, f, p, d, siblings);
      }
    }
  }

  /** When all flagged leaves evaluate to the block's root, every bottom leaf that is flagged, or
      read for a flagged one, is placed in the block's tree as its number of levels says: in the
      block, when that is the height of the tree. Or a collision is exhibited. */
  lemma ReadLeafIsInBlock(H: Hasher, txids: seq<Hash>, path: seq<seq<Leaf>>, p: nat)
    requires |txids| >= 1 && |path| > 0 && FlagsExclusive(path)
    requires forall f :: Flagged(path, f) ==> Climb(H, path, 0, f) == Ok(Root(H, txids))
    requires p < |path[0]| && !path[0][p].duplicate && IsRead(path, p)
    ensures Placed(H, txids, |path|, path[0][p].hash) || CollisionFound(H, txids, path)
    ensures |path| == CeilLog2(|txids|) ==> path[0][p].hash in txids || CollisionFound(H, txids, path)
  {
    PlacedAtFullHeight(H, txids, path[0][p].hash);
    var f := path[0][p];
    if !f.txId {
      f :| f in path[0] && f.txId && (ReadAsPair(path, f, p) || ReadAsChild(path, f, p));
    }
    assert Flagged(path, f);
    if |path| <= CeilLog2(|txids|) {
      ReadIsPlaced(H, txids, path, f, p);
    } else {
      LongReadIsPlaced(H, txids, path, f, p, Extra(txids, |path|));
    }
  }

  // ----- A leaf that is not read can be anything

  /** The path with another hash in the bottom leaf at position p. */
  function Rehashed(path: seq<seq<Leaf>>, p: nat, x: Hash): (after: seq<seq<Leaf>>)
    requires |path| > 0 && p < |path[0]|
    ensures |after| == |path|
  {
    path[0 := path[0][p := path[0][p].(hash := x)]]
  }

  lemma FirstInTail(level: seq<Leaf>, p: nat)
    requires 0 < p < |level|
    ensures FirstAt(level, p) <==> level[0].offset != level[p].offset && FirstAt(level[1..], p - 1)
  {
    if level[0].offset != level[p].offset && FirstAt(level[1..], p - 1) {
      forall j | 0 <= j < p
        ensures level[j].offset != level[p].offset
      {
        if j > 0 {
          assert level[j] == level[1..][j - 1];
        }
      }
    }
  }

  lemma {:induction false} FindRehashed(offset: u64, level: seq<Leaf>, p: nat, x: Hash)
    requires p < |level| && !(FirstAt(level, p) && level[p].offset == offset)
    ensures FindLeaf(offset, level[p := level[p].(hash := x)]) == FindLeaf(offset, level)
    decreases |level|
  {
    if level[0].offset != offset && p > 0 {
      assert level[p := level[p].(hash := x)][1..] == level[1..][p - 1 := level[p].(hash := x)];
      FirstInTail(level, p);
      FindRehashed(offset, level[1..], p - 1, x);
    } else if p == 0 {
      assert level[0 := level[0].(hash := x)][1..] == level[1..];
    }
  }

  lemma {:induction false} ClimbAboveSame(H: Hasher, path: seq<seq<Leaf>>, after: seq<seq<Leaf>>, i: nat, base: Leaf)
    requires |after| == |path| > 0 && after[1..] == path[1..] && 2 <= i <= |path|
    ensures Climb(H, after, i, base) == Climb(H, path, i, base)
    decreases |path| - i
  {
    if i < |path| {
      assert after[i] == after[1..][i - 1] == path[i] && after[i - 1] == after[1..][i - 2] == path[i - 1];
      if PairLeaf(H, path, i, base.offset).Ok? {
        ClimbAboveSame(H, path, after, i + 1, Above(H, base, PairLeaf(H, path, i, base.offset).value));
      }
    }
  }

  lemma PairRehashed(H: Hasher, path: seq<seq<Leaf>>, p: nat, x: Hash, f: Leaf)
    requires |path| > 0 && p < |path[0]| && !ReadAsPair(path, f, p)
    ensures PairLeaf(H, Rehashed(path, p, x), 0, f.offset) == PairLeaf(H, path, 0, f.offset)
  {
    FindRehashed(OffsetPair(f.offset), path[0], p, x);
  }

  lemma ChildRehashed(H: Hasher, path: seq<seq<Leaf>>, p: nat, x: Hash, f: Leaf)
    requires |path| > 1 && p < |path[0]| && !ReadAsChild(path, f, p)
    ensures PairLeaf(H, Rehashed(path, p, x), 1, f.offset / 2) == PairLeaf(H, path, 1, f.offset / 2)
  {
    var q := OffsetPair(f.offset / 2);
    if FindLeaf(q, path[1]).None? {
      FindRehashed(2 * q, path[0], p, x);
      FindRehashed(2 * q + 1, path[0], p, x);
      assert WrapAdd(q, q) == 2 * q && WrapAdd(2 * q, 1) == 2 * q + 1;
    }
  }

  /** A flagged leaf's path does not notice a change in a leaf that it does not read. */
  lemma ClimbRehashed(H: Hasher, path: seq<seq<Leaf>>, p: nat, x: Hash, f: Leaf)
    requires |path| > 0 && p < |path[0]| && !ReadAsPair(path, f, p) && !ReadAsChild(path, f, p)
    ensures Climb(H, Rehashed(path, p, x), 0, f) == Climb(H, path, 0, f)
  {
    PairRehashed(H, path, p, x, f);
    if PairLeaf(H, path, 0, f.offset).Ok? && |path| > 1 {
      var above := Above(H, f, PairLeaf(H, path, 0, f.offset).value);
      ChildRehashed(H, path, p, x, f);
      if PairLeaf(H, path, 1, above.offset).Ok? {
        ClimbAboveSame(H, path, Rehashed(path, p, x), 2, Above(H, above, PairLeaf(H, path, 1, above.offset).value));
      }
    }
  }

  /** The flagged leaves and what they evaluate to stay the same when a leaf that is not read gets
      another hash. */
  lemma UnreadLeafIsFree(H: Hasher, path: seq<seq<Leaf>>, p: nat, x: Hash, f: Leaf)
    requires |path| > 0 && p < |path[0]| && !IsRead(path, p)
    ensures Flagged(Rehashed(path, p, x), f) <==> Flagged(path, f)
    ensures Flagged(path, f) ==> Climb(H, Rehashed(path, p, x), 0, f) == Climb(H, path, 0, f)
  {
    var after := Rehashed(path, p, x);
    if Flagged(path, f) {
      var j :| 0 <= j < |path[0]| && path[0][j] == f;
      assert after[0][j] == f;
      ClimbRehashed(H, path, p, x, f);
    }
    if Flagged(after, f) {
      var j :| 0 <= j < |after[0]| && after[0][j] == f;
      assert j != p && path[0][j] == f;
    }
  }
}
