/**
 The two ways in which blocks reach the chain manager: one announced block on a known parent,
 and a branch found by walking backwards from a remote tip.
 */
module ChainSteps {
  import opened Base
  import opened ChainWork
  import opened BlockHeaders
  import opened Chain

  // ----- One announced block

  function NewBlock(net: Net, parent: BlockHeader, header: Header, height: nat): BlockHeader {
    BlockHeader(header, height, net.hashOf(header), parent.chainWork + net.work(header.bits))
  }

  function Insert(s: State, b: BlockHeader): State {
    s.(byHash := s.byHash[b.hash := b])
  }

  /** Records the block under the announced height; it becomes the tip only with more work. */
  function AddBlock(net: Net, s: State, header: Header, height: nat): Option<State> {
    if header.prevHash !in s.byHash then None
    else
      var b := NewBlock(net, s.byHash[header.prevHash], header, height);
      if s.tip.None? || b.chainWork > s.tip.value.chainWork
      then Some(SetTip(Insert(s, b), [b]))
      else Some(Insert(s, b))
  }

  /** The block is the new tip when, with its own work on top of its parent's, it has more than the tip;
      otherwise the main chain stays as it was. */
  lemma AddBlockTip(net: Net, s: State, header: Header, height: nat, after: State)
    requires s.tip.Some? && header.prevHash in s.byHash && AddBlock(net, s, header, height) == Some(after)
    ensures var work := s.byHash[header.prevHash].chainWork + net.work(header.bits);
            if work > s.tip.value.chainWork
            then after.tip == Some(BlockHeader(header, height, net.hashOf(header), work))
            else after.tip == s.tip && after.byHeight == s.byHeight
  {
  }

  lemma InsertKeepsInv(net: Net, genesis: Header, s: State, b: BlockHeader)
    requires Inv(net, genesis, s) && b.hash !in s.byHash && OnSomeChain(net, genesis, b)
    ensures Inv(net, genesis, Insert(s, b))
  {
    assert Recorded(Insert(s, b));
    assert Entries(Insert(s, b)) == Entries(s);
  }

  lemma ParentOnMain(net: Net, genesis: Header, s: State, parent: Hash)
    requires Inv(net, genesis, s) && parent in s.byHeight
    ensures parent in s.byHash && s.byHash[parent].hash == parent && s.byHash[parent].height < |s.byHeight|
    ensures s.byHeight[s.byHash[parent].height] == parent
    ensures OnSomeChain(net, genesis, s.byHash[parent])
  {
    OnMainChainIsMembership(net, genesis, s, parent);
  }

  lemma ChildExtends(net: Net, genesis: Header, s: State, b: BlockHeader)
    requires Inv(net, genesis, s) && b.hash !in s.byHash && b.header.prevHash in s.byHeight
    requires b.header.prevHash in s.byHash && IsChild(net, s.byHash[b.header.prevHash], b)
    ensures Extends(net, Insert(s, b), [b])
  {
    ParentOnMain(net, genesis, s, b.header.prevHash);
  }

  /** A new block on the main chain, announced at its parent's height plus one, keeps the
      invariant whether or not it becomes the tip. */
  lemma AddBlockKeepsInv(net: Net, genesis: Header, s: State, header: Header, height: nat)
    requires Inv(net, genesis, s) && net.hashOf(header) !in s.byHash && header.prevHash in s.byHeight
    requires header.prevHash in s.byHash && height == s.byHash[header.prevHash].height + 1
    ensures AddBlock(net, s, header, height).Some?
    ensures Inv(net, genesis, AddBlock(net, s, header, height).value)
  {
    ParentOnMain(net, genesis, s, header.prevHash);
    var parent := s.byHash[header.prevHash];
    var b := NewBlock(net, parent, header, height);
    ChildOnChain(net, genesis, parent, b);
    InsertKeepsInv(net, genesis, s, b);
    if b.chainWork > s.tip.value.chainWork {
      ChildExtends(net, genesis, s, b);
      SetTipKeepsInv(net, genesis, Insert(s, b), [b], SetTip(Insert(s, b), [b]));
    }
  }

  /** For a block that becomes the tip, any other announced height breaks the main chain. */
  lemma AddBlockExact(net: Net, genesis: Header, s: State, header: Header, height: nat)
    requires Inv(net, genesis, s) && net.hashOf(header) !in s.byHash && header.prevHash in s.byHeight
    requires header.prevHash in s.byHash
    requires s.byHash[header.prevHash].chainWork + net.work(header.bits) > s.tip.value.chainWork
    ensures AddBlock(net, s, header, height).Some?
    ensures Inv(net, genesis, AddBlock(net, s, header, height).value)
            <==> height == s.byHash[header.prevHash].height + 1
  {
    if height == s.byHash[header.prevHash].height + 1 {
      AddBlockKeepsInv(net, genesis, s, header, height);
    } else if Inv(net, genesis, AddBlock(net, s, header, height).value) {
      TipHeightIsRight(net, genesis, s, NewBlock(net, s.byHash[header.prevHash], header, height));
    }
  }

  lemma TipHeightIsRight(net: Net, genesis: Header, s: State, b: BlockHeader)
    requires Inv(net, genesis, s) && b.hash !in s.byHash && b.hash == net.hashOf(b.header)
    requires b.header.prevHash in s.byHash && Inv(net, genesis, SetTip(Insert(s, b), [b]))
    ensures b.height == s.byHash[b.header.prevHash].height + 1
  {
    var after := SetTip(Insert(s, b), [b]);
    var main := Entries(after);
    assert main[|main| - 1] == b && |main| == b.height + 1;
    assert Entries(s)[0].hash == s.byHeight[0] == net.hashOf(genesis);
    assert b.height > 0;
    var k := after.byHeight[b.height - 1];
    assert IsChild(net, main[b.height - 1], b);
    assert k == b.header.prevHash;
    SetTipLookup(Insert(s, b), [b], after, k);
  }

  /** A block that is recorded without becoming the tip keeps the invariant if and only if its
      height and work are those of some chain from genesis. */
  lemma AddOrphanExact(net: Net, genesis: Header, s: State, header: Header, height: nat, b: BlockHeader)
    requires Inv(net, genesis, s) && net.hashOf(header) !in s.byHash && header.prevHash in s.byHash
    requires b == NewBlock(net, s.byHash[header.prevHash], header, height) && b.chainWork <= s.tip.value.chainWork
    ensures AddBlock(net, s, header, height) == Some(Insert(s, b))
    ensures Inv(net, genesis, Insert(s, b)) <==> OnSomeChain(net, genesis, b)
  {
    if OnSomeChain(net, genesis, b) {
      InsertKeepsInv(net, genesis, s, b);
    } else {
      assert Insert(s, b).byHash[b.hash] == b;
    }
  }

  /** Announced at the height above its parent, or recorded beside the main chain with the height
      and work of some chain from genesis. */
  ghost predicate AnnouncedWell(net: Net, genesis: Header, s: State, header: Header, height: nat)
    requires header.prevHash in s.byHash && s.tip.Some?
  {
    var b := NewBlock(net, s.byHash[header.prevHash], header, height);
    || height == s.byHash[header.prevHash].height + 1
    || (b.chainWork <= s.tip.value.chainWork && OnSomeChain(net, genesis, b))
  }

  /** A new block on the main chain keeps the invariant if and only if it was announced well. */
  lemma AnnouncedExact(net: Net, genesis: Header, s: State, header: Header, height: nat)
    requires Inv(net, genesis, s) && net.hashOf(header) !in s.byHash && header.prevHash in s.byHeight
    requires header.prevHash in s.byHash
    ensures AddBlock(net, s, header, height).Some?
    ensures Inv(net, genesis, AddBlock(net, s, header, height).value)
            <==> AnnouncedWell(net, genesis, s, header, height)
  {
    var b := NewBlock(net, s.byHash[header.prevHash], header, height);
    if height == s.byHash[header.prevHash].height + 1 {
      AddBlockKeepsInv(net, genesis, s, header, height);
    } else if b.chainWork > s.tip.value.chainWork {
      AddBlockExact(net, genesis, s, header, height);
    } else {
      AddOrphanExact(net, genesis, s, header, height, b);
    }
  }

  /** Two headers of the chains are different and have one hash. */
  ghost predicate ChainsCollide(net: Net, c: seq<Header>, d: seq<Header>) {
    exists i, j :: 0 <= i < |c| && 0 <= j < |d| && c[i] != d[j] && net.hashOf(c[i]) == net.hashOf(d[j])
  }

  /** The chain leads back to genesis: one of its headers is the parent that genesis names. */
  ghost predicate LeadsToGenesis(net: Net, genesis: Header, c: seq<Header>) {
    exists i :: 0 <= i < |c| && net.hashOf(c[i]) == genesis.prevHash
  }

  /** Chains from genesis that have one hash at two heights collide, or lead back to genesis. */
  lemma {:induction false} ChainsMeet(net: Net, genesis: Header, c: seq<Header>, i: nat, d: seq<Header>, j: nat)
    requires Linked(net, genesis, c) && Linked(net, genesis, d) && i < |c| && j < |d| && i != j
    requires net.hashOf(c[i]) == net.hashOf(d[j])
    ensures ChainsCollide(net, c, d) || LeadsToGenesis(net, genesis, c) || LeadsToGenesis(net, genesis, d)
    decreases i
  {
    if c[i] == d[j] {
      if i == 0 {
        assert net.hashOf(d[j - 1]) == genesis.prevHash;
      } else if j == 0 {
        assert net.hashOf(c[i - 1]) == genesis.prevHash;
      } else {
        ChainsMeet(net, genesis, c, i - 1, d, j - 1);
      }
    }
  }

  /** A block announced at a wrong height that is on some chain all the same exhibits a hash
      collision, or a cycle through genesis. */
  lemma WrongHeightOnChain(net: Net, genesis: Header, parent: BlockHeader, b: BlockHeader)
    returns (c: seq<Header>, d: seq<Header>)
    requires OnSomeChain(net, genesis, parent) && OnSomeChain(net, genesis, b) && b.header != genesis
    requires b.header.prevHash == parent.hash && b.height != parent.height + 1
    ensures EndsChain(net, genesis, parent, c) && EndsChain(net, genesis, b, d)
    ensures ChainsCollide(net, c, d) || LeadsToGenesis(net, genesis, c) || LeadsToGenesis(net, genesis, d)
  {
    c :| EndsChain(net, genesis, parent, c);
    d :| EndsChain(net, genesis, b, d);
    ChainsMeet(net, genesis, c, parent.height, d, b.height - 1);
  }

  /** With valid targets, cumulative work strictly grows along a chain. */
  lemma {:induction false} WorkGrows(net: Net, main: seq<BlockHeader>, i: nat, j: nat)
    requires (forall bits: u32 :: net.work(bits) == CalculateWork(bits)) && IsBranch(net, main) && i < j < |main|
    requires forall n :: 0 <= n < |main| ==> 0 < CompactToBig(main[n].header.bits) < ONE_LSH_256
    ensures main[i].chainWork < main[j].chainWork
    decreases j - i
  {
    assert IsChild(net, main[j - 1], main[j]);
    WorkBounds(CompactToBig(main[j].header.bits));
    if i < j - 1 {
      WorkGrows(net, main, i, j - 1);
    }
  }

  // ----- A branch from a remote node

  /** Headers newest first: the first has the given hash, each names the hash of the next. */
  ghost predicate Backward(net: Net, from: Hash, hs: seq<Header>) {
    && (|hs| > 0 ==> net.hashOf(hs[0]) == from)
    && forall i :: 0 <= i < |hs| - 1 ==> hs[i].prevHash == net.hashOf(hs[i + 1])
  }

  /** The hash at which walking back over these headers ends. */
  function WalkEnd(from: Hash, hs: seq<Header>): Hash {
    if hs == [] then from else hs[|hs| - 1].prevHash
  }

  /** The n-th request, for the headers back from a hash; None when the request fails. */
  type Fetch = (nat, Hash) -> Option<seq<Header>>

  /** A remote node whose answers are parent-linked, and whose blocks have a distance to genesis. */
  ghost predicate RemoteChain(net: Net, fetch: Fetch, distance: Hash -> nat) {
    forall n: nat, h: Hash :: HonestAnswer(net, fetch, distance, n, h)
  }

  ghost predicate HonestAnswer(net: Net, fetch: Fetch, distance: Hash -> nat, n: nat, h: Hash) {
    fetch(n, h).Some? ==> Backward(net, h, fetch(n, h).value) && Descending(net, distance, fetch(n, h).value)
  }

  ghost predicate Descending(net: Net, distance: Hash -> nat, hs: seq<Header>) {
    forall i :: 0 <= i < |hs| ==> distance(hs[i].prevHash) < distance(net.hashOf(hs[i]))
  }

  lemma BackwardAppend(net: Net, from: Hash, a: seq<Header>, b: seq<Header>)
    requires Backward(net, from, a) && Backward(net, WalkEnd(from, a), b)
    ensures Backward(net, from, a + b) && WalkEnd(from, a + b) == WalkEnd(WalkEnd(from, a), b)
  {
  }

  /** Walking back never meets a block twice. */
  lemma {:induction false} WalkDescends(net: Net, distance: Hash -> nat, from: Hash, hs: seq<Header>, i: nat, j: nat)
    requires Backward(net, from, hs) && Descending(net, distance, hs) && i < j < |hs|
    ensures distance(net.hashOf(hs[j])) < distance(net.hashOf(hs[i]))
    decreases j - i
  {
    assert hs[j - 1].prevHash == net.hashOf(hs[j]);
    if i < j - 1 {
      WalkDescends(net, distance, from, hs, i, j - 1);
    }
  }

  function Reverse(hs: seq<Header>): (r: seq<Header>)
    ensures |r| == |hs| && forall i :: 0 <= i < |r| ==> r[i] == hs[|hs| - 1 - i]
  {
    if hs == [] then [] else [hs[|hs| - 1]] + Reverse(hs[..|hs| - 1])
  }

  /** Heights and cumulative work of a branch, oldest first, counted from the ancestor. */
  function Number(net: Net, ancestor: BlockHeader, hs: seq<Header>): (branch: seq<BlockHeader>)
    ensures |branch| == |hs|
    ensures forall i :: 0 <= i < |hs| ==> branch[i].header == hs[i] && branch[i].hash == net.hashOf(hs[i])
  {
    if hs == [] then []
    else
      var init := Number(net, ancestor, hs[..|hs| - 1]);
      var parent := if init == [] then ancestor else init[|init| - 1];
      init + [NewBlock(net, parent, hs[|hs| - 1], parent.height + 1)]
  }

  lemma {:induction false} NumberIsBranch(net: Net, ancestor: BlockHeader, hs: seq<Header>)
    requires |hs| > 0 && hs[0].prevHash == ancestor.hash
    requires forall i :: 0 < i < |hs| ==> hs[i].prevHash == net.hashOf(hs[i - 1])
    ensures IsBranch(net, Number(net, ancestor, hs))
    ensures IsChild(net, ancestor, Number(net, ancestor, hs)[0])
    decreases |hs|
  {
    if |hs| > 1 {
      NumberIsBranch(net, ancestor, hs[..|hs| - 1]);
    }
  }

  /** A walk that ends on the main chain, and meets it nowhere before that. */
  ghost predicate FoundBranch(net: Net, distance: Hash -> nat, s: State, remoteTip: Hash,
                              walked: seq<Header>, ancestor: BlockHeader) {
    && Backward(net, remoteTip, walked)
    && Descending(net, distance, walked)
    && WalkEnd(remoteTip, walked) == ancestor.hash
    && ancestor.hash in s.byHeight && ancestor.hash in s.byHash && s.byHash[ancestor.hash] == ancestor
    && forall i :: 0 <= i < |walked| ==> net.hashOf(walked[i]) !in s.byHeight
  }

  /** The branch found is a proper extension of the main chain, whatever was recorded before. */
  lemma FoundBranchExtends(net: Net, genesis: Header, distance: Hash -> nat, s: State, remoteTip: Hash,
                           walked: seq<Header>, ancestor: BlockHeader, branch: seq<BlockHeader>)
    requires Inv(net, genesis, s) && FoundBranch(net, distance, s, remoteTip, walked, ancestor)
    requires |walked| > 0 && branch == Number(net, ancestor, Reverse(walked))
    ensures Extends(net, s, branch) && branch[0].height == ancestor.height + 1
  {
    NumberIsBranch(net, ancestor, Reverse(walked));
    ParentOnMain(net, genesis, s, ancestor.hash);
    WalkDistinct(net, distance, remoteTip, walked, branch);
    forall i, m | 0 <= i < |branch| && 0 <= m < branch[0].height
      ensures branch[i].hash != s.byHeight[m]
    {
      assert net.hashOf(walked[|walked| - 1 - i]) !in s.byHeight;
    }
  }

  lemma WalkDistinct(net: Net, distance: Hash -> nat, remoteTip: Hash, walked: seq<Header>, branch: seq<BlockHeader>)
    requires Backward(net, remoteTip, walked) && Descending(net, distance, walked)
    requires |branch| == |walked|
    requires forall i :: 0 <= i < |branch| ==> branch[i].hash == net.hashOf(walked[|walked| - 1 - i])
    ensures Distinct(branch)
  {
    forall i, j | 0 <= i < j < |branch|
      ensures branch[i].hash != branch[j].hash
    {
      WalkDescends(net, distance, remoteTip, walked, |walked| - 1 - j, |walked| - 1 - i);
    }
  }

  /** What walking back establishes whatever the remote node answers: it ends at a block of the main
      chain, and none of the headers fetched before that is on it. */
  ghost predicate Fetched(net: Net, s: State, walked: seq<Header>, ancestor: BlockHeader) {
    && ancestor.hash in s.byHeight && ancestor.hash in s.byHash && s.byHash[ancestor.hash] == ancestor
    && forall i :: 0 <= i < |walked| ==> net.hashOf(walked[i]) !in s.byHeight
  }

  /** Each header fetched names the next one as its parent, and the last one the ancestor. */
  ghost predicate LinkedDown(net: Net, walked: seq<Header>, ancestor: BlockHeader) {
    && (|walked| > 0 ==> walked[|walked| - 1].prevHash == ancestor.hash)
    && forall i :: 0 <= i < |walked| - 1 ==> walked[i].prevHash == net.hashOf(walked[i + 1])
  }

  ghost predicate NoneTwice(net: Net, walked: seq<Header>) {
    forall i, j :: 0 <= i < j < |walked| ==> net.hashOf(walked[i]) != net.hashOf(walked[j])
  }

  lemma {:induction false} NumberHeights(net: Net, ancestor: BlockHeader, hs: seq<Header>, i: nat)
    requires i < |hs|
    ensures Number(net, ancestor, hs)[i].height == ancestor.height + 1 + i
    decreases |hs|
  {
    var init := hs[..|hs| - 1];
    if i < |hs| - 1 {
      NumberHeights(net, ancestor, init, i);
    } else if |hs| > 1 {
      NumberHeights(net, ancestor, init, |hs| - 2);
    }
  }

  lemma NumberConsecutive(net: Net, genesis: Header, s: State, walked: seq<Header>, ancestor: BlockHeader,
                          branch: seq<BlockHeader>)
    requires Inv(net, genesis, s) && Fetched(net, s, walked, ancestor) && |walked| > 0
    requires branch == Number(net, ancestor, Reverse(walked))
    ensures Consecutive(s, branch) && branch[0].height == ancestor.height + 1
    ensures ancestor.height < |s.byHeight| && s.byHeight[ancestor.height] == ancestor.hash
  {
    ParentOnMain(net, genesis, s, ancestor.hash);
    forall i | 0 <= i < |branch|
      ensures branch[i].height == ancestor.height + 1 + i
    {
      NumberHeights(net, ancestor, Reverse(walked), i);
    }
  }

  /** The branch holds the headers, oldest first. */
  ghost predicate Renders(net: Net, walked: seq<Header>, branch: seq<BlockHeader>) {
    && |branch| == |walked|
    && forall i :: 0 <= i < |branch| ==>
         branch[i].header == walked[|walked| - 1 - i] && branch[i].hash == net.hashOf(branch[i].header)
  }

  /** The headers fetched form a branch exactly when they are linked down and none comes twice. */
  lemma WalkExtendsIff(net: Net, genesis: Header, s: State, walked: seq<Header>, ancestor: BlockHeader,
                       branch: seq<BlockHeader>)
    requires Inv(net, genesis, s) && Fetched(net, s, walked, ancestor) && |walked| > 0
    requires branch == Number(net, ancestor, Reverse(walked))
    ensures Extends(net, s, branch) <==> LinkedDown(net, walked, ancestor) && NoneTwice(net, walked)
  {
    NumberConsecutive(net, genesis, s, walked, ancestor, branch);
    LinkedIsBranchIff(net, walked, ancestor, branch);
    BranchDistinctIff(net, walked, branch);
    BranchIsNew(net, s, walked, branch);
    ExtendsIff(net, s, ancestor, branch);
  }

  lemma ExtendsIff(net: Net, s: State, ancestor: BlockHeader, branch: seq<BlockHeader>)
    requires Consecutive(s, branch) && branch[0].height == ancestor.height + 1 && NewTo(s, branch)
    requires s.byHeight[ancestor.height] == ancestor.hash
    requires ancestor.hash in s.byHash && s.byHash[ancestor.hash] == ancestor
    ensures Extends(net, s, branch) <==> IsBranch(net, branch) && IsChild(net, ancestor, branch[0]) && Distinct(branch)
  {
  }

  ghost predicate NewTo(s: State, branch: seq<BlockHeader>) {
    forall i, m :: 0 <= i < |branch| && 0 <= m < |s.byHeight| ==> branch[i].hash != s.byHeight[m]
  }

  lemma LinkedIsBranchIff(net: Net, walked: seq<Header>, ancestor: BlockHeader, branch: seq<BlockHeader>)
    requires |walked| > 0 && branch == Number(net, ancestor, Reverse(walked))
    ensures Renders(net, walked, branch)
    ensures LinkedDown(net, walked, ancestor) <==> IsBranch(net, branch) && IsChild(net, ancestor, branch[0])
  {
    if LinkedDown(net, walked, ancestor) {
      NumberIsBranch(net, ancestor, Reverse(walked));
    } else if IsBranch(net, branch) && IsChild(net, ancestor, branch[0]) {
      BranchLinksWalk(net, walked, ancestor, branch);
    }
  }

  lemma BranchDistinctIff(net: Net, walked: seq<Header>, branch: seq<BlockHeader>)
    requires Renders(net, walked, branch)
    ensures Distinct(branch) <==> NoneTwice(net, walked)
  {
    var n := |walked|;
    if NoneTwice(net, walked) {
      forall i, j | 0 <= i < j < n
        ensures branch[i].hash != branch[j].hash
      {
        assert net.hashOf(walked[n - 1 - j]) != net.hashOf(walked[n - 1 - i]);
      }
    }
    if Distinct(branch) {
      forall i, j | 0 <= i < j < n
        ensures net.hashOf(walked[i]) != net.hashOf(walked[j])
      {
        assert branch[n - 1 - j].hash != branch[n - 1 - i].hash;
      }
    }
  }

  lemma BranchIsNew(net: Net, s: State, walked: seq<Header>, branch: seq<BlockHeader>)
    requires Renders(net, walked, branch) && forall i :: 0 <= i < |walked| ==> net.hashOf(walked[i]) !in s.byHeight
    ensures NewTo(s, branch)
  {
    forall i, m | 0 <= i < |branch| && 0 <= m < |s.byHeight|
      ensures branch[i].hash != s.byHeight[m]
    {
      assert net.hashOf(walked[|walked| - 1 - i]) !in s.byHeight;
    }
  }

  lemma BranchLinksWalk(net: Net, walked: seq<Header>, ancestor: BlockHeader, branch: seq<BlockHeader>)
    requires Renders(net, walked, branch) && |walked| > 0
    requires IsBranch(net, branch) && IsChild(net, ancestor, branch[0])
    ensures LinkedDown(net, walked, ancestor)
  {
    var n := |walked|;
    assert branch[0].header == walked[n - 1];
    forall i | 0 <= i < n - 1
      ensures walked[i].prevHash == net.hashOf(walked[i + 1])
    {
      assert branch[n - 1 - i].header == walked[i] && branch[n - 2 - i].header == walked[i + 1];
      assert IsChild(net, branch[n - 2 - i], branch[n - 1 - i]);
    }
  }

  /** Links are not looked at before a branch is imported: whatever a remote node answered, the
      import keeps the invariant if and only if the headers are linked down to the common ancestor
      and none comes twice. */
  lemma SyncExact(net: Net, genesis: Header, s: State, walked: seq<Header>, ancestor: BlockHeader,
                  branch: seq<BlockHeader>, after: State)
    requires Inv(net, genesis, s) && Fetched(net, s, walked, ancestor) && |walked| > 0
    requires branch == Number(net, ancestor, Reverse(walked)) && after == SetTip(s, branch)
    ensures Inv(net, genesis, after) <==> LinkedDown(net, walked, ancestor) && NoneTwice(net, walked)
  {
    NumberConsecutive(net, genesis, s, walked, ancestor, branch);
    ImportExact(net, genesis, s, branch, after);
    WalkExtendsIff(net, genesis, s, walked, ancestor, branch);
  }

  /** A header that comes twice in a linked walk exhibits a hash collision. */
  lemma {:induction false} TwiceCollides(net: Net, s: State, walked: seq<Header>, ancestor: BlockHeader, i: nat, j: nat)
    requires Fetched(net, s, walked, ancestor) && LinkedDown(net, walked, ancestor)
    requires i < j < |walked| && net.hashOf(walked[i]) == net.hashOf(walked[j])
    ensures ChainsCollide(net, walked, walked)
    decreases |walked| - j
  {
    assert walked[i].prevHash == net.hashOf(walked[i + 1]) && net.hashOf(walked[i + 1]) != ancestor.hash;
    if walked[i] == walked[j] {
      TwiceCollides(net, s, walked, ancestor, i + 1, j + 1);
    }
  }

  /** The work of the headers of a branch. */
  function BranchWork(net: Net, hs: seq<Header>): nat {
    if hs == [] then 0 else BranchWork(net, hs[..|hs| - 1]) + net.work(hs[|hs| - 1].bits)
  }

  lemma {:induction false} NumberWork(net: Net, ancestor: BlockHeader, hs: seq<Header>)
    requires |hs| > 0
    ensures Number(net, ancestor, hs)[|hs| - 1].chainWork == ancestor.chainWork + BranchWork(net, hs)
    decreases |hs|
  {
    if |hs| > 1 {
      NumberWork(net, ancestor, hs[..|hs| - 1]);
    }
  }

  /** Work is not compared before a branch is imported: the tip's work rises exactly when the
      branch carries more work than the blocks it replaces. */
  lemma SyncRaisesWorkIff(net: Net, genesis: Header, distance: Hash -> nat, s: State, remoteTip: Hash,
                          walked: seq<Header>, ancestor: BlockHeader, after: State)
    requires Inv(net, genesis, s) && FoundBranch(net, distance, s, remoteTip, walked, ancestor) && |walked| > 0
    requires after == SetTip(s, Number(net, ancestor, Reverse(walked)))
    ensures after.tip.Some? && after.tip.value.chainWork == ancestor.chainWork + BranchWork(net, Reverse(walked))
    ensures after.tip.value.chainWork > s.tip.value.chainWork <==>
            BranchWork(net, Reverse(walked)) > s.tip.value.chainWork - ancestor.chainWork
  {
    var branch := Number(net, ancestor, Reverse(walked));
    FoundBranchExtends(net, genesis, distance, s, remoteTip, walked, ancestor, branch);
    ExtendsGrows(net, s, branch);
    SetTipByHeight(s, branch);
    NumberWork(net, ancestor, Reverse(walked));
  }

  lemma GenesisAlone(net: Net, genesis: Header, start: State)
    requires start == SetTip(EMPTY, [Genesis(net, genesis)])
    ensures Inv(net, genesis, start) && start.byHeight == [net.hashOf(genesis)]
    ensures forall k :: k in start.byHash <==> k == net.hashOf(genesis)
    ensures start.byHash[net.hashOf(genesis)] == Genesis(net, genesis)
  {
    var g := Genesis(net, genesis);
    GenesisInv(net, genesis);
    SetTipByHeight(EMPTY, [g]);
    SetTipLookupBranch(EMPTY, [g], start, 0);
    forall k
      ensures k in start.byHash <==> k == g.hash
    {
      SetTipLookup(EMPTY, [g], start, k);
    }
  }

  /** The state after a first block on genesis that carries work. */
  lemma FirstBlock(net: Net, genesis: Header, start: State, header: Header, b: BlockHeader, one: State)
    requires start == SetTip(EMPTY, [Genesis(net, genesis)]) && b == NewBlock(net, Genesis(net, genesis), header, 1)
    requires header.prevHash == net.hashOf(genesis) && b.hash != net.hashOf(genesis) && net.work(header.bits) > 0
    requires one == SetTip(Insert(start, b), [b])
    ensures AddBlock(net, start, header, 1) == Some(one) && Inv(net, genesis, one)
    ensures one.byHeight == [net.hashOf(genesis), b.hash] && one.tip == Some(b)
    ensures net.hashOf(genesis) in one.byHash && one.byHash[net.hashOf(genesis)] == Genesis(net, genesis)
  {
    GenesisAlone(net, genesis, start);
    AddBlockKeepsInv(net, genesis, start, header, 1);
    ChildExtends(net, genesis, start, b);
    ExtendsGrows(net, Insert(start, b), [b]);
    SetTipByHeight(Insert(start, b), [b]);
    SetTipLookup(Insert(start, b), [b], one, net.hashOf(genesis));
  }

  /** So a reorganisation can lower it: one light block on genesis replaces a heavier one. */
  lemma SyncCanLowerWork(net: Net, genesis: Header, heavy: Header, light: Header, distance: Hash -> nat)
    returns (one: State)
    requires heavy.prevHash == light.prevHash == net.hashOf(genesis)
    requires net.hashOf(heavy) != net.hashOf(genesis) && net.hashOf(light) !in {net.hashOf(genesis), net.hashOf(heavy)}
    requires net.work(light.bits) < net.work(heavy.bits) && distance(net.hashOf(genesis)) < distance(net.hashOf(light))
    ensures AddBlock(net, SetTip(EMPTY, [Genesis(net, genesis)]), heavy, 1) == Some(one) && Inv(net, genesis, one)
    ensures FoundBranch(net, distance, one, net.hashOf(light), [light], Genesis(net, genesis))
    ensures one.tip.Some?
    ensures SetTip(one, Number(net, Genesis(net, genesis), [light])).tip.value.chainWork < one.tip.value.chainWork
  {
    var start := SetTip(EMPTY, [Genesis(net, genesis)]);
    var b := NewBlock(net, Genesis(net, genesis), heavy, 1);
    one := SetTip(Insert(start, b), [b]);
    FirstBlock(net, genesis, start, heavy, b, one);
    LightBranch(net, genesis, light, distance, one);
  }

  lemma LightBranch(net: Net, genesis: Header, light: Header, distance: Hash -> nat, s: State)
    requires light.prevHash == net.hashOf(genesis) && net.hashOf(light) !in s.byHeight && s.tip.Some?
    requires net.hashOf(genesis) in s.byHeight && net.hashOf(genesis) in s.byHash
    requires s.byHash[net.hashOf(genesis)] == Genesis(net, genesis) && net.work(light.bits) < s.tip.value.chainWork
    requires distance(net.hashOf(genesis)) < distance(net.hashOf(light))
    ensures FoundBranch(net, distance, s, net.hashOf(light), [light], Genesis(net, genesis))
    ensures SetTip(s, Number(net, Genesis(net, genesis), [light])).tip.value.chainWork < s.tip.value.chainWork
  {
    NumberWork(net, Genesis(net, genesis), [light]);
    assert [light][..0] == [];
  }

  // ----- Reorganisations

  datatype ReorgEvent = ReorgEvent(orphaned: seq<Hash>, newTip: BlockHeader, commonAncestor: BlockHeader, depth: nat)

  /** The hashes above a height, newest first. */
  function Orphaned(byHeight: seq<Hash>, ancestorHeight: nat): (hs: seq<Hash>)
    requires ancestorHeight < |byHeight|
    ensures |hs| == |byHeight| - 1 - ancestorHeight
    ensures forall i :: 0 <= i < |hs| ==> hs[i] == byHeight[|byHeight| - 1 - i]
  {
    seq(|byHeight| - 1 - ancestorHeight, i requires 0 <= i < |byHeight| - 1 - ancestorHeight =>
        byHeight[|byHeight| - 1 - i])
  }

  lemma {:induction false} OrphanedMembers(byHeight: seq<Hash>, ancestorHeight: nat, m: nat)
    requires ancestorHeight < |byHeight| && m < |byHeight|
    requires AllDifferent(byHeight)
    ensures byHeight[m] in Orphaned(byHeight, ancestorHeight) <==> m > ancestorHeight
  {
    if m > ancestorHeight {
      assert Orphaned(byHeight, ancestorHeight)[|byHeight| - 1 - m] == byHeight[m];
    }
  }

  lemma StaysIffBelow(byHeight: seq<Hash>, start: nat, hashes: seq<Hash>, m: nat)
    requires start <= |byHeight| && m < |byHeight|
    requires AllDifferent(byHeight)
    requires forall i :: 0 <= i < |hashes| ==> hashes[i] !in byHeight
    ensures byHeight[m] in byHeight[..start] + hashes <==> m < start
  {
    var grown := byHeight[..start] + hashes;
    if m < start {
      assert grown[m] == byHeight[m];
    }
  }

  /** The orphaned hashes are exactly those of the old main chain that the new one lacks. */
  lemma OrphanedIsDifference(net: Net, genesis: Header, s: State, ancestor: BlockHeader, branch: seq<BlockHeader>,
                             after: State, k: Hash)
    requires Inv(net, genesis, s) && Extends(net, s, branch) && after == SetTip(s, branch)
    requires branch[0].height == ancestor.height + 1
    requires forall i :: 0 <= i < |branch| ==> branch[i].hash !in s.byHeight
    ensures k in Orphaned(s.byHeight, ancestor.height) <==> k in s.byHeight && k !in after.byHeight
    ensures |Orphaned(s.byHeight, ancestor.height)| == s.tip.value.height - ancestor.height
  {
    ExtendsGrows(net, s, branch);
    SetTipByHeight(s, branch);
    HashesDistinct(net, genesis, s);
    assert s.tip.value.height == |s.byHeight| - 1;
    if k in s.byHeight {
      var m :| 0 <= m < |s.byHeight| && s.byHeight[m] == k;
      OrphanedMembers(s.byHeight, ancestor.height, m);
      StaysIffBelow(s.byHeight, branch[0].height, HashesOf(branch), m);
    }
  }
}
