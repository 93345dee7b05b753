/**
 The state of the chain manager as a value: the main chain by height, every known header by
 hash, and the tip; what the steps do to it; and what every step keeps.
 */
module Chain {
  import opened Base
  import opened ChainWork
  import opened BlockHeaders

  /** What the chain rules need from outside: the hash of a header, and the work of its Bits. */
  datatype Net = Net(hashOf: Header -> Hash, work: u32 -> nat)

  datatype BlockHeader = BlockHeader(header: Header, height: nat, hash: Hash, chainWork: nat)

  datatype State = State(byHeight: seq<Hash>, byHash: map<Hash, BlockHeader>, tip: Option<BlockHeader>)

  const EMPTY := State([], map[], None)

  // ----- Chains of headers

  /** Headers from genesis on, each naming the hash of the one before it. */
  ghost predicate Linked(net: Net, genesis: Header, c: seq<Header>) {
    && |c| > 0
    && c[0] == genesis
    && forall i :: 0 < i < |c| ==> c[i].prevHash == net.hashOf(c[i - 1])
  }

  /** The work of a chain, not counting genesis. */
  function WorkOf(net: Net, c: seq<Header>): nat {
    if |c| <= 1 then 0 else WorkOf(net, c[..|c| - 1]) + net.work(c[|c| - 1].bits)
  }

  /** A header whose height and work are those of the last block of the given chain. */
  ghost predicate EndsChain(net: Net, genesis: Header, b: BlockHeader, c: seq<Header>) {
    && Linked(net, genesis, c)
    && |c| == b.height + 1
    && c[b.height] == b.header
    && b.chainWork == WorkOf(net, c)
    && b.hash == net.hashOf(b.header)
  }

  /** A header at its own height, with the cumulative work of a chain from genesis. */
  ghost predicate OnSomeChain(net: Net, genesis: Header, b: BlockHeader) {
    exists c :: EndsChain(net, genesis, b, c)
  }

  /** The child's record as computed from its parent's. */
  predicate IsChild(net: Net, parent: BlockHeader, b: BlockHeader) {
    && b.header.prevHash == parent.hash
    && b.hash == net.hashOf(b.header)
    && b.height == parent.height + 1
    && b.chainWork == parent.chainWork + net.work(b.header.bits)
  }

  function Genesis(net: Net, genesis: Header): BlockHeader {
    BlockHeader(genesis, 0, net.hashOf(genesis), 0)
  }

  lemma GenesisOnChain(net: Net, genesis: Header)
    ensures OnSomeChain(net, genesis, Genesis(net, genesis))
  {
    assert EndsChain(net, genesis, Genesis(net, genesis), [genesis]);
  }

  lemma ChildOnChain(net: Net, genesis: Header, parent: BlockHeader, b: BlockHeader)
    requires OnSomeChain(net, genesis, parent) && IsChild(net, parent, b)
    ensures OnSomeChain(net, genesis, b)
  {
    var c :| EndsChain(net, genesis, parent, c);
    var d := c + [b.header];
    assert d[..|d| - 1] == c;
    assert EndsChain(net, genesis, b, d);
  }

  // ----- The invariant

  /** Each recorded header is filed under its own hash and sits on some chain from genesis. */
  ghost predicate HeadersSound(net: Net, genesis: Header, byHash: map<Hash, BlockHeader>) {
    forall k :: k in byHash ==> byHash[k].hash == k && OnSomeChain(net, genesis, byHash[k])
  }

  /** Each header of the branch is the child of the one before it. */
  predicate IsBranch(net: Net, branch: seq<BlockHeader>) {
    forall i :: 0 < i < |branch| ==> IsChild(net, branch[i - 1], branch[i])
  }

  /** A parent-linked chain from genesis, with cumulative work, each header at its height. */
  ghost predicate IsMain(net: Net, genesis: Header, main: seq<BlockHeader>) {
    && |main| > 0
    && main[0] == Genesis(net, genesis)
    && IsBranch(net, main)
    && forall i :: 0 <= i < |main| ==> main[i].height == i
  }

  ghost predicate Recorded(s: State) {
    forall i :: 0 <= i < |s.byHeight| ==> s.byHeight[i] in s.byHash
  }

  /** The headers of the main chain, by height. */
  function Entries(s: State): (main: seq<BlockHeader>)
    requires Recorded(s)
    ensures |main| == |s.byHeight|
  {
    seq(|s.byHeight|, i requires 0 <= i < |s.byHeight| => s.byHash[s.byHeight[i]])
  }

  /** Every main-chain hash is recorded, at its height. */
  ghost predicate Indexed(s: State) {
    Recorded(s) && forall i :: 0 <= i < |s.byHeight| ==> Entries(s)[i].height == i
  }

  ghost predicate Inv(net: Net, genesis: Header, s: State) {
    && HeadersSound(net, genesis, s.byHash)
    && Recorded(s)
    && IsMain(net, genesis, Entries(s))
    && s.tip == Some(Entries(s)[|s.byHeight| - 1])
  }

  /** No hash occurs twice on the main chain. */
  lemma MainChainDistinct(net: Net, genesis: Header, s: State, i: nat, j: nat)
    requires Inv(net, genesis, s) && i < |s.byHeight| && j < |s.byHeight| && s.byHeight[i] == s.byHeight[j]
    ensures i == j
  {
    assert Entries(s)[i].height == Entries(s)[j].height;
  }

  predicate OnMainChain(s: State, b: BlockHeader) {
    b.height < |s.byHeight| && s.byHeight[b.height] in s.byHash && s.byHash[s.byHeight[b.height]].hash == b.hash
  }

  /** For a recorded header, the two-step test is the same as occurring in byHeight. */
  lemma OnMainChainIsMembership(net: Net, genesis: Header, s: State, k: Hash)
    requires Inv(net, genesis, s)
    ensures k in s.byHash && OnMainChain(s, s.byHash[k]) <==> k in s.byHeight
    ensures k in s.byHeight ==>
              k in s.byHash && s.byHash[k].height < |s.byHeight| && s.byHeight[s.byHash[k].height] == k
  {
    if k in s.byHeight {
      var i :| 0 <= i < |s.byHeight| && s.byHeight[i] == k;
      assert Entries(s)[i].height == i;
    }
  }

  // ----- The steps

  function Pad(byHeight: seq<Hash>, length: nat): seq<Hash> {
    if |byHeight| < length then byHeight + seq(length - |byHeight|, i => ZERO) else byHeight
  }

  /** Grows the list if need be and files the hash at its height. */
  function Place(byHeight: seq<Hash>, b: BlockHeader): (placed: seq<Hash>)
    ensures |placed| > b.height
  {
    Pad(byHeight, b.height + 1)[b.height := b.hash]
  }

  function PlaceAll(byHeight: seq<Hash>, branch: seq<BlockHeader>): seq<Hash> {
    if branch == [] then byHeight
    else Place(PlaceAll(byHeight, branch[..|branch| - 1]), branch[|branch| - 1])
  }

  function PutAll(byHash: map<Hash, BlockHeader>, branch: seq<BlockHeader>): map<Hash, BlockHeader> {
    if branch == [] then byHash
    else PutAll(byHash, branch[..|branch| - 1])[branch[|branch| - 1].hash := branch[|branch| - 1]]
  }

  function PruneHeight(tip: BlockHeader): nat {
    if tip.height > 100 then tip.height - 100 else 0
  }

  predicate AtOwnHeight(byHeight: seq<Hash>, k: Hash, b: BlockHeader) {
    b.height < |byHeight| && byHeight[b.height] == k
  }

  /** Headers off the main chain are dropped when they are more than 100 below the tip. */
  function Prune(byHeight: seq<Hash>, byHash: map<Hash, BlockHeader>, pruneHeight: nat): map<Hash, BlockHeader> {
    map k | k in byHash && (AtOwnHeight(byHeight, k, byHash[k]) || byHash[k].height >= pruneHeight) :: byHash[k]
  }

  /** Makes the last header of the branch the tip. */
  function SetTip(s: State, branch: seq<BlockHeader>): State {
    if branch == [] then s
    else
      var tip := branch[|branch| - 1];
      var byHeight := PlaceAll(s.byHeight, branch)[..tip.height + 1];
      State(byHeight, Prune(byHeight, PutAll(s.byHash, branch), PruneHeight(tip)), Some(tip))
  }

  // ----- Importing a branch

  function HashesOf(branch: seq<BlockHeader>): (hs: seq<Hash>)
    ensures |hs| == |branch|
  {
    seq(|branch|, i requires 0 <= i < |branch| => branch[i].hash)
  }

  predicate Distinct(branch: seq<BlockHeader>) {
    forall i, j :: 0 <= i < j < |branch| ==> branch[i].hash != branch[j].hash
  }

  /** A branch that grows from the main chain, with hashes that are new to what stays of it. */
  ghost predicate Extends(net: Net, s: State, branch: seq<BlockHeader>) {
    && |branch| > 0
    && IsBranch(net, branch)
    && 0 < branch[0].height <= |s.byHeight|
    && s.byHeight[branch[0].height - 1] in s.byHash
    && IsChild(net, s.byHash[s.byHeight[branch[0].height - 1]], branch[0])
    && Distinct(branch)
    && (forall i, m :: 0 <= i < |branch| && 0 <= m < branch[0].height ==> branch[i].hash != s.byHeight[m])
  }

  /** Consecutive heights, starting on or right above the main chain, with new hashes. */
  ghost predicate Grows(s: State, branch: seq<BlockHeader>) {
    && |branch| > 0
    && branch[0].height <= |s.byHeight|
    && (forall i :: 0 <= i < |branch| ==> branch[i].height == branch[0].height + i)
    && Distinct(branch)
    && (forall i, m :: 0 <= i < |branch| && 0 <= m < branch[0].height ==> branch[i].hash != s.byHeight[m])
  }

  lemma {:induction false} BranchHeights(net: Net, branch: seq<BlockHeader>, i: nat)
    requires IsBranch(net, branch) && i < |branch|
    ensures branch[i].height == branch[0].height + i
  {
    if i > 0 {
      BranchHeights(net, branch, i - 1);
    }
  }

  /** Filing consecutive headers replaces the list from the first height on. */
  lemma {:induction false} PlaceConsecutive(byHeight: seq<Hash>, branch: seq<BlockHeader>, start: nat)
    requires start <= |byHeight| && forall i :: 0 <= i < |branch| ==> branch[i].height == start + i
    ensures |PlaceAll(byHeight, branch)| >= start + |branch|
    ensures PlaceAll(byHeight, branch)[..start + |branch|] == byHeight[..start] + HashesOf(branch)
    decreases |branch|
  {
    if branch != [] {
      var init, b := branch[..|branch| - 1], branch[|branch| - 1];
      PlaceConsecutive(byHeight, init, start);
      PlaceNext(PlaceAll(byHeight, init), b);
      assert HashesOf(branch) == HashesOf(init) + [b.hash];
    }
  }

  lemma PlaceNext(byHeight: seq<Hash>, b: BlockHeader)
    requires b.height <= |byHeight|
    ensures Place(byHeight, b)[..b.height + 1] == byHeight[..b.height] + [b.hash]
  {
  }

  lemma {:induction false} PutAllLookup(byHash: map<Hash, BlockHeader>, branch: seq<BlockHeader>, k: Hash)
    requires Distinct(branch)
    ensures k in PutAll(byHash, branch) <==> k in byHash || k in HashesOf(branch)
    ensures k !in HashesOf(branch) && k in byHash ==> PutAll(byHash, branch)[k] == byHash[k]
    ensures forall i :: 0 <= i < |branch| && branch[i].hash == k ==>
              k in PutAll(byHash, branch) && PutAll(byHash, branch)[k] == branch[i]
    decreases |branch|
  {
    if branch != [] {
      var init, b := branch[..|branch| - 1], branch[|branch| - 1];
      PutAllLookup(byHash, init, k);
      assert HashesOf(branch) == HashesOf(init) + [b.hash];
    }
  }

  lemma {:induction false} BranchOnChain(net: Net, genesis: Header, parent: BlockHeader, branch: seq<BlockHeader>,
                                         i: nat)
    requires OnSomeChain(net, genesis, parent) && i < |branch|
    requires IsBranch(net, branch) && IsChild(net, parent, branch[0])
    ensures OnSomeChain(net, genesis, branch[i])
  {
    if i == 0 {
      ChildOnChain(net, genesis, parent, branch[0]);
    } else {
      BranchOnChain(net, genesis, parent, branch, i - 1);
      ChildOnChain(net, genesis, branch[i - 1], branch[i]);
    }
  }

  lemma ExtendsGrows(net: Net, s: State, branch: seq<BlockHeader>)
    requires Extends(net, s, branch)
    ensures Grows(s, branch)
  {
    forall i | 0 <= i < |branch|
      ensures branch[i].height == branch[0].height + i
    {
      BranchHeights(net, branch, i);
    }
  }

  /** The main chain afterwards: what was below the branch, then the branch. */
  lemma SetTipByHeight(s: State, branch: seq<BlockHeader>)
    requires Grows(s, branch)
    ensures SetTip(s, branch).byHeight == s.byHeight[..branch[0].height] + HashesOf(branch)
    ensures SetTip(s, branch).tip == Some(branch[|branch| - 1])
  {
    PlaceConsecutive(s.byHeight, branch, branch[0].height);
  }

  /** What is recorded afterwards: the branch, and the old headers that were not pruned. */
  lemma SetTipLookup(s: State, branch: seq<BlockHeader>, after: State, k: Hash)
    requires |branch| > 0 && Distinct(branch) && after == SetTip(s, branch)
    ensures k in after.byHash && k !in HashesOf(branch) ==> k in s.byHash && after.byHash[k] == s.byHash[k]
    ensures k in s.byHash && k !in HashesOf(branch) && AtOwnHeight(after.byHeight, k, s.byHash[k]) ==> k in after.byHash
  {
    PutAllLookup(s.byHash, branch, k);
  }

  lemma SetTipLookupBranch(s: State, branch: seq<BlockHeader>, after: State, i: nat)
    requires i < |branch| && Distinct(branch) && after == SetTip(s, branch)
    ensures branch[i].hash in after.byHash ==> after.byHash[branch[i].hash] == branch[i]
    ensures AtOwnHeight(after.byHeight, branch[i].hash, branch[i]) ==> branch[i].hash in after.byHash
  {
    PutAllLookup(s.byHash, branch, branch[i].hash);
  }

  /** Right after the tip is set, a header stays if and only if it is on the main chain or at
      most 100 below the tip. */
  lemma {:induction false} SetTipPrunes(s: State, branch: seq<BlockHeader>, all: map<Hash, BlockHeader>, after: State,
                                        k: Hash)
    requires |branch| > 0 && after == SetTip(s, branch) && all == PutAll(s.byHash, branch)
    ensures after.tip == Some(branch[|branch| - 1])
    ensures k in after.byHash <==>
            k in all && (AtOwnHeight(after.byHeight, k, all[k]) || all[k].height + 100 >= after.tip.value.height)
    ensures k in after.byHash ==> after.byHash[k] == all[k]
  {
    PruneKeeps(after.byHeight, all, branch[|branch| - 1], k);
  }

  lemma PruneKeeps(byHeight: seq<Hash>, all: map<Hash, BlockHeader>, tip: BlockHeader, k: Hash)
    ensures k in Prune(byHeight, all, PruneHeight(tip)) <==>
            k in all && (AtOwnHeight(byHeight, k, all[k]) || all[k].height + 100 >= tip.height)
    ensures k in Prune(byHeight, all, PruneHeight(tip)) ==> Prune(byHeight, all, PruneHeight(tip))[k] == all[k]
  {
  }

  // ----- What importing keeps

  lemma IsMainAppend(net: Net, genesis: Header, main: seq<BlockHeader>, start: nat, branch: seq<BlockHeader>)
    requires IsMain(net, genesis, main) && 0 < start <= |main|
    requires |branch| > 0 && IsBranch(net, branch) && IsChild(net, main[start - 1], branch[0])
    ensures IsMain(net, genesis, main[..start] + branch)
  {
    var grown := main[..start] + branch;
    forall i | 0 < i < |grown|
      ensures IsChild(net, grown[i - 1], grown[i])
    {
      if i < start {
        assert IsChild(net, main[i - 1], main[i]);
      } else if i > start {
        assert IsChild(net, branch[i - 1 - start], branch[i - start]);
      }
    }
    forall i | 0 <= i < |grown|
      ensures grown[i].height == i
    {
      if i >= start {
        BranchHeights(net, branch, i - start);
      }
    }
  }

  /** The new main chain is the old one below the branch, then the branch. */
  lemma {:induction false} NewEntries(s: State, branch: seq<BlockHeader>, after: State)
    requires Indexed(s) && Grows(s, branch) && after == SetTip(s, branch)
    ensures Recorded(after) && Entries(after) == Entries(s)[..branch[0].height] + branch
  {
    forall i | 0 <= i < |after.byHeight|
      ensures after.byHeight[i] in after.byHash
      ensures |after.byHeight| == branch[0].height + |branch|
      ensures after.byHash[after.byHeight[i]] ==
              if i < branch[0].height then Entries(s)[i] else branch[i - branch[0].height]
    {
      NewEntry(s, branch, after, i);
    }
    SetTipByHeight(s, branch);
  }

  lemma NewEntry(s: State, branch: seq<BlockHeader>, after: State, i: nat)
    requires Indexed(s) && Grows(s, branch) && after == SetTip(s, branch)
    requires i < |after.byHeight|
    ensures |after.byHeight| == branch[0].height + |branch|
    ensures after.byHeight[i] in after.byHash
    ensures after.byHash[after.byHeight[i]] ==
            if i < branch[0].height then Entries(s)[i] else branch[i - branch[0].height]
  {
    var start := branch[0].height;
    SetTipByHeight(s, branch);
    if i < start {
      var k := s.byHeight[i];
      assert Entries(s)[i].height == i && after.byHeight[i] == k && k !in HashesOf(branch);
      SetTipLookup(s, branch, after, k);
    } else {
      assert after.byHeight[i] == HashesOf(branch)[i - start];
      SetTipLookupBranch(s, branch, after, i - start);
    }
  }

  lemma SetTipKeepsSound(net: Net, genesis: Header, s: State, branch: seq<BlockHeader>, after: State)
    requires Inv(net, genesis, s) && Extends(net, s, branch) && after == SetTip(s, branch)
    ensures HeadersSound(net, genesis, after.byHash)
  {
    var parent := s.byHash[s.byHeight[branch[0].height - 1]];
    forall k | k in after.byHash
      ensures after.byHash[k].hash == k && OnSomeChain(net, genesis, after.byHash[k])
    {
      if k in HashesOf(branch) {
        var i :| 0 <= i < |branch| && HashesOf(branch)[i] == k;
        SetTipLookupBranch(s, branch, after, i);
        BranchOnChain(net, genesis, parent, branch, i);
      } else {
        SetTipLookup(s, branch, after, k);
      }
    }
  }

  /** Importing a branch that grows from the main chain keeps the invariant. */
  lemma SetTipKeepsInv(net: Net, genesis: Header, s: State, branch: seq<BlockHeader>, after: State)
    requires Inv(net, genesis, s) && Extends(net, s, branch) && after == SetTip(s, branch)
    ensures Inv(net, genesis, after)
  {
    SetTipKeepsSound(net, genesis, s, branch, after);
    ExtendsGrows(net, s, branch);
    SetTipByHeight(s, branch);
    NewEntries(s, branch, after);
    IsMainAppend(net, genesis, Entries(s), branch[0].height, branch);
  }

  /** Consecutive heights that start on or right above the main chain. */
  ghost predicate Consecutive(s: State, branch: seq<BlockHeader>) {
    && |branch| > 0
    && branch[0].height <= |s.byHeight|
    && forall i :: 0 <= i < |branch| ==> branch[i].height == branch[0].height + i
  }

  lemma HashesDistinct(net: Net, genesis: Header, s: State)
    requires Inv(net, genesis, s)
    ensures AllDifferent(s.byHeight)
  {
    forall i, j | 0 <= i < j < |s.byHeight|
      ensures s.byHeight[i] != s.byHeight[j]
    {
      if s.byHeight[i] == s.byHeight[j] {
        MainChainDistinct(net, genesis, s, i, j);
      }
    }
  }

  predicate AllDifferent(hashes: seq<Hash>) {
    forall i, j :: 0 <= i < j < |hashes| ==> hashes[i] != hashes[j]
  }

  lemma DifferentParts(below: seq<Hash>, branch: seq<BlockHeader>)
    requires AllDifferent(below + HashesOf(branch))
    ensures Distinct(branch)
    ensures forall i, m :: 0 <= i < |branch| && 0 <= m < |below| ==> branch[i].hash != below[m]
  {
    var hashes := below + HashesOf(branch);
    forall i, m | 0 <= i < |branch| && 0 <= m < |below|
      ensures branch[i].hash != below[m]
    {
      assert hashes[m] == below[m] && hashes[|below| + i] == branch[i].hash;
    }
    forall i, j | 0 <= i < j < |branch|
      ensures branch[i].hash != branch[j].hash
    {
      assert hashes[|below| + i] == branch[i].hash && hashes[|below| + j] == branch[j].hash;
    }
  }

  lemma ImportGrows(s: State, branch: seq<BlockHeader>)
    requires Consecutive(s, branch) && AllDifferent(SetTip(s, branch).byHeight)
    ensures Grows(s, branch)
  {
    PlaceConsecutive(s.byHeight, branch, branch[0].height);
    DifferentParts(s.byHeight[..branch[0].height], branch);
  }

  /** A numbered branch, imported without a look at its links, keeps the invariant if and only if
      it is a chain that grows from the main chain, with no hash twice. */
  lemma ImportExact(net: Net, genesis: Header, s: State, branch: seq<BlockHeader>, after: State)
    requires Inv(net, genesis, s) && Consecutive(s, branch) && branch[0].height > 0 && after == SetTip(s, branch)
    ensures Inv(net, genesis, after) <==> Extends(net, s, branch)
  {
    if Extends(net, s, branch) {
      SetTipKeepsInv(net, genesis, s, branch, after);
    } else if Inv(net, genesis, after) {
      HashesDistinct(net, genesis, after);
      ImportGrows(s, branch);
      SoundImportExtends(net, genesis, s, branch, after);
    }
  }

  lemma SoundImportExtends(net: Net, genesis: Header, s: State, branch: seq<BlockHeader>, after: State)
    requires Inv(net, genesis, s) && Grows(s, branch) && branch[0].height > 0 && after == SetTip(s, branch)
    requires Inv(net, genesis, after)
    ensures Extends(net, s, branch)
  {
    NewEntries(s, branch, after);
    MainLinksBranch(net, Entries(s)[..branch[0].height], branch);
  }

  lemma MainLinksBranch(net: Net, below: seq<BlockHeader>, branch: seq<BlockHeader>)
    requires below != [] && branch != [] && IsBranch(net, below + branch)
    ensures IsBranch(net, branch) && IsChild(net, below[|below| - 1], branch[0])
  {
    var main := below + branch;
    assert IsChild(net, main[|below| - 1], main[|below|]);
    forall i | 0 < i < |branch|
      ensures IsChild(net, branch[i - 1], branch[i])
    {
      assert IsChild(net, main[|below| + i - 1], main[|below| + i]);
    }
  }

  /** Genesis alone is a valid first state. */
  lemma GenesisInv(net: Net, genesis: Header)
    ensures Inv(net, genesis, SetTip(EMPTY, [Genesis(net, genesis)]))
  {
    var g := Genesis(net, genesis);
    var after := SetTip(EMPTY, [g]);
    SetTipByHeight(EMPTY, [g]);
    assert after.byHeight == [g.hash];
    SetTipLookupBranch(EMPTY, [g], after, 0);
    forall k | k in after.byHash
      ensures k == g.hash
    {
      SetTipLookup(EMPTY, [g], after, k);
    }
    GenesisOnChain(net, genesis);
  }
}
