/**
 The chain manager itself: the fields that the source updates in place, and the methods that
 update them, each proved against the step functions on states.
 */
module ChainManagers {
  import opened Base
  import opened BlockHeaders
  import opened Chain
  import opened ChainSteps
  import opened Walks
  import opened HeaderFiles
  import opened Persistence
  import opened Reload
  import opened ChainRuns

  datatype SyncError = InvalidHeaderSize | FetchFailed | NoHeadersReturned | ParentNotFound

  /** Swaps the two ends towards the middle. */
  method ReverseHeaders(hs: seq<Header>) returns (r: seq<Header>)
    ensures r == Reverse(hs)
  {
    r := hs;
    var n := |hs|;
    for i := 0 to n / 2
      invariant |r| == n
      invariant forall k :: 0 <= k < i ==> r[k] == hs[n - 1 - k]
      invariant forall k :: n - i <= k < n ==> r[k] == hs[n - 1 - k]
      invariant forall k :: i <= k < n - i ==> r[k] == hs[k]
    {
      r := r[i := r[n - 1 - i]][n - 1 - i := r[i]];
    }
    forall k | 0 <= k < n
      ensures r[k] == hs[n - 1 - k]
    {
      if n / 2 <= k < n - n / 2 {
        assert n - 1 - k == k;
      }
    }
  }

  function Top(ancestor: BlockHeader, blocks: seq<BlockHeader>): BlockHeader {
    if blocks == [] then ancestor else blocks[|blocks| - 1]
  }

  lemma {:induction false} NumberStep(net: Net, ancestor: BlockHeader, hs: seq<Header>, i: nat, parent: BlockHeader)
    requires i < |hs| && parent == Top(ancestor, Number(net, ancestor, hs[..i]))
    ensures Number(net, ancestor, hs[..i + 1]) ==
            Number(net, ancestor, hs[..i]) + [NewBlock(net, parent, hs[i], parent.height + 1)]
  {
    assert hs[..i + 1][..i] == hs[..i];
  }

  /** Counts height and work up from the ancestor. */
  method NumberHeaders(net: Net, ancestor: BlockHeader, hs: seq<Header>) returns (blocks: seq<BlockHeader>)
    ensures blocks == Number(net, ancestor, hs)
  {
    blocks := [];
    var currentHeight := ancestor.height + 1;
    var currentChainWork := ancestor.chainWork;
    for i := 0 to |hs|
      invariant blocks == Number(net, ancestor, hs[..i])
      invariant currentHeight == Top(ancestor, blocks).height + 1 && currentChainWork == Top(ancestor, blocks).chainWork
    {
      NumberStep(net, ancestor, hs, i, Top(ancestor, blocks));
      currentChainWork := currentChainWork + net.work(hs[i].bits);
      blocks := blocks + [BlockHeader(hs[i], currentHeight, net.hashOf(hs[i]), currentChainWork)];
      currentHeight := currentHeight + 1;
    }
    assert hs[..|hs|] == hs;
  }

  /** The hashes from the tip down to just above the ancestor. */
  method CollectOrphans(byHeight: seq<Hash>, ancestorHeight: nat) returns (orphaned: seq<Hash>)
    requires ancestorHeight < |byHeight|
    ensures orphaned == Orphaned(byHeight, ancestorHeight)
  {
    orphaned := [];
    var h := |byHeight| - 1;
    while h > ancestorHeight
      invariant ancestorHeight <= h < |byHeight|
      invariant |orphaned| == |byHeight| - 1 - h
      invariant forall i :: 0 <= i < |orphaned| ==> orphaned[i] == byHeight[|byHeight| - 1 - i]
    {
      orphaned := orphaned + [byHeight[h]];
      h := h - 1;
    }
  }

  // ----- Facts the methods need

  lemma {:induction false} FileWrittenBack(net: Net, files: Files, entries: nat, rs: seq<Record>,
                                           main: seq<BlockHeader>, f: nat, hi: nat, blocks: seq<BlockHeader>)
    requires OnDisk(net, files, entries, rs, main) && f < entries && hi == FileEnd(rs, f) && FirstHeight(f) < hi
    requires blocks == main[FirstHeight(f)..hi]
    ensures WriteAll(files, blocks) == files && MetadataEntries(entries, blocks[|blocks| - 1]) == entries
  {
    WrittenBack(net, files, rs, FirstHeight(f), hi, blocks);
    EntriesUnchanged(rs, entries, f, blocks[|blocks| - 1]);
  }

  /** A hash on the main chain is recorded. */
  lemma HashesRecorded(net: Net, genesis: Header, s: State, k: Hash)
    requires Inv(net, genesis, s)
    ensures k in s.byHeight ==> k in s.byHash
  {
  }

  /** The work of the last block of a file read so far, or of the block below the file. */
  function WorkBefore(below: Option<BlockHeader>, bs: seq<BlockHeader>): nat {
    if |bs| > 0 then bs[|bs| - 1].chainWork else if below.Some? then below.value.chainWork else 0
  }

  lemma {:induction false} BlocksStep(net: Net, below: Option<BlockHeader>, firstHeight: nat, hs: seq<Header>, i: nat,
                                      b: BlockHeader)
    requires i < |hs| && if below.Some? then below.value.height + 1 == firstHeight else firstHeight == 0
    requires b.header == hs[i] && b.height == firstHeight + i && b.hash == net.hashOf(hs[i])
    requires b.chainWork ==
             if b.height == 0 then 0 else WorkBefore(below, Blocks(net, below, hs[..i])) + net.work(hs[i].bits)
    ensures Blocks(net, below, hs[..i + 1]) == Blocks(net, below, hs[..i]) + [b]
  {
    assert hs[..i + 1][..i] == hs[..i];
    if below.Some? {
      if i > 0 {
        NumberHeights(net, below.value, hs[..i], i - 1);
      }
      NumberStep(net, below.value, hs, i, Top(below.value, Number(net, below.value, hs[..i])));
    }
  }

  lemma {:induction false} NumberHeights(net: Net, p: BlockHeader, hs: seq<Header>, i: nat)
    requires i < |hs|
    ensures Number(net, p, hs)[i].height == p.height + 1 + i
  {
    if i > 0 {
      NumberHeights(net, p, hs, i - 1);
    }
    NumberAt(net, p, hs, i, if i == 0 then p else Number(net, p, hs)[i - 1]);
  }

  lemma {:induction false} HoldsUnique(a: Files, b: Files, rs: seq<Record>)
    requires Holds(a, rs) && Holds(b, rs)
    ensures a == b
  {
    forall f: nat
      ensures f in a <==> f in b
      ensures f in a ==> a[f] == b[f]
    {
      assert FileHolds(a, rs, f) && FileHolds(b, rs, f);
    }
  }

  /** Where the next file stops. */
  ghost function FileEnd<T>(rs: seq<T>, f: nat): nat {
    Min(FirstHeight(f) + HEADERS_PER_FILE, |rs|)
  }

  /** There is one state with the given blocks and nothing else. */
  lemma RebuiltUnique(s: State, s': State, main: seq<BlockHeader>, n: nat)
    requires 0 < n <= |main| && Rebuilt(s, main, n) && Rebuilt(s', main, n)
    ensures s == s'
  {
    forall k
      ensures k in s.byHash <==> k in s'.byHash
      ensures k in s.byHash ==> s.byHash[k] == s'.byHash[k]
    {
      assert NotOrphan(s, k) && NotOrphan(s', k);
      if k in s.byHeight {
        var i :| 0 <= i < |s.byHeight| && s.byHeight[i] == k;
        assert Entries(s)[i] == Entries(s')[i];
      }
    }
    assert s.byHash == s'.byHash;
  }

  lemma {:induction false} FileListed(files: Files, entries: nat, rs: seq<Record>, f: nat)
    requires Holds(files, rs) && Covers(entries, |rs|) && f < entries
    ensures f in files && FirstHeight(f) < FileEnd(rs, f) <= |rs| && FileHolds(files, rs, f)
  {
    assert FileHolds(files, rs, f);
    if f < entries - 1 {
      FirstHeightMonotone(f, entries - 1);
    }
  }

  /** The files hold these records, and their blocks, numbered from genesis, are `main`. */
  ghost predicate OnDisk(net: Net, files: Files, entries: nat, rs: seq<Record>, main: seq<BlockHeader>) {
    Holds(files, rs) && Covers(entries, |rs|) && main == ChainOf(net, Parsed(rs))
  }

  /** The next file parses, and its blocks are the next ones of the chain. */
  lemma {:induction false} FileReady(net: Net, s: State, files: Files, entries: nat, rs: seq<Record>,
                                     main: seq<BlockHeader>, f: nat, hi: nat)
    requires OnDisk(net, files, entries, rs, main) && f < entries && hi == FileEnd(rs, f)
    requires FirstHeight(f) < |main| && Loaded(s, main, FirstHeight(f))
    ensures f in files && ParseFile(files[f]).Some? && FirstHeight(f) < hi <= |rs|
    ensures f > 0 ==> Below(s, f).Some? && Below(s, f).value.height + 1 == FirstHeight(f)
    ensures Blocks(net, Below(s, f), ParseFile(files[f]).value) == main[FirstHeight(f)..hi]
  {
    FileListed(files, entries, rs, f);
    ParsedBytes(rs);
    SliceParses(files, Parsed(rs), rs, f, FirstHeight(f), hi);
    BlocksOfFile(net, Parsed(rs), s, f, FirstHeight(f), hi);
  }

  lemma {:induction false} RecordOfBlock(net: Net, rs: seq<Record>, i: nat)
    requires i < |rs|
    ensures ChainOf(net, Parsed(rs))[i].height == i && rs[i] == Bytes(ChainOf(net, Parsed(rs))[i].header)
  {
    ParsedBytes(rs);
    ChainHeaders(net, Parsed(rs), i);
  }

  lemma OverlaySelf(rs: seq<Record>, lo: nat, hi: nat)
    requires lo <= hi <= |rs|
    ensures Overlay(rs, lo, rs[lo..hi]) == rs
  {
  }

  /** Writing blocks back over their own records changes nothing. */
  lemma {:induction false} WrittenBack(net: Net, files: Files, rs: seq<Record>, lo: nat, hi: nat,
                                       branch: seq<BlockHeader>)
    requires Holds(files, rs) && lo < hi <= |rs| && branch == ChainOf(net, Parsed(rs))[lo..hi]
    ensures WriteAll(files, branch) == files
  {
    var news := rs[lo..hi];
    forall i | 0 <= i < |branch|
      ensures branch[i].height == lo + i && news[i] == Bytes(branch[i].header)
    {
      RecordOfBlock(net, rs, lo + i);
    }
    HoldsBranch(files, rs, branch, lo, news);
    OverlaySelf(rs, lo, hi);
    HoldsUnique(files, WriteAll(files, branch), rs);
  }

  lemma {:induction false} EntriesUnchanged(rs: seq<Record>, entries: nat, f: nat, tip: BlockHeader)
    requires f < entries && FirstHeight(f) < FileEnd(rs, f) && tip.height == FileEnd(rs, f) - 1
    ensures MetadataEntries(entries, tip) == entries
  {
    PlaceInFile(tip.height);
    FilesApart(FileIndex(tip), f, tip.height);
  }

  lemma AnnouncedSteps(net: Net, m: Machine, b: BlockHeader, recorded: Machine, after: Machine)
    requires b.header.prevHash in m.state.byHash && recorded == m.(state := Insert(m.state, b))
    requires b == NewBlock(net, m.state.byHash[b.header.prevHash], b.header, b.height)
    requires Heavier(m.state.tip, b) ==> b.height <= |m.records| && after == Imported(recorded, [b])
    requires !Heavier(m.state.tip, b) ==> after == recorded
    ensures Stepped(net, m, Announced(b.header, b.height), after)
  {
  }

  lemma ReadyToAdd(net: Net, genesis: Header, s: State, header: Header, height: nat, b: BlockHeader)
    requires Inv(net, genesis, s) && net.hashOf(header) !in s.byHash && header.prevHash in s.byHeight
    requires header.prevHash in s.byHash && height == s.byHash[header.prevHash].height + 1
    requires b == NewBlock(net, s.byHash[header.prevHash], header, height)
    ensures Inv(net, genesis, Insert(s, b)) && Extends(net, Insert(s, b), [b])
  {
    ParentOnMain(net, genesis, s, header.prevHash);
    ChildOnChain(net, genesis, s.byHash[header.prevHash], b);
    InsertKeepsInv(net, genesis, s, b);
    ChildExtends(net, genesis, s, b);
  }

  lemma InsertKeepsDisk(net: Net, genesis: Header, files: Files, entries: nat, rs: seq<Record>, s: State,
                        b: BlockHeader)
    requires Inv(net, genesis, s) && b.hash !in s.byHash
    ensures DiskHolds(files, entries, rs, s) ==> DiskHolds(files, entries, rs, Insert(s, b))
  {
    assert Recorded(Insert(s, b));
    assert Entries(Insert(s, b)) == Entries(s);
  }

  lemma BranchIsOffMain(net: Net, s: State, walked: seq<Header>, ancestor: BlockHeader, branch: seq<BlockHeader>)
    requires forall i :: 0 <= i < |walked| ==> net.hashOf(walked[i]) !in s.byHeight
    requires branch == Number(net, ancestor, Reverse(walked))
    ensures forall i :: 0 <= i < |branch| ==> branch[i].hash !in s.byHeight
  {
    forall i | 0 <= i < |branch|
      ensures branch[i].hash !in s.byHeight
    {
      assert branch[i].hash == net.hashOf(walked[|walked| - 1 - i]);
    }
  }

  lemma AllOrphaned(net: Net, genesis: Header, s: State, ancestor: BlockHeader, branch: seq<BlockHeader>, after: State)
    requires Inv(net, genesis, s) && Extends(net, s, branch) && after == SetTip(s, branch)
    requires branch[0].height == ancestor.height + 1
    requires forall i :: 0 <= i < |branch| ==> branch[i].hash !in s.byHeight
    ensures forall k :: k in Orphaned(s.byHeight, ancestor.height) <==> k in s.byHeight && k !in after.byHeight
    ensures |Orphaned(s.byHeight, ancestor.height)| == s.tip.value.height - ancestor.height
  {
    forall k
      ensures k in Orphaned(s.byHeight, ancestor.height) <==> k in s.byHeight && k !in after.byHeight
    {
      OrphanedIsDifference(net, genesis, s, ancestor, branch, after, k);
    }
    OrphanedIsDifference(net, genesis, s, ancestor, branch, after, ancestor.hash);
  }

  predicate Heavier(tip: Option<BlockHeader>, b: BlockHeader) {
    tip.None? || b.chainWork > tip.value.chainWork
  }

  /** What a sync does: the tip becomes the remote one, on the branch found, and what that replaced is
      reported when it replaced anything. */
  ghost predicate SyncedTo(net: Net, s: State, distance: Hash -> nat, remoteTip: Hash, walked: seq<Header>,
                           ancestor: BlockHeader, after: State, event: Option<ReorgEvent>) {
    && walked != [] && FoundBranch(net, distance, s, remoteTip, walked, ancestor)
    && after == SetTip(s, Number(net, ancestor, Reverse(walked)))
    && s.tip.Some? && after.tip.Some? && after.tip.value.hash == remoteTip
    && (event.Some? <==> ancestor.height < s.tip.value.height)
    && (event.Some? ==>
          && event.value.newTip == after.tip.value && event.value.commonAncestor == ancestor
          && ancestor.height < |s.byHeight| && event.value.orphaned == Orphaned(s.byHeight, ancestor.height)
          && event.value.depth == s.tip.value.height - ancestor.height
          && forall k :: k in event.value.orphaned <==> k in s.byHeight && k !in after.byHeight)
  }

  lemma SyncDone(net: Net, genesis: Header, s: State, distance: Hash -> nat, remoteTip: Hash, walked: seq<Header>,
                 ancestor: BlockHeader, branch: seq<BlockHeader>, after: State, event: Option<ReorgEvent>)
    requires Inv(net, genesis, s) && FoundBranch(net, distance, s, remoteTip, walked, ancestor) && |walked| > 0
    requires branch == Number(net, ancestor, Reverse(walked)) && after == SetTip(s, branch)
    requires ancestor.height < |s.byHeight|
    requires var orphaned := Orphaned(s.byHeight, ancestor.height);
             event == if ancestor.height < s.tip.value.height
                      then Some(ReorgEvent(orphaned, branch[|branch| - 1], ancestor, |orphaned|)) else None
    ensures SyncedTo(net, s, distance, remoteTip, walked, ancestor, after, event)
  {
    FoundBranchExtends(net, genesis, distance, s, remoteTip, walked, ancestor, branch);
    BranchIsOffMain(net, s, walked, ancestor, branch);
    AllOrphaned(net, genesis, s, ancestor, branch, after);
  }

  /** The branch with a batch appended, cut off before the batch's header n. */
  function Trimmed(branch: seq<Header>, headers: seq<Header>, n: nat): (kept: seq<Header>)
    requires n <= |headers|
    ensures kept == branch + headers[..n]
  {
    var all := branch + headers;
    all[..|all| - |headers| + n]
  }

  class ChainManager {
    const net: Net
    const genesis: Header
    const persistent: bool
    var byHeight: seq<Hash>
    var byHash: map<Hash, BlockHeader>
    var tip: Option<BlockHeader>
    var files: Files
    var entries: nat
    /** What the files hold, record by record. */
    ghost var records: seq<Record>

    function St(): State
      reads this
    {
      State(byHeight, byHash, tip)
    }

    ghost function Snapshot(): Machine
      reads this
    {
      Machine(St(), files, entries, records)
    }

    /** The main chain is sound and, with storage, the files hold it. */
    ghost predicate Valid()
      reads this
    {
      Inv(net, genesis, St()) && (persistent ==> DiskHolds(files, entries, records, St()))
    }

    /** A manager with nothing in memory, over the given files. */
    constructor (net: Net, genesis: Header, persistent: bool, files: Files, entries: nat, ghost records: seq<Record>)
      ensures this.net == net && this.genesis == genesis && this.persistent == persistent
      ensures St() == EMPTY && this.files == files && this.entries == entries && this.records == records
    {
      this.net, this.genesis, this.persistent := net, genesis, persistent;
      byHeight, byHash, tip := [], map[], None;
      this.files, this.entries, this.records := files, entries, records;
    }

    method GetHeaderByHeight(height: nat) returns (b: Option<BlockHeader>)
      ensures b == if height < |byHeight| && byHeight[height] in byHash then Some(byHash[byHeight[height]]) else None
    {
      if height >= |byHeight| {
        return None;
      }
      var hash := byHeight[height];
      if hash !in byHash {
        return None;
      }
      return Some(byHash[hash]);
    }

    method IsOnMainChain(b: BlockHeader) returns (on: bool)
      ensures on == OnMainChain(St(), b)
    {
      var main := GetHeaderByHeight(b.height);
      return main.Some? && main.value.hash == b.hash;
    }

    /** A known hash that the main chain holds, with its record. */
    method FindOnMainChain(hash: Hash) returns (b: Option<BlockHeader>)
      requires Inv(net, genesis, St())
      ensures b.Some? <==> hash in byHeight
      ensures b.Some? ==> hash in byHash && b.value == byHash[hash] && b.value.hash == hash
    {
      OnMainChainIsMembership(net, genesis, St(), hash);
      if hash !in byHash {
        return None;
      }
      var on := IsOnMainChain(byHash[hash]);
      return if on then Some(byHash[hash]) else None;
    }

    // ----- Setting the tip

    method PlaceHeader(b: BlockHeader)
      modifies this`byHeight, this`byHash
      ensures byHeight == Place(old(byHeight), b) && byHash == old(byHash)[b.hash := b]
    {
      while |byHeight| <= b.height
        invariant |old(byHeight)| <= |byHeight|
        invariant |byHeight| <= b.height + 1 || byHeight == old(byHeight)
        invariant byHeight == Pad(old(byHeight), |byHeight|)
        invariant byHash == old(byHash)
        decreases b.height + 1 - |byHeight|
      {
        byHeight := byHeight + [ZERO];
      }
      byHeight := byHeight[b.height := b.hash];
      byHash := byHash[b.hash := b];
    }

    /** Visits every recorded header, in whatever order the map yields them. */
    method PruneOrphans()
      requires tip.Some?
      modifies this`byHash
      ensures byHash == Prune(byHeight, old(byHash), PruneHeight(tip.value))
    {
      var pruneHeight := if tip.value.height > 100 then tip.value.height - 100 else 0;
      var todo := byHash.Keys;
      ghost var all := byHash;
      while todo != {}
        invariant todo <= all.Keys
        invariant forall k :: k in byHash <==>
          k in all && (k in todo || AtOwnHeight(byHeight, k, all[k]) || all[k].height >= pruneHeight)
        invariant forall k :: k in byHash ==> byHash[k] == all[k]
        decreases todo
      {
        var k :| k in todo;
        var b := byHash[k];
        if !(b.height < |byHeight| && byHeight[b.height] == k) && b.height < pruneHeight {
          byHash := byHash - {k};
        }
        todo := todo - {k};
      }
    }

    /** Files the headers by height and by hash. */
    method PlaceBranch(branch: seq<BlockHeader>)
      modifies this`byHeight, this`byHash
      ensures byHeight == PlaceAll(old(byHeight), branch) && byHash == PutAll(old(byHash), branch)
    {
      for i := 0 to |branch|
        invariant byHeight == PlaceAll(old(byHeight), branch[..i]) && byHash == PutAll(old(byHash), branch[..i])
      {
        assert branch[..i + 1][..i] == branch[..i];
        PlaceHeader(branch[i]);
      }
      assert branch[..|branch|] == branch;
    }

    /** Lists a file for every 100000 heights up to the tip. */
    method UpdateMetadataForTip()
      requires tip.Some?
      modifies this`entries
      ensures entries == if persistent then MetadataEntries(old(entries), tip.value) else old(entries)
    {
      if !persistent {
        return;
      }
      while entries <= tip.value.height / HEADERS_PER_FILE
        invariant entries == old(entries) || entries <= FileIndex(tip.value) + 1
        decreases FileIndex(tip.value) + 1 - entries
      {
        entries := entries + 1;
      }
    }

    method SetTipInMemory(branch: seq<BlockHeader>)
      requires |branch| > 0
      modifies this`byHeight, this`byHash, this`tip
      ensures St() == SetTip(old(St()), branch)
    {
      PlaceBranch(branch);
      var newTip := branch[|branch| - 1];
      if |byHeight| > newTip.height + 1 {
        byHeight := byHeight[..newTip.height + 1];
      }
      tip := Some(newTip);
      PruneOrphans();
    }

    /** Files the branch by height and by hash, cuts the list after the new tip, prunes, and
        writes the branch to the header files. */
    method SetChainTip(branch: seq<BlockHeader>)
      modifies this`byHeight, this`byHash, this`tip, this`files, this`entries
      ensures St() == SetTip(old(St()), branch)
      ensures branch != [] ==> forall k :: k in byHash ==>
                AtOwnHeight(byHeight, k, byHash[k]) || byHash[k].height + 100 >= tip.value.height
      ensures files == if persistent && branch != [] then WriteAll(old(files), branch) else old(files)
      ensures entries ==
              if persistent && branch != [] then MetadataEntries(old(entries), branch[|branch| - 1]) else old(entries)
    {
      if |branch| == 0 {
        return;
      }
      SetTipInMemory(branch);
      forall k | k in byHash
        ensures AtOwnHeight(byHeight, k, byHash[k]) || byHash[k].height + 100 >= tip.value.height
      {
        SetTipPrunes(old(St()), branch, PutAll(old(byHash), branch), St(), k);
      }
      if persistent {
        files := WriteHeadersToFiles(files, branch);
      }
      UpdateMetadataForTip();
    }

    /** Sets the tip. With a branch that grows from the main chain, memory and disk stay sound
        and in step. */
    method Import(branch: seq<BlockHeader>, ghost grows: bool)
      requires |branch| > 0 && (grows ==> Valid() && Extends(net, St(), branch))
      modifies this
      ensures St() == SetTip(old(St()), branch)
      ensures grows ==> Valid()
      ensures grows && persistent ==>
                branch[0].height <= |old(records)| && Snapshot() == Imported(old(Snapshot()), branch)
    {
      ghost var m := Snapshot();
      SetChainTip(branch);
      if grows {
        SetTipKeepsInv(net, genesis, m.state, branch, St());
        if persistent {
          records := RecordsAfter(records, branch);
          ImportKeepsSound(net, genesis, m, branch, Snapshot());
        }
      }
    }

    // ----- One announced block

    /** Records the block under the announced height, and makes it the tip when it has more work.
        With the right height memory and disk stay sound. */
    method AddBlockToChain(header: Header, height: nat) returns (err: Option<SyncError>)
      requires Valid()
      modifies this
      ensures err == if header.prevHash in old(byHash) then None else Some(ParentNotFound)
      ensures err.Some? ==> Snapshot() == old(Snapshot())
      ensures err.None? ==> Some(St()) == AddBlock(net, old(St()), header, height)
      ensures tip != old(tip) ==> tip.value.chainWork > old(tip).value.chainWork
      ensures old(RightlyAnnounced(net, St(), header, height)) ==> Valid()
      ensures old(RightlyAnnounced(net, St(), header, height)) && persistent ==>
                Stepped(net, old(Snapshot()), Announced(header, height), Snapshot())
    {
      ghost var s, m := St(), Snapshot();
      if header.prevHash !in byHash {
        return Some(ParentNotFound);
      }
      var parent := byHash[header.prevHash];
      var b := BlockHeader(header, height, net.hashOf(header), parent.chainWork + net.work(header.bits));
      ghost var right := RightlyAnnounced(net, s, header, height);
      if right {
        ReadyToAdd(net, genesis, s, header, height, b);
      }
      AddHeader(b, right);
      ghost var recorded := Snapshot();
      PromoteIfHeavier(b, right);
      if right && persistent {
        AnnouncedSteps(net, m, b, recorded, Snapshot());
      }
      return None;
    }

    /** Records a header without touching the main chain. */
    method AddHeader(b: BlockHeader, ghost right: bool)
      requires right ==> Valid() && b.hash !in byHash && Inv(net, genesis, Insert(St(), b))
      modifies this`byHash
      ensures St() == Insert(old(St()), b) && Snapshot() == old(Snapshot()).(state := St())
      ensures right ==> Valid()
    {
      if right {
        InsertKeepsDisk(net, genesis, files, entries, records, St(), b);
      }
      byHash := byHash[b.hash := b];
    }

    /** Makes the block the tip if it has more work than the tip. */
    method PromoteIfHeavier(b: BlockHeader, ghost right: bool)
      requires right ==> Valid() && Extends(net, St(), [b])
      modifies this
      ensures St() == if Heavier(old(tip), b) then SetTip(old(St()), [b]) else old(St())
      ensures right ==> Valid()
      ensures right && persistent && Heavier(old(tip), b) ==>
                b.height <= |old(records)| && Snapshot() == Imported(old(Snapshot()), [b])
      ensures !Heavier(old(tip), b) ==> Snapshot() == old(Snapshot())
    {
      if tip.None? || b.chainWork > tip.value.chainWork {
        Import([b], right);
      }
    }

    // ----- A remote tip

    /** Walks back from the remote tip, batch by batch, to the first block on the main chain. Fails
        exactly on the first request of its own that has no answer, or an empty one. */
    method WalkBack(remoteTip: Hash, fetch: Fetch, ghost distance: Hash -> nat)
      returns (err: Option<SyncError>, branch: seq<Header>, ancestor: Option<BlockHeader>)
      requires Inv(net, genesis, St()) && RemoteChain(net, fetch, distance)
      ensures err == Some(FetchFailed) <==> Refused(net, byHeight, fetch, remoteTip)
      ensures err == Some(NoHeadersReturned) <==> AnsweredEmpty(net, byHeight, fetch, remoteTip)
      ensures err in {None, Some(FetchFailed), Some(NoHeadersReturned)}
      ensures err.None? ==> ancestor.Some? && Meets(net, St(), distance, fetch, remoteTip, branch, ancestor.value)
    {
      branch := [];
      var currentHash := remoteTip;
      var request := 0;
      while true
        invariant AllPass(net, byHeight, fetch, remoteTip, request)
        invariant currentHash == AskedFor(fetch, remoteTip, request) && branch == Gathered(fetch, remoteTip, request)
        decreases distance(currentHash)
      {
        ancestor := FindOnMainChain(currentHash);
        if ancestor.Some? {
          MeetsHash(net, St(), distance, fetch, remoteTip, request, ancestor.value);
          return None, branch, ancestor;
        }
        var headers := fetch(request, currentHash);
        if headers.None? || |headers.value| == 0 {
          FailureEndsWalk(net, byHeight, fetch, remoteTip, request);
          return Some(if headers.None? then FetchFailed else NoHeadersReturned), [], None;
        }
        var n;
        n, ancestor := FirstOnMainChain(headers.value);
        if ancestor.Some? {
          MeetsHeader(net, St(), distance, fetch, remoteTip, request, headers.value, n, ancestor.value);
          return None, Trimmed(branch, headers.value, n), ancestor;
        }
        var next := headers.value[|headers.value| - 1].prevHash;
        GoesOn(net, byHeight, distance, fetch, remoteTip, request, currentHash, headers.value, next);
        branch, currentHash, request := branch + headers.value, next, request + 1;
      }
    }

    /** The position of the first header that the main chain holds, with its record. */
    method FirstOnMainChain(hs: seq<Header>) returns (n: nat, found: Option<BlockHeader>)
      requires Inv(net, genesis, St())
      ensures n <= |hs| && OffMain(net, byHeight, hs[..n]) && (found.Some? <==> n < |hs|)
      ensures found.Some? ==>
                && net.hashOf(hs[n]) == found.value.hash && found.value.hash in byHeight
                && found.value.hash in byHash && byHash[found.value.hash] == found.value
    {
      n := 0;
      while n < |hs|
        invariant n <= |hs| && OffMain(net, byHeight, hs[..n])
      {
        found := FindOnMainChain(net.hashOf(hs[n]));
        if found.Some? {
          return;
        }
        n := n + 1;
      }
      found := None;
    }

    /** Imports the branch found by walking back, and reports what it replaced. */
    method SyncFromRemoteTip(remoteTip: Hash, fetch: Fetch, ghost distance: Hash -> nat)
      returns (err: Option<SyncError>, event: Option<ReorgEvent>,
               ghost walked: seq<Header>, ghost ancestor: BlockHeader)
      requires Valid() && RemoteChain(net, fetch, distance)
      modifies this
      ensures Valid()
      ensures err == Some(FetchFailed) <==> Refused(net, old(byHeight), fetch, remoteTip)
      ensures err == Some(NoHeadersReturned) <==> AnsweredEmpty(net, old(byHeight), fetch, remoteTip)
      ensures err in {None, Some(FetchFailed), Some(NoHeadersReturned)}
      ensures err.Some? || remoteTip in old(byHeight) ==>
                Snapshot() == old(Snapshot()) && event.None?
      ensures err.None? && remoteTip !in old(byHeight) ==>
                && FromBatches(fetch, remoteTip, walked)
                && SyncedTo(net, old(St()), distance, remoteTip, walked, ancestor, St(), event)
      ensures err.None? && remoteTip !in old(byHeight) && persistent ==>
                Stepped(net, old(Snapshot()), Synced(walked, ancestor), Snapshot())
    {
      ghost var s := St();
      var found := FindOnMainChain(remoteTip);
      if found.Some? {
        MetEndsWalk(net, byHeight, fetch, remoteTip, 0);
        return None, None, [], found.value;
      }
      var failed, branch, common := WalkBack(remoteTip, fetch, distance);
      if failed.Some? {
        return failed, None, [], Genesis(net, genesis);
      }
      walked, ancestor := branch, common.value;
      var oldestFirst := ReverseHeaders(branch);
      var blocks := NumberHeaders(net, common.value, oldestFirst);
      FoundBranchExtends(net, genesis, distance, s, remoteTip, walked, ancestor, blocks);
      ParentOnMain(net, genesis, s, ancestor.hash);
      event := None;
      if common.value.height < tip.value.height {
        var orphaned := CollectOrphans(byHeight, common.value.height);
        event := Some(ReorgEvent(orphaned, blocks[|blocks| - 1], common.value, |orphaned|));
      }
      Import(blocks, true);
      SyncDone(net, genesis, s, distance, remoteTip, walked, ancestor, blocks, St(), event);
      return None, event, walked, ancestor;
    }

    /** If the message is for a new block on the main chain, its height is its parent's plus one. */
    ghost predicate HeightIsRight(data: seq<byte>, height: nat)
      reads this
    {
      forall h :: NewHeaderFromBytes(data) == Some(h) && h.prevHash in byHeight && net.hashOf(h) !in byHash ==>
        RightlyAnnounced(net, St(), h, height)
    }

    /** A block message: known blocks are ignored, a block on the main chain is added, and any
        other block starts a sync from its hash. */
    method ProcessBlockMessage(data: seq<byte>, height: nat, fetch: Fetch, ghost distance: Hash -> nat)
      returns (err: Option<SyncError>, event: Option<ReorgEvent>,
               ghost walked: seq<Header>, ghost ancestor: BlockHeader)
      requires Valid() && RemoteChain(net, fetch, distance)
      modifies this
      ensures old(HeightIsRight(data, height)) ==> Valid()
      ensures err.Some? ==> Snapshot() == old(Snapshot()) && event.None?
      ensures |data| != HEADER_SIZE <==> err == Some(InvalidHeaderSize)
      ensures |data| == HEADER_SIZE ==>
                var h := NewHeaderFromBytes(data).value;
                && (net.hashOf(h) in old(byHash) ==> err.None? && Snapshot() == old(Snapshot()) && event.None?)
                && (net.hashOf(h) !in old(byHash) && h.prevHash in old(byHeight) ==>
                      && err.None? && event.None? && Some(St()) == AddBlock(net, old(St()), h, height)
                      && h.prevHash in old(byHash) && old(tip).Some?
                      && (Inv(net, genesis, St()) <==> AnnouncedWell(net, genesis, old(St()), h, height)))
                && (net.hashOf(h) !in old(byHash) && h.prevHash !in old(byHeight) ==>
                      && Valid() && err in {None, Some(FetchFailed), Some(NoHeadersReturned)}
                      && (err == Some(FetchFailed) <==> Refused(net, old(byHeight), fetch, net.hashOf(h)))
                      && (err == Some(NoHeadersReturned) <==>
                            AnsweredEmpty(net, old(byHeight), fetch, net.hashOf(h)))
                      && (err.None? ==>
                            && FromBatches(fetch, net.hashOf(h), walked)
                            && SyncedTo(net, old(St()), distance, net.hashOf(h), walked, ancestor, St(), event)))
    {
      err, event, walked, ancestor := None, None, [], Genesis(net, genesis);
      var header := NewHeaderFromBytes(data);
      if header.None? {
        return Some(InvalidHeaderSize), None, walked, ancestor;
      }
      var hash := net.hashOf(header.value);
      if hash in byHash {
        return;
      }
      var parent := FindOnMainChain(header.value.prevHash);
      if parent.Some? {
        AnnouncedExact(net, genesis, St(), header.value, height);
        err := AddBlockToChain(header.value, height);
      } else {
        HashesRecorded(net, genesis, St(), hash);
        err, event, walked, ancestor := SyncFromRemoteTip(hash, fetch, distance);
      }
    }

    // ----- Starting up

    /** Genesis alone, when there is nothing to restore. */
    method InitializeFromGenesis()
      requires St() == EMPTY && (persistent ==> files == map[] && entries == 0 && records == [])
      modifies this
      ensures Valid() && byHeight == [net.hashOf(genesis)]
      ensures tip == Some(BlockHeader(genesis, 0, net.hashOf(genesis), 0))
      ensures persistent ==> Snapshot() == Start(net, genesis)
    {
      var g := BlockHeader(genesis, 0, net.hashOf(genesis), 0);
      SetChainTip([g]);
      GenesisInv(net, genesis);
      SetTipByHeight(EMPTY, [g]);
      if persistent {
        records := RecordsAfter([], [g]);
        StartSound(net, genesis);
      }
    }

    /** Heights from the first one of the file on, and work from the block below it. */
    method NumberFile(f: nat, headers: seq<Header>) returns (blocks: Option<seq<BlockHeader>>)
      requires Below(St(), f).Some? ==> Below(St(), f).value.height + 1 == FirstHeight(f)
      ensures blocks == if f > 0 && Below(St(), f).None? then None else Some(Blocks(net, Below(St(), f), headers))
    {
      var firstHeight := f * HEADERS_PER_FILE;
      FirstHeightIsProduct(f);
      var prevChainWork := 0;
      if firstHeight > 0 {
        var prev := GetHeaderByHeight(firstHeight - 1);
        if prev.None? {
          return None;
        }
        prevChainWork := prev.value.chainWork;
      }
      ghost var below := Below(St(), f);
      var bs := [];
      for i := 0 to |headers|
        invariant bs == Blocks(net, below, headers[..i])
        invariant prevChainWork == WorkBefore(below, bs)
      {
        var height := firstHeight + i;
        var chainWork := if height == 0 then 0 else prevChainWork + net.work(headers[i].bits);
        var b := BlockHeader(headers[i], height, net.hashOf(headers[i]), chainWork);
        BlocksStep(net, below, firstHeight, headers, i, b);
        bs := bs + [b];
        prevChainWork := chainWork;
      }
      assert headers[..|headers|] == headers;
      return Some(bs);
    }

    /** The first f files have been read into memory. */
    ghost predicate Restored(main: seq<BlockHeader>, f: nat)
      reads this
    {
      |main| == |records| && LoadedOrRebuilt(St(), main, Min(FirstHeight(f), |records|))
    }

    /** Reads one file and makes its last block the tip. The file is written back as it was read. */
    method LoadNextFile(f: nat, ghost main: seq<BlockHeader>)
      requires persistent && f < entries && OnDisk(net, files, entries, records, main) && Restored(main, f)
      modifies this`byHeight, this`byHash, this`tip, this`files, this`entries
      ensures files == old(files) && entries == old(entries) && Restored(main, f + 1)
    {
      ghost var s := St();
      var blocks := ReadFile(f, main);
      SetChainTip(blocks);
      AfterFile(s, main, FirstHeight(f), FileEnd(main, f), St());
    }

    /** The blocks of one file: the next ones of the chain. */
    method ReadFile(f: nat, ghost main: seq<BlockHeader>) returns (blocks: seq<BlockHeader>)
      requires f < entries && OnDisk(net, files, entries, records, main) && Restored(main, f)
      ensures |main| == |records| && FirstHeight(f) < FileEnd(main, f)
      ensures blocks == main[FirstHeight(f)..FileEnd(main, f)]
      ensures WriteAll(files, blocks) == files && MetadataEntries(entries, blocks[|blocks| - 1]) == entries
    {
      ghost var hi := FileEnd(records, f);
      FileListed(files, entries, records, f);
      assert Loaded(St(), main, FirstHeight(f));
      FileReady(net, St(), files, entries, records, main, f, hi);
      var headers := LoadHeadersFromFile(files[f]);
      var numbered := NumberFile(f, headers.value);
      blocks := numbered.value;
      FileWrittenBack(net, files, entries, records, main, f, hi, blocks);
    }

    lemma NothingRestored(main: seq<BlockHeader>)
      requires St() == EMPTY && |main| == |records|
      ensures Restored(main, 0)
    {
      RebuiltEmpty(main);
    }

    lemma AllRestored(main: seq<BlockHeader>)
      requires OnDisk(net, files, entries, records, main) && Restored(main, entries) && entries > 0
      ensures |main| == |records| && LoadedOrRebuilt(St(), main, |records|) && LoadFiles(net, files, entries).Some?
      ensures Distinct(main) ==> LoadFiles(net, files, entries) == Some(St())
    {
      ParsedBytes(records);
      var s := LoadFilesRebuilds(net, files, Parsed(records), records, entries);
      if Distinct(main) {
        RebuiltUnique(s, St(), main, |records|);
      }
    }

    /** Restores the chain file by file. */
    method RestoreFiles(ghost main: seq<BlockHeader>)
      requires St() == EMPTY && persistent && entries > 0 && OnDisk(net, files, entries, records, main)
      modifies this
      ensures files == old(files) && entries == old(entries) && records == old(records)
      ensures |main| == |records| && LoadedOrRebuilt(St(), main, |records|) && LoadFiles(net, files, entries).Some?
      ensures Distinct(main) ==> LoadFiles(net, files, entries) == Some(St())
    {
      NothingRestored(main);
      var f := 0;
      while f < entries
        invariant f <= entries && files == old(files) && entries == old(entries) && records == old(records)
        invariant Restored(main, f)
        decreases entries - f
      {
        LoadNextFile(f, main);
        f := f + 1;
      }
      AllRestored(main);
    }

    /** Starts from genesis when nothing was stored, and from the header files otherwise. */
    method LoadFromLocalFiles(ghost main: seq<BlockHeader>)
      requires St() == EMPTY && (entries > 0 ==> persistent && OnDisk(net, files, entries, records, main))
      requires entries == 0 && persistent ==> files == map[] && records == []
      modifies this
      ensures old(entries) == 0 ==> Valid() && byHeight == [net.hashOf(genesis)]
      ensures old(entries) == 0 && persistent ==> Snapshot() == Start(net, genesis)
      ensures old(entries) > 0 ==> files == old(files) && entries == old(entries) && records == old(records)
      ensures old(entries) > 0 ==> |main| == |records| && LoadedOrRebuilt(St(), main, |records|)
      ensures old(entries) > 0 && Distinct(main) ==> LoadFiles(net, files, entries) == Some(St())
    {
      if entries == 0 {
        InitializeFromGenesis();
      } else {
        RestoreFiles(main);
      }
    }
  }

  /** A new manager over the files of a sound one. It is sound if and only if the records on disk
      are one chain from genesis. When the tip was never higher they are, and the new manager
      has the same main chain, with the same hashes, heights and work. */
  method Restart(m: ChainManager) returns (n: ChainManager)
    requires m.Valid() && m.persistent
    ensures fresh(n) && n.net == m.net && n.genesis == m.genesis && n.persistent
    ensures n.files == m.files && n.entries == m.entries && n.records == m.records
    ensures n.byHeight == HashesOf(ChainOf(m.net, Parsed(m.records)))
    ensures n.Valid() <==> Reloadable(m.net, m.genesis, m.records)
    ensures n.Valid() ==> Stepped(m.net, m.Snapshot(), Restarted, n.Snapshot())
    ensures |m.records| == |m.byHeight| ==>
              n.Valid() && n.byHeight == m.byHeight && n.tip == m.tip && Entries(n.St()) == Entries(m.St())
  {
    n := new ChainManager(m.net, m.genesis, true, m.files, m.entries, m.records);
    ghost var main := ChainOf(m.net, Parsed(m.records));
    n.LoadFromLocalFiles(main);
    assert main[..|m.records|] == main;
    SoundAfterLoad(m.net, m.genesis, m.Snapshot(), n.St(), main);
    if |m.records| == |m.byHeight| {
      UpToDateIsReloadable(m.net, m.genesis, m.files, m.entries, m.records, m.St());
      ghost var loaded := PersistThenReload(m.net, m.genesis, m.files, m.entries, m.records, m.St());
    }
  }

  lemma SoundAfterLoad(net: Net, genesis: Header, m: Machine, s: State, main: seq<BlockHeader>)
    requires Sound(net, genesis, m) && main == ChainOf(net, Parsed(m.records)) && LoadedOrRebuilt(s, main, |m.records|)
    ensures Sound(net, genesis, m.(state := s)) <==> Reloadable(net, genesis, m.records)
    ensures Inv(net, genesis, s) ==> Sound(net, genesis, m.(state := s))
  {
    LoadedSoundIff(net, genesis, m.records, s);
    assert main[..|m.records|] == main;
    if Reloadable(net, genesis, m.records) {
      RecordsAreEntries(net, m.records, s);
    }
  }
}
