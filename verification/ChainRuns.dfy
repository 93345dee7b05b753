/**
 Whole runs of a chain manager with storage: start from genesis, announced blocks, syncs and
 restarts, in any order.
 */
module ChainRuns {
  import opened Base
  import opened BlockHeaders
  import opened Chain
  import opened ChainSteps
  import opened HeaderFiles
  import opened Persistence
  import opened Reload

  /** Memory and disk; `records` is what the files hold, record by record. */
  datatype Machine = Machine(state: State, files: Files, entries: nat, records: seq<Record>)

  datatype Step =
    | Announced(header: Header, height: nat)
    | Synced(walked: seq<Header>, ancestor: BlockHeader)
    | Restarted

  /** The records on disk after a branch is written over them. */
  function RecordsAfter(rs: seq<Record>, branch: seq<BlockHeader>): seq<Record>
    requires |branch| > 0 && branch[0].height <= |rs|
  {
    Overlay(rs, branch[0].height, RecordsOf(HeadersOf(branch)))
  }

  function Imported(m: Machine, branch: seq<BlockHeader>): Machine
    requires |branch| > 0 && branch[0].height <= |m.records|
  {
    Machine(SetTip(m.state, branch), WriteAll(m.files, branch),
            MetadataEntries(m.entries, branch[|branch| - 1]), RecordsAfter(m.records, branch))
  }

  function Start(net: Net, genesis: Header): Machine {
    Imported(Machine(EMPTY, map[], 0, []), [Genesis(net, genesis)])
  }

  ghost predicate Sound(net: Net, genesis: Header, m: Machine) {
    Inv(net, genesis, m.state) && DiskHolds(m.files, m.entries, m.records, m.state)
  }

  /** A new block on the main chain, at the height above its parent's. */
  ghost predicate RightlyAnnounced(net: Net, s: State, header: Header, height: nat) {
    && net.hashOf(header) !in s.byHash && header.prevHash in s.byHeight
    && header.prevHash in s.byHash && height == s.byHash[header.prevHash].height + 1
  }

  /** What the manager's own tests let through: a new block on the main chain, announced at any
      height; any headers off the main chain that were fetched before meeting it; a restart. */
  ghost predicate Offered(net: Net, m: Machine, step: Step) {
    match step
    case Announced(header, _) =>
      && net.hashOf(header) !in m.state.byHash && header.prevHash in m.state.byHeight
      && header.prevHash in m.state.byHash && m.state.tip.Some?
    case Synced(walked, ancestor) => |walked| > 0 && Fetched(net, m.state, walked, ancestor)
    case Restarted => true
  }

  /** What can be told beforehand: the height is right, the headers are linked, the records on disk
      are one chain from genesis. */
  ghost predicate Harmless(net: Net, genesis: Header, m: Machine, step: Step)
    requires Offered(net, m, step)
  {
    match step
    case Announced(header, height) => AnnouncedWell(net, genesis, m.state, header, height)
    case Synced(walked, ancestor) => LinkedDown(net, walked, ancestor) && NoneTwice(net, walked)
    case Restarted => Reloadable(net, genesis, m.records)
  }

  /** A block written beyond the end of the records leaves a gap in the files, which `records`
      does not describe. */
  ghost predicate Stepped(net: Net, m: Machine, step: Step, after: Machine) {
    match step
    case Announced(header, height) =>
      header.prevHash in m.state.byHash &&
      var b := NewBlock(net, m.state.byHash[header.prevHash], header, height);
      var recorded := m.(state := Insert(m.state, b));
      if m.state.tip.Some? && b.chainWork <= m.state.tip.value.chainWork then after == recorded
      else if height <= |m.records| then after == Imported(recorded, [b])
      else
        && after.state == SetTip(recorded.state, [b])
        && after.files == WriteAll(m.files, [b]) && after.entries == MetadataEntries(m.entries, b)
    case Synced(walked, ancestor) =>
      var branch := Number(net, ancestor, Reverse(walked));
      |branch| > 0 && branch[0].height <= |m.records| && after == Imported(m, branch)
    case Restarted =>
      LoadFiles(net, m.files, m.entries).Some? && after == m.(state := LoadFiles(net, m.files, m.entries).value)
  }

  function Max(a: nat, b: nat): nat {
    if a < b then b else a
  }

  // ----- Each step

  /** Importing a branch that grows from the main chain keeps memory and disk in step. */
  lemma {:induction false} ImportKeepsSound(net: Net, genesis: Header, m: Machine, branch: seq<BlockHeader>,
                                            after: Machine)
    requires Sound(net, genesis, m) && Extends(net, m.state, branch)
    requires branch[0].height <= |m.records| && after == Imported(m, branch)
    ensures Sound(net, genesis, after) && |after.records| == Max(|m.records|, |after.state.byHeight|)
  {
    ExtendsGrows(net, m.state, branch);
    SetTipByHeight(m.state, branch);
    SetTipKeepsInv(net, genesis, m.state, branch, after.state);
    SetTipKeepsDisk(m.files, m.entries, m.records, m.state, branch, after.state, RecordsOf(HeadersOf(branch)));
  }

  lemma InsertKeepsSound(net: Net, genesis: Header, m: Machine, b: BlockHeader)
    requires Sound(net, genesis, m) && b.hash !in m.state.byHash && OnSomeChain(net, genesis, b)
    ensures Sound(net, genesis, m.(state := Insert(m.state, b)))
  {
    InsertKeepsInv(net, genesis, m.state, b);
    assert Entries(Insert(m.state, b)) == Entries(m.state);
  }

  lemma {:induction false} AnnouncedKeepsSound(net: Net, genesis: Header, m: Machine, header: Header, height: nat,
                                               after: Machine)
    requires Sound(net, genesis, m) && RightlyAnnounced(net, m.state, header, height)
    requires Stepped(net, m, Announced(header, height), after)
    ensures Sound(net, genesis, after) && |after.records| == Max(|m.records|, |after.state.byHeight|)
  {
    var s := m.state;
    var parent := s.byHash[header.prevHash];
    var b := NewBlock(net, parent, header, height);
    ParentOnMain(net, genesis, s, header.prevHash);
    ChildOnChain(net, genesis, parent, b);
    InsertKeepsSound(net, genesis, m, b);
    if b.chainWork > s.tip.value.chainWork {
      ChildExtends(net, genesis, s, b);
      ImportKeepsSound(net, genesis, m.(state := Insert(s, b)), [b], after);
    }
  }

  lemma AnnouncedState(net: Net, m: Machine, header: Header, height: nat, after: Machine)
    requires m.state.tip.Some? && Stepped(net, m, Announced(header, height), after)
    ensures AddBlock(net, m.state, header, height) == Some(after.state)
  {
  }

  lemma {:induction false} AnnouncedIsSoundIff(net: Net, genesis: Header, m: Machine, header: Header, height: nat,
                                               after: Machine)
    requires Sound(net, genesis, m) && Offered(net, m, Announced(header, height))
    requires Stepped(net, m, Announced(header, height), after)
    ensures Sound(net, genesis, after) <==> AnnouncedWell(net, genesis, m.state, header, height)
    ensures Sound(net, genesis, after) ==> |after.records| == Max(|m.records|, |after.state.byHeight|)
  {
    AnnouncedExact(net, genesis, m.state, header, height);
    AnnouncedState(net, m, header, height, after);
    if height == m.state.byHash[header.prevHash].height + 1 {
      AnnouncedKeepsSound(net, genesis, m, header, height, after);
    } else if AnnouncedWell(net, genesis, m.state, header, height) {
      InsertKeepsSound(net, genesis, m, NewBlock(net, m.state.byHash[header.prevHash], header, height));
    }
  }

  lemma {:induction false} SyncedIsSoundIff(net: Net, genesis: Header, m: Machine, walked: seq<Header>,
                                            ancestor: BlockHeader, after: Machine)
    requires Sound(net, genesis, m) && Offered(net, m, Synced(walked, ancestor))
    requires Stepped(net, m, Synced(walked, ancestor), after)
    ensures Sound(net, genesis, after) <==> LinkedDown(net, walked, ancestor) && NoneTwice(net, walked)
    ensures Sound(net, genesis, after) ==> |after.records| == Max(|m.records|, |after.state.byHeight|)
  {
    var branch := Number(net, ancestor, Reverse(walked));
    SyncExact(net, genesis, m.state, walked, ancestor, branch, after.state);
    WalkExtendsIff(net, genesis, m.state, walked, ancestor, branch);
    if Extends(net, m.state, branch) {
      ImportKeepsSound(net, genesis, m, branch, after);
    }
  }

  lemma {:induction false} RecordsAreEntries(net: Net, rs: seq<Record>, s: State)
    requires Recorded(s) && Entries(s) == ChainOf(net, Parsed(rs))
    ensures |s.byHeight| == |rs| && forall i :: 0 <= i < |rs| ==> rs[i] == Bytes(Entries(s)[i].header)
  {
    ParsedBytes(rs);
    forall i | 0 <= i < |rs|
      ensures rs[i] == Bytes(Entries(s)[i].header)
    {
      ChainHeaders(net, Parsed(rs), i);
    }
  }

  /** A restart from a sound state succeeds, and gives a sound state if and only if the records
      on disk are one chain from genesis. */
  lemma {:induction false} RestartIsSoundIff(net: Net, genesis: Header, m: Machine, after: Machine)
    requires Sound(net, genesis, m) && Stepped(net, m, Restarted, after)
    ensures Sound(net, genesis, after) <==> Reloadable(net, genesis, m.records)
    ensures after.records == m.records && |after.state.byHeight| == |m.records|
  {
    var loaded := LoadedIsSoundIff(net, genesis, m.files, m.entries, m.records);
    LoadedDisk(net, genesis, m, loaded);
  }

  lemma {:induction false} LoadedDisk(net: Net, genesis: Header, m: Machine, loaded: State)
    requires Holds(m.files, m.records) && Covers(m.entries, |m.records|)
    requires LoadedOrRebuilt(loaded, ChainOf(net, Parsed(m.records)), |m.records|)
    ensures |loaded.byHeight| == |m.records|
    ensures Reloadable(net, genesis, m.records) ==> DiskHolds(m.files, m.entries, m.records, loaded)
  {
    var main := ChainOf(net, Parsed(m.records));
    assert main[..|m.records|] == main;
    if Reloadable(net, genesis, m.records) {
      RecordsAreEntries(net, m.records, loaded);
    }
  }

  /** A step from a sound state ends in one if and only if it was harmless. */
  lemma StepIsSoundIff(net: Net, genesis: Header, m: Machine, step: Step, after: Machine)
    requires Sound(net, genesis, m) && Offered(net, m, step) && Stepped(net, m, step, after)
    ensures Sound(net, genesis, after) <==> Harmless(net, genesis, m, step)
    ensures Sound(net, genesis, after) ==> |after.records| == Max(|m.records|, |after.state.byHeight|)
  {
    match step
    case Announced(header, height) => AnnouncedIsSoundIff(net, genesis, m, header, height, after);
    case Synced(walked, ancestor) => SyncedIsSoundIff(net, genesis, m, walked, ancestor, after);
    case Restarted => RestartIsSoundIff(net, genesis, m, after);
  }

  // ----- From an empty directory

  lemma HoldsNothing()
    ensures Holds(map[], [])
  {
    forall f: nat
      ensures FileHolds(map[], [], f)
    {
      assert Slice([], f) == [];
    }
  }

  lemma {:induction false} StartSound(net: Net, genesis: Header)
    ensures Sound(net, genesis, Start(net, genesis))
    ensures |Start(net, genesis).records| == |Start(net, genesis).state.byHeight| == 1
  {
    var branch := [Genesis(net, genesis)];
    HoldsNothing();
    GenesisInv(net, genesis);
    SetTipByHeight(EMPTY, branch);
    SetTipKeepsDisk(map[], 0, [], EMPTY, branch, SetTip(EMPTY, branch), RecordsOf(HeadersOf(branch)));
  }

  // ----- Runs

  ghost predicate StepAt(net: Net, steps: seq<Step>, run: seq<Machine>, i: nat)
    requires i < |steps| && |run| == |steps| + 1
  {
    Offered(net, run[i], steps[i]) && Stepped(net, run[i], steps[i], run[i + 1])
  }

  ghost predicate Follows(net: Net, steps: seq<Step>, run: seq<Machine>) {
    |run| == |steps| + 1 && forall i :: 0 <= i < |steps| ==> StepAt(net, steps, run, i)
  }

  ghost predicate IsRun(net: Net, genesis: Header, steps: seq<Step>, run: seq<Machine>) {
    Follows(net, steps, run) && run[0] == Start(net, genesis)
  }

  ghost predicate HarmlessAt(net: Net, genesis: Header, steps: seq<Step>, run: seq<Machine>, i: nat)
    requires i < |steps| && |run| == |steps| + 1
  {
    Offered(net, run[i], steps[i]) && Harmless(net, genesis, run[i], steps[i])
  }

  /** The greatest main-chain length among the first n + 1 states. */
  function Highest(run: seq<Machine>, n: nat): nat
    requires n < |run|
  {
    if n == 0 then |run[0].state.byHeight| else Max(Highest(run, n - 1), |run[n].state.byHeight|)
  }

  lemma {:induction false} HighestIsMax(run: seq<Machine>, n: nat)
    requires n < |run|
    ensures forall i :: 0 <= i <= n ==> |run[i].state.byHeight| <= Highest(run, n)
    ensures exists i :: 0 <= i <= n && |run[i].state.byHeight| == Highest(run, n)
  {
    if n == 0 {
      assert |run[0].state.byHeight| == Highest(run, n);
    } else {
      HighestIsMax(run, n - 1);
      var i :| 0 <= i <= n - 1 && |run[i].state.byHeight| == Highest(run, n - 1);
      var j := if Highest(run, n) == Highest(run, n - 1) then i else n;
      assert |run[j].state.byHeight| == Highest(run, n);
    }
  }

  /** State n is sound, and the disk holds as many records as the chain was ever long. */
  ghost predicate SoundAt(net: Net, genesis: Header, run: seq<Machine>, n: nat)
    requires n < |run|
  {
    Sound(net, genesis, run[n]) && |run[n].records| == Highest(run, n)
  }

  lemma RunBase(net: Net, genesis: Header, run: seq<Machine>)
    requires |run| > 0 && run[0] == Start(net, genesis)
    ensures SoundAt(net, genesis, run, 0)
  {
    StartSound(net, genesis);
  }

  lemma RunStep(net: Net, genesis: Header, steps: seq<Step>, run: seq<Machine>, i: nat)
    requires Follows(net, steps, run) && i < |steps| && SoundAt(net, genesis, run, i)
    ensures SoundAt(net, genesis, run, i + 1) <==> HarmlessAt(net, genesis, steps, run, i)
  {
    assert StepAt(net, steps, run, i);
    StepIsSoundIff(net, genesis, run[i], steps[i], run[i + 1]);
  }

  /** Every state up to the n-th is sound. */
  ghost predicate AllSound(net: Net, genesis: Header, run: seq<Machine>, n: nat)
    requires n < |run|
  {
    SoundAt(net, genesis, run, n) && (n > 0 ==> AllSound(net, genesis, run, n - 1))
  }

  /** Each of the first n steps was harmless. */
  ghost predicate AllHarmless(net: Net, genesis: Header, steps: seq<Step>, run: seq<Machine>, n: nat)
    requires n <= |steps| && |run| == |steps| + 1
  {
    n > 0 ==> HarmlessAt(net, genesis, steps, run, n - 1) && AllHarmless(net, genesis, steps, run, n - 1)
  }

  lemma {:induction false} SoundFrom(net: Net, genesis: Header, steps: seq<Step>, run: seq<Machine>, n: nat)
    requires Follows(net, steps, run) && n <= |steps| && SoundAt(net, genesis, run, 0)
    ensures AllSound(net, genesis, run, n) <==> AllHarmless(net, genesis, steps, run, n)
  {
    if n > 0 {
      SoundFrom(net, genesis, steps, run, n - 1);
      if SoundAt(net, genesis, run, n - 1) {
        RunStep(net, genesis, steps, run, n - 1);
      }
    }
  }

  /** In every run, whatever is announced, fetched and restarted: byHeight is after every step a
      parent-linked chain from genesis to the tip, with heights and cumulative work right, the files
      hold it, and the number of records on disk is the greatest main-chain length so far, if and
      only if every step was harmless. */
  lemma RunIsSoundIff(net: Net, genesis: Header, steps: seq<Step>, run: seq<Machine>, n: nat)
    requires IsRun(net, genesis, steps, run) && n <= |steps|
    ensures AllSound(net, genesis, run, n) <==> AllHarmless(net, genesis, steps, run, n)
  {
    RunBase(net, genesis, run);
    SoundFrom(net, genesis, steps, run, n);
  }

  ghost predicate SafeAt(net: Net, genesis: Header, steps: seq<Step>, run: seq<Machine>, i: nat)
    requires i < |steps| && |run| == |steps| + 1
  {
    StepAt(net, steps, run, i) && HarmlessAt(net, genesis, steps, run, i)
  }

  ghost predicate Safe(net: Net, genesis: Header, steps: seq<Step>, run: seq<Machine>) {
    |run| == |steps| + 1 && forall i :: 0 <= i < |steps| ==> SafeAt(net, genesis, steps, run, i)
  }

  /** A run all of whose steps are harmless. */
  ghost predicate IsSafeRun(net: Net, genesis: Header, steps: seq<Step>, run: seq<Machine>) {
    Safe(net, genesis, steps, run) && run[0] == Start(net, genesis)
  }

  lemma {:induction false} SafeSteps(net: Net, genesis: Header, steps: seq<Step>, run: seq<Machine>, n: nat)
    requires Safe(net, genesis, steps, run) && n <= |steps|
    ensures AllHarmless(net, genesis, steps, run, n)
  {
    if n > 0 {
      assert SafeAt(net, genesis, steps, run, n - 1);
      SafeSteps(net, genesis, steps, run, n - 1);
    }
  }

  lemma SafeFollows(net: Net, genesis: Header, steps: seq<Step>, run: seq<Machine>)
    requires Safe(net, genesis, steps, run)
    ensures Follows(net, steps, run)
  {
    forall i | 0 <= i < |steps|
      ensures StepAt(net, steps, run, i)
    {
      assert SafeAt(net, genesis, steps, run, i);
    }
  }

  lemma {:induction false} SafeRunIsSound(net: Net, genesis: Header, steps: seq<Step>, run: seq<Machine>, n: nat)
    requires IsSafeRun(net, genesis, steps, run) && n < |run|
    ensures SoundAt(net, genesis, run, n)
  {
    SafeFollows(net, genesis, steps, run);
    SafeSteps(net, genesis, steps, run, n);
    RunIsSoundIff(net, genesis, steps, run, n);
  }

  /** In every run of harmless steps, loading the files gives the main chain that memory holds
      exactly when the tip was never higher than it is now; otherwise what was written above the
      tip comes back with it. */
  lemma {:induction false} EveryRunReloads(net: Net, genesis: Header, steps: seq<Step>, run: seq<Machine>, n: nat)
    returns (loaded: State)
    requires IsSafeRun(net, genesis, steps, run) && n < |run|
    ensures LoadFiles(net, run[n].files, run[n].entries) == Some(loaded)
    ensures loaded.byHeight == run[n].state.byHeight <==> Highest(run, n) == |run[n].state.byHeight|
    ensures |loaded.byHeight| == Highest(run, n)
    ensures Highest(run, n) == |run[n].state.byHeight| ==>
              && loaded.tip == run[n].state.tip && Recorded(loaded) && Recorded(run[n].state)
              && Entries(loaded) == Entries(run[n].state)
  {
    SafeRunIsSound(net, genesis, steps, run, n);
    var m := run[n];
    if |m.records| == |m.state.byHeight| {
      loaded := PersistThenReload(net, genesis, m.files, m.entries, m.records, m.state);
    } else {
      loaded := StaleRecordsComeBack(net, genesis, m.files, m.entries, m.records, m.state);
    }
  }

  // ----- Steps that are let through and do harm

  /** A block on genesis that carries work, announced at any height but 1, breaks the main chain. */
  lemma WrongHeightBreaks(net: Net, genesis: Header, b: Header, height: nat, after: Machine)
    requires b.prevHash == net.hashOf(genesis) && net.hashOf(b) != net.hashOf(genesis) && net.work(b.bits) > 0
    requires height != 1 && Stepped(net, Start(net, genesis), Announced(b, height), after)
    ensures Offered(net, Start(net, genesis), Announced(b, height)) && !Sound(net, genesis, after)
  {
    StartAlone(net, genesis);
    AnnouncedIsSoundIff(net, genesis, Start(net, genesis), b, height, after);
  }

  /** So does a header from a remote node that does not name genesis as its parent. */
  lemma UnlinkedBreaks(net: Net, genesis: Header, c: Header) returns (after: Machine)
    requires c.prevHash != net.hashOf(genesis) && net.hashOf(c) != net.hashOf(genesis)
    ensures Offered(net, Start(net, genesis), Synced([c], Genesis(net, genesis)))
    ensures Stepped(net, Start(net, genesis), Synced([c], Genesis(net, genesis)), after)
    ensures !Sound(net, genesis, after)
  {
    var g, m := Genesis(net, genesis), Start(net, genesis);
    StartAlone(net, genesis);
    StartSound(net, genesis);
    var branch := Number(net, g, Reverse([c]));
    NumberConsecutive(net, genesis, m.state, [c], g, branch);
    after := Imported(m, branch);
    SyncedIsSoundIff(net, genesis, m, [c], g, after);
  }

  // ----- A run in which the tip falls

  /** Two blocks on genesis, and a branch of one block beside them. */
  ghost predicate Fork(net: Net, genesis: Header, b1: Header, b2: Header, c: Header) {
    var g, h1, h2, hc := net.hashOf(genesis), net.hashOf(b1), net.hashOf(b2), net.hashOf(c);
    && b1.prevHash == g && b2.prevHash == h1 && c.prevHash == g
    && g != h1 && g != h2 && h1 != h2 && hc != g && hc != h1 && hc != h2
    && net.work(b1.bits) > 0 && net.work(b2.bits) > 0
  }

  ghost predicate Takes(net: Net, genesis: Header, m: Machine, step: Step, after: Machine) {
    Offered(net, m, step) && Harmless(net, genesis, m, step) && Stepped(net, m, step, after)
  }

  lemma OnTip(net: Net, genesis: Header, s: State, header: Header, b: BlockHeader)
    requires Inv(net, genesis, s) && header.prevHash == s.tip.value.hash && net.hashOf(header) !in s.byHash
    requires b == NewBlock(net, s.tip.value, header, |s.byHeight|)
    ensures s.tip.value.height + 1 == |s.byHeight| && header.prevHash in s.byHash
    ensures s.byHash[header.prevHash] == s.tip.value
    ensures RightlyAnnounced(net, s, header, |s.byHeight|) && Grows(Insert(s, b), [b])
  {
    var n := |s.byHeight|;
    assert s.byHeight[n - 1] == s.tip.value.hash && Entries(s)[n - 1] == s.tip.value;
    ChildExtends(net, genesis, s, b);
    ExtendsGrows(net, Insert(s, b), [b]);
  }

  lemma NewTip(s: State, b: BlockHeader, after: State)
    requires Grows(Insert(s, b), [b]) && b.height == |s.byHeight| && after == SetTip(Insert(s, b), [b])
    ensures after.byHeight == s.byHeight + [b.hash] && after.tip == Some(b)
    ensures forall k :: k in after.byHash ==> k in s.byHash || k == b.hash
  {
    SetTipByHeight(Insert(s, b), [b]);
    assert s.byHeight[..b.height] == s.byHeight;
    forall k | k in after.byHash
      ensures k in s.byHash || k == b.hash
    {
      SetTipLookup(Insert(s, b), [b], after, k);
    }
  }

  /** An announced block on the tip that carries work becomes the tip. */
  lemma AnnouncedOnTip(net: Net, genesis: Header, m: Machine, header: Header)
    returns (after: Machine)
    requires Sound(net, genesis, m) && header.prevHash == m.state.tip.value.hash
    requires net.hashOf(header) !in m.state.byHash
    requires net.work(header.bits) > 0
    ensures Takes(net, genesis, m, Announced(header, |m.state.byHeight|), after)
    ensures after.state.byHeight == m.state.byHeight + [net.hashOf(header)]
    ensures after.state.tip.Some? && after.state.tip.value.hash == net.hashOf(header)
    ensures forall k :: k in after.state.byHash ==> k in m.state.byHash || k == net.hashOf(header)
  {
    var s := m.state;
    var b := NewBlock(net, s.tip.value, header, |s.byHeight|);
    OnTip(net, genesis, s, header, b);
    after := Imported(m.(state := Insert(s, b)), [b]);
    NewTip(s, b, after.state);
  }

  lemma StartAlone(net: Net, genesis: Header)
    ensures Sound(net, genesis, Start(net, genesis)) && Start(net, genesis).state.byHeight == [net.hashOf(genesis)]
    ensures Start(net, genesis).state.tip.value.hash == net.hashOf(genesis)
    ensures forall k :: k in Start(net, genesis).state.byHash <==> k == net.hashOf(genesis)
  {
    StartSound(net, genesis);
    GenesisAlone(net, genesis, Start(net, genesis).state);
  }

  lemma {:induction false} SameStep(net: Net, genesis: Header, steps: seq<Step>,
                                    run: seq<Machine>, steps': seq<Step>, run': seq<Machine>, i: nat)
    requires i < |steps| && |run| == |steps| + 1 && steps <= steps' && run <= run' && |run'| == |steps'| + 1
    requires SafeAt(net, genesis, steps, run, i)
    ensures SafeAt(net, genesis, steps', run', i)
  {
    assert steps[i] == steps'[i] && run[i] == run'[i] && run[i + 1] == run'[i + 1];
  }

  lemma {:induction false} RunExtends(net: Net, genesis: Header, steps: seq<Step>,
                                      run: seq<Machine>, step: Step, after: Machine)
    requires Safe(net, genesis, steps, run) && Takes(net, genesis, run[|steps|], step, after)
    ensures Safe(net, genesis, steps + [step], run + [after])
  {
    var steps', run' := steps + [step], run + [after];
    LastStep(net, genesis, steps', run', |steps|, run[|steps|], step, after);
    forall i | 0 <= i < |steps'|
      ensures SafeAt(net, genesis, steps', run', i)
    {
      if i < |steps| {
        SameStep(net, genesis, steps, run, steps', run', i);
      }
    }
  }

  lemma LastStep(net: Net, genesis: Header, steps: seq<Step>, run: seq<Machine>, i: nat,
                 m: Machine, step: Step, after: Machine)
    requires i < |steps| && |run| == |steps| + 1 && steps[i] == step && run[i] == m && run[i + 1] == after
    requires Takes(net, genesis, m, step, after)
    ensures SafeAt(net, genesis, steps, run, i)
  {
  }

  lemma {:induction false} OneBlock(net: Net, genesis: Header, b1: Header)
    returns (steps: seq<Step>, run: seq<Machine>)
    requires b1.prevHash == net.hashOf(genesis) && net.hashOf(b1) != net.hashOf(genesis) && net.work(b1.bits) > 0
    ensures |steps| == 1 && IsSafeRun(net, genesis, steps, run)
    ensures run[1].state.byHeight == [net.hashOf(genesis), net.hashOf(b1)]
    ensures run[1].state.tip.Some? && run[1].state.tip.value.hash == net.hashOf(b1)
    ensures forall k :: k in run[1].state.byHash ==> k == net.hashOf(genesis) || k == net.hashOf(b1)
  {
    var m0 := Start(net, genesis);
    StartAlone(net, genesis);
    var m1 := AnnouncedOnTip(net, genesis, m0, b1);
    RunExtends(net, genesis, [], [m0], Announced(b1, 1), m1);
    steps, run := [] + [Announced(b1, 1)], [m0] + [m1];
  }

  lemma {:induction false} TwoBlocks(net: Net, genesis: Header, b1: Header, b2: Header,
                                     c: Header)
    returns (steps: seq<Step>, run: seq<Machine>)
    requires Fork(net, genesis, b1, b2, c)
    ensures |steps| == 2 && IsSafeRun(net, genesis, steps, run) && |run[1].state.byHeight| == 2
    ensures run[2].state.byHeight == [net.hashOf(genesis), net.hashOf(b1), net.hashOf(b2)]
  {
    var steps1, run1 := OneBlock(net, genesis, b1);
    SafeRunIsSound(net, genesis, steps1, run1, 1);
    var m2 := AnnouncedOnTip(net, genesis, run1[1], b2);
    RunExtends(net, genesis, steps1, run1, Announced(b2, 2), m2);
    steps, run := steps1 + [Announced(b2, 2)], run1 + [m2];
  }

  lemma {:induction false} ForkRun(net: Net, genesis: Header, b1: Header, b2: Header, c: Header)
    returns (steps: seq<Step>, run: seq<Machine>)
    requires Fork(net, genesis, b1, b2, c)
    ensures |steps| == 3 && IsSafeRun(net, genesis, steps, run)
    ensures |run[1].state.byHeight| == 2 && |run[2].state.byHeight| == 3 && |run[3].state.byHeight| == 2
  {
    var steps2, run2 := TwoBlocks(net, genesis, b1, b2, c);
    SafeRunIsSound(net, genesis, steps2, run2, 2);
    var step, m3 := SyncToGenesis(net, genesis, run2[2], c);
    RunExtends(net, genesis, steps2, run2, step, m3);
    steps, run := steps2 + [step], run2 + [m3];
  }

  /** Genesis, two announced blocks, then a sync to the branch of one block: the tip falls, the
      disk keeps all three records, and loading brings the old tip back. */
  lemma TipCanFall(net: Net, genesis: Header, b1: Header, b2: Header, c: Header)
    returns (steps: seq<Step>, run: seq<Machine>, loaded: State)
    requires Fork(net, genesis, b1, b2, c)
    ensures |steps| == 3 && IsSafeRun(net, genesis, steps, run)
    ensures |run[2].state.byHeight| == 3 && |run[3].state.byHeight| == 2 && |run[3].records| == 3
    ensures LoadFiles(net, run[3].files, run[3].entries) == Some(loaded) && loaded.byHeight != run[3].state.byHeight
  {
    steps, run := ForkRun(net, genesis, b1, b2, c);
    loaded := FallenTip(net, genesis, steps, run);
  }

  lemma FallenTip(net: Net, genesis: Header, steps: seq<Step>, run: seq<Machine>)
    returns (loaded: State)
    requires |steps| == 3 && IsSafeRun(net, genesis, steps, run)
    requires |run[1].state.byHeight| == 2 && |run[2].state.byHeight| == 3 && |run[3].state.byHeight| == 2
    ensures |run[3].records| == 3
    ensures LoadFiles(net, run[3].files, run[3].entries) == Some(loaded) && loaded.byHeight != run[3].state.byHeight
  {
    StartAlone(net, genesis);
    HighestIsThree(run);
    SafeRunIsSound(net, genesis, steps, run, 3);
    loaded := EveryRunReloads(net, genesis, steps, run, 3);
  }

  lemma HighestIsThree(run: seq<Machine>)
    requires |run| == 4 && |run[0].state.byHeight| == 1 && |run[1].state.byHeight| == 2
    requires |run[2].state.byHeight| == 3 && |run[3].state.byHeight| == 2
    ensures Highest(run, 3) == 3
  {
    assert Highest(run, 1) == 2;
  }

  lemma SyncToGenesis(net: Net, genesis: Header, m: Machine, c: Header)
    returns (step: Step, after: Machine)
    requires Sound(net, genesis, m) && c.prevHash == net.hashOf(genesis) && net.hashOf(c) !in m.state.byHeight
    ensures Takes(net, genesis, m, step, after)
    ensures after.state.byHeight == [net.hashOf(genesis), net.hashOf(c)]
  {
    var g := Entries(m.state)[0];
    assert g == Genesis(net, genesis) && m.state.byHeight[0] == g.hash;
    step := Synced([c], g);
    var branch := Number(net, g, Reverse([c]));
    WalkExtendsIff(net, genesis, m.state, [c], g, branch);
    ExtendsGrows(net, m.state, branch);
    SetTipByHeight(m.state, branch);
    after := Imported(m, branch);
    assert m.state.byHeight[..1] == [g.hash];
  }
}
