/**
 Restoring the chain from the header files: parsing, renumbering, and how the result compares
 with the memory that wrote them.
 */
module Reload {
  import opened Base
  import opened BlockHeaders
  import opened ChainWork
  import opened Chain
  import opened ChainSteps
  import opened HeaderFiles
  import opened Persistence

  // ----- Parsing a file

  function HeaderAt(data: seq<byte>, i: nat): Header
    requires HEADER_SIZE * i + HEADER_SIZE <= |data|
  {
    NewHeaderFromBytes(data[HEADER_SIZE * i..HEADER_SIZE * i + HEADER_SIZE]).value
  }

  /** The first n headers of a file. */
  function Parse(data: seq<byte>, n: nat): (hs: seq<Header>)
    requires HEADER_SIZE * n <= |data|
    ensures |hs| == n
  {
    if n == 0 then [] else Parse(data, n - 1) + [HeaderAt(data, n - 1)]
  }

  lemma {:induction false} ParseConcat(hs: seq<Header>, rs: seq<Record>, n: nat)
    requires |rs| == |hs| && n <= |hs| && forall i :: 0 <= i < |hs| ==> rs[i] == Bytes(hs[i])
    ensures Parse(Concat(rs), n) == hs[..n]
    decreases n
  {
    if n > 0 {
      ParseConcat(hs, rs, n - 1);
      RecordAt(rs, n - 1);
      HeaderRoundTrip(hs[n - 1]);
      assert hs[..n] == hs[..n - 1] + [hs[n - 1]];
    }
  }

  lemma {:induction false} RecordAt(rs: seq<Record>, i: nat)
    requires i < |rs|
    ensures Concat(rs)[HEADER_SIZE * i..HEADER_SIZE * i + HEADER_SIZE] == rs[i]
  {
    ConcatAt(rs, i);
    Middle(Concat(rs[..i]), rs[i], Concat(rs[i + 1..]));
  }

  lemma {:induction false} SliceAt(rs: seq<Record>, h: nat)
    requires h < |rs|
    ensures FirstHeight(h / 100_000) < |rs| && h % 100_000 < |Slice(rs, h / 100_000)|
    ensures Slice(rs, h / 100_000)[h % 100_000] == rs[h]
  {
    PlaceInFile(h);
  }

  /** The main-chain header of height h is in file h / 100000, 80 bytes from 80 * (h % 100000) on. */
  lemma {:induction false} HeaderOnDisk(files: Files, entries: nat, rs: seq<Record>, s: State, h: nat)
    requires DiskHolds(files, entries, rs, s) && h < |s.byHeight|
    ensures var f, at := h / 100_000, 80 * (h % 100_000);
            f in files && at + 80 <= |files[f]| && files[f][at..at + 80] == Bytes(Entries(s)[h].header)
  {
    SliceAt(rs, h);
    assert FileHolds(files, rs, h / 100_000);
    RecordAt(Slice(rs, h / 100_000), h % 100_000);
  }

  lemma Middle(a: seq<byte>, b: seq<byte>, c: seq<byte>)
    ensures (a + b + c)[|a|..|a| + |b|] == b
  {
  }

  /** How many headers a file of this size holds; None when bytes are left over. */
  function Count(size: nat): (n: Option<nat>)
    ensures n.Some? ==> HEADER_SIZE * n.value == size
  {
    if size == 0 then Some(0)
    else if size < HEADER_SIZE then None
    else if Count(size - HEADER_SIZE).None? then None
    else Some(Count(size - HEADER_SIZE).value + 1)
  }

  lemma {:induction false} CountIsQuotient(size: nat)
    ensures Count(size) == if size % HEADER_SIZE != 0 then None else Some(size / HEADER_SIZE)
  {
    if size >= HEADER_SIZE {
      CountIsQuotient(size - HEADER_SIZE);
    }
  }

  lemma {:induction false} CountOf(n: nat)
    ensures Count(HEADER_SIZE * n) == Some(n)
  {
    if n > 0 {
      CountOf(n - 1);
    }
  }

  function ParseFile(data: seq<byte>): Option<seq<Header>> {
    if Count(|data|).None? then None else Some(Parse(data, Count(|data|).value))
  }

  /** Reads the headers one after the other; fails exactly when bytes are left over. */
  method LoadHeadersFromFile(data: seq<byte>) returns (headers: Option<seq<Header>>)
    ensures headers == ParseFile(data)
    ensures headers.None? <==> |data| % HEADER_SIZE != 0
  {
    CountIsQuotient(|data|);
    if |data| % HEADER_SIZE != 0 {
      return None;
    }
    var hs: seq<Header> := [];
    for i := 0 to |data| / HEADER_SIZE
      invariant hs == Parse(data, i)
    {
      var header := NewHeaderFromBytes(data[i * HEADER_SIZE..(i + 1) * HEADER_SIZE]);
      hs := hs + [header.value];
    }
    return Some(hs);
  }

  // ----- Renumbering

  /** Heights and cumulative work of a list of headers that starts at genesis. */
  function ChainOf(net: Net, hs: seq<Header>): (main: seq<BlockHeader>)
    ensures |main| == |hs|
    ensures forall i :: 0 <= i < |hs| ==> main[i].height == i
  {
    if hs == [] then []
    else
      var init := ChainOf(net, hs[..|hs| - 1]);
      init + [NextInChain(net, init, hs[|hs| - 1])]
  }

  function NextInChain(net: Net, init: seq<BlockHeader>, h: Header): BlockHeader {
    if init == [] then Genesis(net, h)
    else NewBlock(net, init[|init| - 1], h, init[|init| - 1].height + 1)
  }

  lemma {:induction false} ChainPrefix(net: Net, hs: seq<Header>, n: nat)
    requires n <= |hs|
    ensures ChainOf(net, hs)[..n] == ChainOf(net, hs[..n])
    decreases |hs|
  {
    if n == |hs| {
      assert hs[..n] == hs;
    } else {
      ChainPrefix(net, hs[..|hs| - 1], n);
      assert hs[..|hs| - 1][..n] == hs[..n];
    }
  }

  /** Block n is the record of header n on top of block n-1. */
  predicate FollowsAt(net: Net, hs: seq<Header>, main: seq<BlockHeader>, n: nat)
    requires 0 < n < |hs| && |main| == |hs|
  {
    main[n] == NewBlock(net, main[n - 1], hs[n], main[n - 1].height + 1)
  }

  lemma {:induction false} ChainStep(net: Net, hs: seq<Header>, n: nat)
    requires 0 < n < |hs|
    ensures FollowsAt(net, hs, ChainOf(net, hs), n)
  {
    var main := ChainOf(net, hs);
    ChainPrefix(net, hs, n + 1);
    ChainPrefix(net, hs, n);
    assert hs[..n + 1][..n] == hs[..n];
    assert main[n] == main[..n + 1][n] && main[n - 1] == main[..n][n - 1];
  }

  /** Block i of a numbering is the record of header i on top of the block before it. */
  lemma {:induction false} NumberAt(net: Net, p: BlockHeader, hs: seq<Header>, i: nat, q: BlockHeader)
    requires i < |hs| && q == if i == 0 then p else Number(net, p, hs)[i - 1]
    ensures Number(net, p, hs)[i] == NewBlock(net, q, hs[i], q.height + 1)
    decreases |hs|
  {
    if i < |hs| - 1 {
      NumberAt(net, p, hs[..|hs| - 1], i, q);
    }
  }

  /** Numbering on from a block of the chain continues the chain. */
  lemma {:induction false} NumberContinues(net: Net, hs: seq<Header>, main: seq<BlockHeader>, lo: nat, hi: nat, i: nat)
    requires 0 < lo <= lo + i < hi <= |hs| == |main|
    requires forall n :: 0 < n < |hs| ==> FollowsAt(net, hs, main, n)
    ensures Number(net, main[lo - 1], hs[lo..hi])[i] == main[lo + i]
    decreases i
  {
    if i > 0 {
      NumberContinues(net, hs, main, lo, hi, i - 1);
    }
    NumberAt(net, main[lo - 1], hs[lo..hi], i, main[lo + i - 1]);
    assert FollowsAt(net, hs, main, lo + i);
  }

  /** A main chain is determined by its headers. */
  lemma {:induction false} MainIsChainOf(net: Net, genesis: Header, main: seq<BlockHeader>)
    requires IsMain(net, genesis, main)
    ensures main == ChainOf(net, HeadersOf(main))
    decreases |main|
  {
    var n := |main| - 1;
    assert HeadersOf(main)[..n] == HeadersOf(main[..n]);
    if n > 0 {
      MainIsChainOf(net, genesis, main[..n]);
      assert IsChild(net, main[n - 1], main[n]);
    }
    assert main == main[..n] + [main[n]];
  }

  // ----- Loading file by file

  /** The record of the block below the first one of file f, if there has to be one. */
  function Below(s: State, f: nat): Option<BlockHeader>
  {
    if f == 0 || FirstHeight(f) > |s.byHeight| then None
    else if s.byHeight[FirstHeight(f) - 1] in s.byHash then Some(s.byHash[s.byHeight[FirstHeight(f) - 1]])
    else None
  }

  /** File 0 starts the chain; a later file goes on from the last block below it. */
  function Blocks(net: Net, below: Option<BlockHeader>, hs: seq<Header>): seq<BlockHeader> {
    if below.Some? then Number(net, below.value, hs) else ChainOf(net, hs)
  }

  /** One more file; None when it is missing or malformed, or the block below it is not known. */
  function LoadFile(net: Net, s: State, files: Files, f: nat): Option<State> {
    if f !in files || ParseFile(files[f]).None? || (f > 0 && Below(s, f).None?) then None
    else Some(SetTip(s, Blocks(net, Below(s, f), ParseFile(files[f]).value)))
  }

  /** The state after loading the first n files into an empty manager. */
  function LoadFiles(net: Net, files: Files, n: nat): Option<State> {
    if n == 0 then Some(EMPTY)
    else if LoadFiles(net, files, n - 1).None? then None
    else LoadFile(net, LoadFiles(net, files, n - 1).value, files, n - 1)
  }

  ghost predicate NotOrphan(s: State, k: Hash) {
    k in s.byHash ==> k in s.byHeight
  }

  /** Loading has rebuilt the first n blocks of the chain, and recorded nothing else. */
  ghost predicate Rebuilt(s: State, main: seq<BlockHeader>, n: nat)
    requires n <= |main|
  {
    && Indexed(s)
    && s.byHeight == HashesOf(main[..n])
    && Entries(s) == main[..n]
    && (forall k: Hash :: NotOrphan(s, k))
    && (n > 0 ==> s.tip == Some(main[n - 1]))
  }

  /** Loading has filed the first n blocks by height and made the last of them the tip, whatever
      hashes they repeat. */
  ghost predicate Loaded(s: State, main: seq<BlockHeader>, n: nat)
    requires n <= |main|
  {
    && s.byHeight == HashesOf(main[..n])
    && (n > 0 ==>
          && s.tip == Some(main[n - 1])
          && main[n - 1].hash in s.byHash
          && s.byHash[main[n - 1].hash] == main[n - 1])
  }

  lemma LastIsRecorded(s: State, branch: seq<BlockHeader>, after: State, b: BlockHeader)
    requires |branch| > 0 && after == SetTip(s, branch) && b == branch[|branch| - 1]
    requires AtOwnHeight(after.byHeight, b.hash, b)
    ensures after.tip == Some(b) && b.hash in after.byHash && after.byHash[b.hash] == b
  {
  }

  lemma {:induction false} LoadStep(s: State, main: seq<BlockHeader>, lo: nat, hi: nat, branch: seq<BlockHeader>,
                                    after: State)
    requires lo < hi <= |main| && Loaded(s, main, lo) && forall i :: 0 <= i < |main| ==> main[i].height == i
    requires branch == main[lo..hi] && after == SetTip(s, branch)
    ensures Loaded(after, main, hi)
  {
    PlaceConsecutive(s.byHeight, branch, lo);
    Spliced(main, lo, hi);
    assert s.byHeight[..lo] == s.byHeight;
    assert after.byHeight == HashesOf(main[..hi]);
    assert after.byHeight[hi - 1] == main[hi - 1].hash;
    LastIsRecorded(s, branch, after, main[hi - 1]);
  }

  lemma {:induction false} RebuildStep(s: State, main: seq<BlockHeader>, lo: nat, hi: nat, branch: seq<BlockHeader>,
                                       after: State)
    requires lo < hi <= |main| && Rebuilt(s, main, lo) && Distinct(main)
    requires forall i :: 0 <= i < |main| ==> main[i].height == i
    requires branch == main[lo..hi] && after == SetTip(s, branch)
    ensures Rebuilt(after, main, hi)
  {
    SliceGrows(s, main, lo, hi, branch);
    SetTipByHeight(s, branch);
    NewEntries(s, branch, after);
    assert s.byHeight[..lo] == s.byHeight && Entries(s)[..lo] == Entries(s);
    NothingElse(s, branch, after);
    RebuiltFrom(s, main, lo, hi, after);
  }

  lemma SliceGrows(s: State, main: seq<BlockHeader>, lo: nat, hi: nat, branch: seq<BlockHeader>)
    requires lo < hi <= |main| && Distinct(main) && s.byHeight == HashesOf(main[..lo])
    requires forall i :: 0 <= i < |main| ==> main[i].height == i
    requires branch == main[lo..hi]
    ensures Grows(s, branch)
  {
  }

  lemma RebuiltFrom(s: State, main: seq<BlockHeader>, lo: nat, hi: nat, after: State)
    requires lo < hi <= |main| && Rebuilt(s, main, lo) && Recorded(after)
    requires forall i :: 0 <= i < |main| ==> main[i].height == i
    requires after.byHeight == s.byHeight + HashesOf(main[lo..hi])
    requires Entries(after) == Entries(s) + main[lo..hi] && after.tip == Some(main[hi - 1])
    requires forall k: Hash :: NotOrphan(after, k)
    ensures Rebuilt(after, main, hi)
  {
    Spliced(main, lo, hi);
  }

  lemma Spliced(main: seq<BlockHeader>, lo: nat, hi: nat)
    requires lo < hi <= |main|
    ensures main[..hi] == main[..lo] + main[lo..hi]
    ensures HashesOf(main[..hi]) == HashesOf(main[..lo]) + HashesOf(main[lo..hi])
  {
  }

  lemma NothingElse(s: State, branch: seq<BlockHeader>, after: State)
    requires |branch| > 0 && Distinct(branch) && after == SetTip(s, branch)
    requires after.byHeight == s.byHeight + HashesOf(branch)
    requires forall k: Hash :: NotOrphan(s, k)
    ensures forall k: Hash :: NotOrphan(after, k)
  {
    forall k: Hash
      ensures NotOrphan(after, k)
    {
      assert NotOrphan(s, k);
      SetTipLookup(s, branch, after, k);
    }
  }

  lemma SliceContent(files: Files, rs: seq<Record>, f: nat, lo: nat, hi: nat)
    requires FileHolds(files, rs, f) && f in files && lo == FirstHeight(f) && hi == Min(lo + HEADERS_PER_FILE, |rs|)
    ensures lo < hi && files[f] == Concat(rs[lo..hi])
  {
    assert Slice(rs, f) == rs[lo..hi];
  }

  lemma ParseSlice(hs: seq<Header>, rs: seq<Record>)
    requires |rs| == |hs| && forall i :: 0 <= i < |hs| ==> rs[i] == Bytes(hs[i])
    ensures ParseFile(Concat(rs)) == Some(hs)
  {
    ParseConcat(hs, rs, |hs|);
    CountOf(|hs|);
    assert hs[..|hs|] == hs;
  }

  lemma {:induction false} SliceParses(files: Files, hs: seq<Header>, rs: seq<Record>, f: nat, lo: nat, hi: nat)
    requires |rs| == |hs| && forall i :: 0 <= i < |hs| ==> rs[i] == Bytes(hs[i])
    requires FileHolds(files, rs, f) && f in files
    requires lo == FirstHeight(f) && hi == Min(lo + HEADERS_PER_FILE, |hs|)
    ensures lo < hi && ParseFile(files[f]) == Some(hs[lo..hi])
  {
    SliceContent(files, rs, f, lo, hi);
    ParseSlice(hs[lo..hi], rs[lo..hi]);
  }

  lemma {:induction false} LoadFileGives(net: Net, s: State, files: Files, hs: seq<Header>, rs: seq<Record>, f: nat,
                                         lo: nat, hi: nat)
    requires |rs| == |hs| && forall i :: 0 <= i < |hs| ==> rs[i] == Bytes(hs[i])
    requires FileHolds(files, rs, f) && f in files
    requires lo == FirstHeight(f) && hi == Min(lo + HEADERS_PER_FILE, |hs|) && Loaded(s, ChainOf(net, hs), lo)
    ensures lo < hi && LoadFile(net, s, files, f) == Some(SetTip(s, ChainOf(net, hs)[lo..hi]))
  {
    SliceParses(files, hs, rs, f, lo, hi);
    BlocksOfFile(net, hs, s, f, lo, hi);
  }

  /** The first n blocks are loaded and, if no hash repeats, they are all that is recorded. */
  ghost predicate LoadedOrRebuilt(s: State, main: seq<BlockHeader>, n: nat)
    requires n <= |main|
  {
    Loaded(s, main, n) && (Distinct(main) ==> Rebuilt(s, main, n))
  }

  lemma {:induction false} LoadFileRebuilds(net: Net, s: State, files: Files, hs: seq<Header>, rs: seq<Record>, f: nat,
                                            lo: nat, hi: nat)
    requires |rs| == |hs| && forall i :: 0 <= i < |hs| ==> rs[i] == Bytes(hs[i])
    requires FileHolds(files, rs, f) && f in files
    requires lo == FirstHeight(f) && hi == Min(lo + HEADERS_PER_FILE, |hs|)
    requires LoadedOrRebuilt(s, ChainOf(net, hs), lo)
    ensures LoadFile(net, s, files, f).Some? && LoadedOrRebuilt(LoadFile(net, s, files, f).value, ChainOf(net, hs), hi)
  {
    LoadFileGives(net, s, files, hs, rs, f, lo, hi);
    AfterFile(s, ChainOf(net, hs), lo, hi, LoadFile(net, s, files, f).value);
  }

  lemma {:induction false} AfterFile(s: State, main: seq<BlockHeader>, lo: nat, hi: nat, after: State)
    requires lo < hi <= |main| && LoadedOrRebuilt(s, main, lo) && forall i :: 0 <= i < |main| ==> main[i].height == i
    requires after == SetTip(s, main[lo..hi])
    ensures LoadedOrRebuilt(after, main, hi)
  {
    LoadStep(s, main, lo, hi, main[lo..hi], after);
    if Distinct(main) {
      RebuildStep(s, main, lo, hi, main[lo..hi], after);
    }
  }

  lemma RebuiltEmpty(main: seq<BlockHeader>)
    ensures Rebuilt(EMPTY, main, 0)
  {
    assert main[..0] == [];
    forall k: Hash
      ensures NotOrphan(EMPTY, k)
    {
    }
  }

  lemma LoadFilesStep(net: Net, files: Files, n: nat, s: State, after: State)
    requires n > 0 && LoadFiles(net, files, n - 1) == Some(s) && LoadFile(net, s, files, n - 1) == Some(after)
    ensures LoadFiles(net, files, n) == Some(after)
  {
  }

  /** The state after n files, when the files hold the given headers, whatever they are. */
  lemma {:induction false} LoadFilesRebuilds(net: Net, files: Files, hs: seq<Header>, rs: seq<Record>, n: nat)
    returns (s: State)
    requires |rs| == |hs| > 0 && forall i :: 0 <= i < |hs| ==> rs[i] == Bytes(hs[i])
    requires Holds(files, rs) && (n > 0 ==> FirstHeight(n - 1) < |hs|)
    ensures LoadFiles(net, files, n) == Some(s)
    ensures LoadedOrRebuilt(s, ChainOf(net, hs), Min(FirstHeight(n), |hs|))
    decreases n
  {
    if n == 0 {
      s := EMPTY;
      RebuiltEmpty(ChainOf(net, hs));
    } else {
      var f := n - 1;
      if f > 0 {
        FirstHeightMonotone(f - 1, f);
      }
      assert FileHolds(files, rs, f);
      var before := LoadFilesRebuilds(net, files, hs, rs, f);
      LoadFileRebuilds(net, before, files, hs, rs, f, FirstHeight(f), Min(FirstHeight(n), |hs|));
      s := LoadFile(net, before, files, f).value;
      LoadFilesStep(net, files, n, before, s);
    }
  }

  lemma {:induction false} BlocksOfFile(net: Net, hs: seq<Header>, s: State, f: nat, lo: nat, hi: nat)
    requires lo == FirstHeight(f) < hi <= |hs| && Loaded(s, ChainOf(net, hs), lo)
    ensures f > 0 ==> Below(s, f).Some? && Below(s, f).value.height + 1 == lo
    ensures Blocks(net, Below(s, f), hs[lo..hi]) == ChainOf(net, hs)[lo..hi]
  {
    var main := ChainOf(net, hs);
    if f == 0 {
      ChainPrefix(net, hs, hi);
      assert hs[0..hi] == hs[..hi] && main[0..hi] == main[..hi];
    } else {
      assert s.byHeight[lo - 1] == main[lo - 1].hash;
      assert Below(s, f) == Some(main[lo - 1]);
      forall n | 0 < n < |hs|
        ensures FollowsAt(net, hs, main, n)
      {
        ChainStep(net, hs, n);
      }
      forall i | 0 <= i < hi - lo
        ensures Number(net, main[lo - 1], hs[lo..hi])[i] == main[lo..hi][i]
      {
        NumberContinues(net, hs, main, lo, hi, i);
      }
    }
  }

  // ----- Persist, then reload

  /** The headers that the records stand for. */
  function Parsed(rs: seq<Record>): (hs: seq<Header>)
    ensures |hs| == |rs|
  {
    seq(|rs|, i requires 0 <= i < |rs| => NewHeaderFromBytes(rs[i]).value)
  }

  lemma ParsedBytes(rs: seq<Record>)
    ensures forall i :: 0 <= i < |rs| ==> rs[i] == Bytes(Parsed(rs)[i])
  {
    forall i | 0 <= i < |rs|
      ensures rs[i] == Bytes(Parsed(rs)[i])
    {
      BytesRoundTrip(rs[i]);
    }
  }

  lemma EntriesDistinct(net: Net, genesis: Header, s: State)
    requires Inv(net, genesis, s)
    ensures Distinct(Entries(s)) && HashesOf(Entries(s)) == s.byHeight
  {
    forall i | 0 <= i < |s.byHeight|
      ensures Entries(s)[i].hash == s.byHeight[i]
    {
    }
    HashesDistinct(net, genesis, s);
  }

  lemma DiskIsMain(net: Net, genesis: Header, files: Files, entries: nat, rs: seq<Record>, s: State)
    requires Inv(net, genesis, s) && DiskHolds(files, entries, rs, s) && |rs| == |s.byHeight|
    ensures ChainOf(net, Parsed(rs)) == Entries(s)
  {
    forall i | 0 <= i < |rs|
      ensures Parsed(rs)[i] == HeadersOf(Entries(s))[i]
    {
      HeaderRoundTrip(Entries(s)[i].header);
    }
    assert Parsed(rs) == HeadersOf(Entries(s));
    MainIsChainOf(net, genesis, Entries(s));
  }

  /** When nothing was ever written above the tip, loading gives back the main chain that the
      memory held: hashes, heights, work and tip. Headers off the main chain are not restored. */
  lemma PersistThenReload(net: Net, genesis: Header, files: Files, entries: nat, rs: seq<Record>, s: State)
    returns (loaded: State)
    requires Inv(net, genesis, s) && DiskHolds(files, entries, rs, s) && |rs| == |s.byHeight|
    ensures LoadFiles(net, files, entries) == Some(loaded)
    ensures loaded.byHeight == s.byHeight && loaded.tip == s.tip
    ensures Recorded(loaded) && Entries(loaded) == Entries(s)
    ensures forall k: Hash :: NotOrphan(loaded, k)
  {
    ParsedBytes(rs);
    DiskIsMain(net, genesis, files, entries, rs, s);
    EntriesDistinct(net, genesis, s);
    loaded := LoadFilesRebuilds(net, files, Parsed(rs), rs, entries);
    assert Entries(s)[..|rs|] == Entries(s);
  }

  /** Records left above the tip come back as part of the main chain. */
  lemma StaleRecordsComeBack(net: Net, genesis: Header, files: Files, entries: nat, rs: seq<Record>, s: State)
    returns (loaded: State)
    requires Inv(net, genesis, s) && DiskHolds(files, entries, rs, s)
    ensures LoadFiles(net, files, entries) == Some(loaded)
    ensures |loaded.byHeight| == |rs|
    ensures loaded.byHeight == s.byHeight <==> |rs| == |s.byHeight|
  {
    ParsedBytes(rs);
    loaded := LoadFilesRebuilds(net, files, Parsed(rs), rs, entries);
    if |rs| == |s.byHeight| {
      DiskIsMain(net, genesis, files, entries, rs, s);
      EntriesDistinct(net, genesis, s);
      assert Entries(s)[..|rs|] == Entries(s);
    }
  }

  // ----- When what is loaded is sound

  lemma {:induction false} ChainHeaders(net: Net, hs: seq<Header>, i: nat)
    requires i < |hs|
    ensures ChainOf(net, hs)[i].header == hs[i] && ChainOf(net, hs)[i].hash == net.hashOf(hs[i])
  {
    if i > 0 {
      ChainStep(net, hs, i);
    } else {
      ChainPrefix(net, hs, 1);
      assert ChainOf(net, hs)[0] == ChainOf(net, hs)[..1][0];
    }
  }

  /** The records are the headers of one chain from genesis, and no hash repeats. */
  ghost predicate Reloadable(net: Net, genesis: Header, rs: seq<Record>) {
    Linked(net, genesis, Parsed(rs)) && Distinct(ChainOf(net, Parsed(rs)))
  }

  lemma LinkedStep(net: Net, hs: seq<Header>, i: nat)
    requires 0 < i < |hs|
    ensures hs[i].prevHash == net.hashOf(hs[i - 1]) <==> IsChild(net, ChainOf(net, hs)[i - 1], ChainOf(net, hs)[i])
  {
    ChainHeaders(net, hs, i - 1);
    ChainStep(net, hs, i);
  }

  /** Numbering headers from genesis gives a main chain if and only if they are linked. */
  lemma ChainOfIsMain(net: Net, genesis: Header, hs: seq<Header>)
    ensures IsMain(net, genesis, ChainOf(net, hs)) <==> Linked(net, genesis, hs)
  {
    var main := ChainOf(net, hs);
    if |hs| > 0 {
      ChainHeaders(net, hs, 0);
      ChainPrefix(net, hs, 1);
      assert main[0] == main[..1][0] == Genesis(net, hs[0]);
      forall i | 0 < i < |hs|
        ensures hs[i].prevHash == net.hashOf(hs[i - 1]) <==> IsChild(net, main[i - 1], main[i])
      {
        LinkedStep(net, hs, i);
      }
    }
  }

  lemma {:induction false} MainOnChain(net: Net, genesis: Header, main: seq<BlockHeader>, i: nat)
    requires IsMain(net, genesis, main) && i < |main|
    ensures OnSomeChain(net, genesis, main[i])
    ensures main[i].hash == net.hashOf(main[i].header)
  {
    if i == 0 {
      GenesisOnChain(net, genesis);
    } else {
      MainOnChain(net, genesis, main, i - 1);
      assert IsChild(net, main[i - 1], main[i]);
      ChildOnChain(net, genesis, main[i - 1], main[i]);
    }
  }

  lemma RebuiltIsSound(net: Net, genesis: Header, s: State, main: seq<BlockHeader>)
    requires IsMain(net, genesis, main) && Rebuilt(s, main, |main|)
    ensures Inv(net, genesis, s)
  {
    assert main[..|main|] == main;
    forall k | k in s.byHash
      ensures s.byHash[k].hash == k && OnSomeChain(net, genesis, s.byHash[k])
    {
      assert NotOrphan(s, k);
      var i :| 0 <= i < |s.byHeight| && s.byHeight[i] == k;
      assert s.byHash[k] == Entries(s)[i] == main[i];
      MainOnChain(net, genesis, main, i);
    }
  }

  lemma LoadedDistinct(net: Net, genesis: Header, s: State, main: seq<BlockHeader>)
    requires Inv(net, genesis, s) && Loaded(s, main, |main|)
    ensures Distinct(main)
  {
    assert main[..|main|] == main;
    HashesDistinct(net, genesis, s);
    forall i, j | 0 <= i < j < |main|
      ensures main[i].hash != main[j].hash
    {
      assert s.byHeight[i] == main[i].hash && s.byHeight[j] == main[j].hash;
    }
  }

  lemma LoadedSoundIff(net: Net, genesis: Header, rs: seq<Record>, s: State)
    requires |rs| > 0 && LoadedOrRebuilt(s, ChainOf(net, Parsed(rs)), |rs|)
    ensures Inv(net, genesis, s) <==> Reloadable(net, genesis, rs)
  {
    var main := ChainOf(net, Parsed(rs));
    ChainOfIsMain(net, genesis, Parsed(rs));
    assert main[..|main|] == main;
    if Inv(net, genesis, s) {
      LoadedDistinct(net, genesis, s, main);
    } else if Reloadable(net, genesis, rs) {
      RebuiltIsSound(net, genesis, s, main);
    }
  }

  /** What is loaded satisfies the invariant if and only if the records on disk are one linked
      chain from genesis without a repeated hash. */
  lemma LoadedIsSoundIff(net: Net, genesis: Header, files: Files, entries: nat, rs: seq<Record>) returns (loaded: State)
    requires Holds(files, rs) && Covers(entries, |rs|) && |rs| > 0
    ensures LoadFiles(net, files, entries) == Some(loaded)
    ensures LoadedOrRebuilt(loaded, ChainOf(net, Parsed(rs)), |rs|)
    ensures Inv(net, genesis, loaded) <==> Reloadable(net, genesis, rs)
  {
    ParsedBytes(rs);
    loaded := LoadFilesRebuilds(net, files, Parsed(rs), rs, entries);
    LoadedSoundIff(net, genesis, rs, loaded);
  }

  /** With nothing above the tip the records of a sound state are always such a chain. */
  lemma UpToDateIsReloadable(net: Net, genesis: Header, files: Files, entries: nat, rs: seq<Record>, s: State)
    requires Inv(net, genesis, s) && DiskHolds(files, entries, rs, s) && |rs| == |s.byHeight|
    ensures Reloadable(net, genesis, rs)
  {
    DiskIsMain(net, genesis, files, entries, rs, s);
    EntriesDistinct(net, genesis, s);
    ChainOfIsMain(net, genesis, Parsed(rs));
  }
}
