/**
 What the header files hold after any run, and what loading them gives back.
 */
module Persistence {
  import opened Base
  import opened BlockHeaders
  import opened Chain
  import opened ChainSteps
  import opened HeaderFiles

  /** The 80 bytes of one header. */
  type Record = r: seq<byte> | |r| == HEADER_SIZE witness Zeros(HEADER_SIZE)

  // ----- One file as a list of records

  function Concat(rs: seq<Record>): (bytes: seq<byte>)
    ensures |bytes| == HEADER_SIZE * |rs|
  {
    if rs == [] then [] else Concat(rs[..|rs| - 1]) + rs[|rs| - 1]
  }

  lemma {:induction false} ConcatAppend(a: seq<Record>, b: seq<Record>)
    ensures Concat(a + b) == Concat(a) + Concat(b)
    decreases |b|
  {
    if b == [] {
      assert a + b == a;
    } else {
      var b', last := b[..|b| - 1], b[|b| - 1];
      ConcatAppend(a, b');
      assert (a + b)[..|a + b| - 1] == a + b' && (a + b)[|a + b| - 1] == last;
      assert Concat(a) + (Concat(b') + last) == (Concat(a) + Concat(b')) + last;
    }
  }

  lemma {:induction false} ConcatAt(rs: seq<Record>, i: nat)
    requires i < |rs|
    ensures Concat(rs) == Concat(rs[..i]) + rs[i] + Concat(rs[i + 1..])
  {
    assert rs == rs[..i + 1] + rs[i + 1..];
    ConcatAppend(rs[..i + 1], rs[i + 1..]);
    assert rs[..i + 1][..i] == rs[..i];
  }

  /** The list with the record at position i set, or appended when i is its length. */
  function Update(rs: seq<Record>, i: nat, r: Record): (after: seq<Record>)
    requires i <= |rs|
    ensures |after| == if i < |rs| then |rs| else |rs| + 1
  {
    if i < |rs| then rs[i := r] else rs + [r]
  }

  /** Writing a record in place, or right at the end, updates the list. */
  lemma {:induction false} WriteRecord(rs: seq<Record>, i: nat, r: Record)
    requires i <= |rs|
    ensures WriteAt(Concat(rs), i * HEADER_SIZE, r) == Concat(Update(rs, i, r))
  {
    if i < |rs| {
      var after := rs[i := r];
      ConcatAt(rs, i);
      ConcatAt(after, i);
      assert after[..i] == rs[..i] && after[i + 1..] == rs[i + 1..];
      WriteBetween(Concat(rs), Concat(rs[..i]), rs[i], Concat(rs[i + 1..]), r, i * HEADER_SIZE);
    } else {
      assert (rs + [r])[..|rs|] == rs;
      WriteBetween(Concat(rs), Concat(rs), [], [], r, i * HEADER_SIZE);
    }
  }

  lemma WriteBetween(whole: seq<byte>, a: seq<byte>, b: seq<byte>, c: seq<byte>, r: seq<byte>, pos: nat)
    requires whole == a + b + c && pos == |a| && (|r| == |b| || b == c == [])
    ensures WriteAt(whole, pos, r) == a + r + c
  {
  }

  // ----- All files

  function Min(a: nat, b: nat): nat {
    if a < b then a else b
  }

  function Cut(rs: seq<Record>, lo: nat, hi: nat): seq<Record>
    requires lo <= hi
  {
    rs[Min(lo, |rs|)..Min(hi, |rs|)]
  }

  lemma CutOutside(rs: seq<Record>, lo: nat, hi: nat, i: nat, r: Record)
    requires lo <= hi && i <= |rs| && (i < lo || i >= hi)
    ensures Cut(Update(rs, i, r), lo, hi) == Cut(rs, lo, hi)
  {
    var was, now := Cut(rs, lo, hi), Cut(Update(rs, i, r), lo, hi);
    assert |was| == |now|;
    forall k | 0 <= k < |was|
      ensures was[k] == now[k]
    {
      assert was[k] == rs[Min(lo, |rs|) + k];
    }
  }

  lemma CutInside(rs: seq<Record>, lo: nat, hi: nat, i: nat, r: Record)
    requires lo <= i < hi && i <= |rs|
    ensures i - lo <= |Cut(rs, lo, hi)| && Cut(Update(rs, i, r), lo, hi) == Update(Cut(rs, lo, hi), i - lo, r)
  {
    var was, now := Cut(rs, lo, hi), Cut(Update(rs, i, r), lo, hi);
    assert |now| == |Update(was, i - lo, r)|;
    forall k | 0 <= k < |now|
      ensures now[k] == Update(was, i - lo, r)[k]
    {
      assert now[k] == Update(rs, i, r)[lo + k];
    }
  }

  lemma {:induction false} CutUpdated(rs: seq<Record>, lo: nat, hi: nat, i: nat, r: Record)
    requires lo <= hi && i <= |rs|
    ensures i < lo || i >= hi ==> Cut(Update(rs, i, r), lo, hi) == Cut(rs, lo, hi)
    ensures lo <= i < hi ==> i - lo <= |Cut(rs, lo, hi)| &&
                             Cut(Update(rs, i, r), lo, hi) == Update(Cut(rs, lo, hi), i - lo, r)
  {
    if lo <= i < hi {
      CutInside(rs, lo, hi, i, r);
    } else {
      CutOutside(rs, lo, hi, i, r);
    }
  }

  /** f * 100000. */
  function FirstHeight(f: nat): nat {
    if f == 0 then 0 else FirstHeight(f - 1) + HEADERS_PER_FILE
  }

  lemma {:induction false} FirstHeightIsProduct(f: nat)
    ensures FirstHeight(f) == f * HEADERS_PER_FILE
  {
    if f > 0 {
      FirstHeightIsProduct(f - 1);
    }
  }

  lemma PlaceInFile(height: nat)
    ensures height == FirstHeight(height / HEADERS_PER_FILE) + height % HEADERS_PER_FILE
  {
    FirstHeightIsProduct(height / HEADERS_PER_FILE);
  }

  lemma {:induction false} FirstHeightMonotone(f: nat, g: nat)
    requires f < g
    ensures FirstHeight(f) + HEADERS_PER_FILE <= FirstHeight(g)
    decreases g
  {
    if f < g - 1 {
      FirstHeightMonotone(f, g - 1);
    }
  }

  /** The part of the list that belongs in file f. */
  function Slice(rs: seq<Record>, f: nat): seq<Record> {
    Cut(rs, FirstHeight(f), FirstHeight(f) + HEADERS_PER_FILE)
  }

  ghost predicate FileHolds(files: Files, rs: seq<Record>, f: nat) {
    && (f in files <==> FirstHeight(f) < |rs|)
    && Content(files, f) == Concat(Slice(rs, f))
  }

  /** The files hold exactly these records, by height. */
  ghost predicate Holds(files: Files, rs: seq<Record>) {
    forall f: nat :: FileHolds(files, rs, f)
  }

  lemma {:induction false} HoldsPut(files: Files, rs: seq<Record>, g: nat, i: nat, height: nat, r: Record)
    requires Holds(files, rs) && height <= |rs| && i < HEADERS_PER_FILE && height == FirstHeight(g) + i
    ensures Holds(files[g := WriteAt(Content(files, g), i * HEADER_SIZE, r)], Update(rs, height, r))
  {
    assert FileHolds(files, rs, g);
    PutContent(rs, FirstHeight(g), i, r);
    HoldsReplaced(files, rs, height, r, g, WriteAt(Content(files, g), i * HEADER_SIZE, r));
  }

  lemma {:induction false} PutContent(rs: seq<Record>, lo: nat, i: nat, r: Record)
    requires lo + i <= |rs| && i < HEADERS_PER_FILE
    ensures WriteAt(Concat(Cut(rs, lo, lo + HEADERS_PER_FILE)), i * HEADER_SIZE, r) ==
            Concat(Cut(Update(rs, lo + i, r), lo, lo + HEADERS_PER_FILE))
  {
    CutUpdated(rs, lo, lo + HEADERS_PER_FILE, lo + i, r);
    WriteRecord(Cut(rs, lo, lo + HEADERS_PER_FILE), i, r);
  }

  lemma {:induction false} HoldsWrite(files: Files, rs: seq<Record>, b: BlockHeader)
    requires Holds(files, rs) && b.height <= |rs|
    ensures Holds(files[FileIndex(b) := WriteHeader(Content(files, FileIndex(b)), b)],
                  Update(rs, b.height, Bytes(b.header)))
  {
    PlaceInFile(b.height);
    HoldsPut(files, rs, FileIndex(b), b.height % HEADERS_PER_FILE, b.height, Bytes(b.header));
  }

  lemma {:induction false} HoldsReplaced(files: Files, rs: seq<Record>, height: nat, r: Record, g: nat,
                                         content: seq<byte>)
    requires Holds(files, rs) && height <= |rs| && FirstHeight(g) <= height < FirstHeight(g) + HEADERS_PER_FILE
    requires content == Concat(Slice(Update(rs, height, r), g))
    ensures Holds(files[g := content], Update(rs, height, r))
  {
    var after, rs' := files[g := content], Update(rs, height, r);
    forall f: nat
      ensures FileHolds(after, rs', f)
    {
      assert FileHolds(files, rs, f);
      CutUpdated(rs, FirstHeight(f), FirstHeight(f) + HEADERS_PER_FILE, height, r);
      FilesApart(f, g, height);
    }
  }

  lemma {:induction false} FilesApart(f: nat, g: nat, height: nat)
    requires FirstHeight(g) <= height < FirstHeight(g) + HEADERS_PER_FILE
    ensures f != g ==> height < FirstHeight(f) || height >= FirstHeight(f) + HEADERS_PER_FILE
    ensures FirstHeight(f) < height + 1 <==> f <= g
    ensures FirstHeight(f) < height ==> f <= g
  {
    if f < g {
      FirstHeightMonotone(f, g);
    } else if g < f {
      FirstHeightMonotone(g, f);
    }
  }

  // ----- Writing a branch

  function HeadersOf(branch: seq<BlockHeader>): (hs: seq<Header>)
    ensures |hs| == |branch|
  {
    seq(|branch|, i requires 0 <= i < |branch| => branch[i].header)
  }

  function RecordsOf(hs: seq<Header>): (rs: seq<Record>)
    ensures |rs| == |hs|
  {
    seq(|hs|, i requires 0 <= i < |hs| => Bytes(hs[i]))
  }

  /** Overwriting from a height on; records past the branch stay. */
  function Overlay(rs: seq<Record>, start: nat, news: seq<Record>): (after: seq<Record>)
    requires start <= |rs|
    ensures |after| == if start + |news| < |rs| then |rs| else start + |news|
  {
    rs[..start] + news + rs[Min(start + |news|, |rs|)..]
  }

  lemma {:induction false} OverlayStep(rs: seq<Record>, start: nat, news: seq<Record>, r: Record)
    requires start <= |rs|
    ensures Update(Overlay(rs, start, news), start + |news|, r) == Overlay(rs, start, news + [r])
  {
  }

  /** After writing a branch the files hold the overlaid list. */
  lemma {:induction false} HoldsBranch(files: Files, rs: seq<Record>, branch: seq<BlockHeader>, start: nat,
                                       news: seq<Record>)
    requires Holds(files, rs) && start <= |rs| && |news| == |branch|
    requires forall i :: 0 <= i < |branch| ==> branch[i].height == start + i && news[i] == Bytes(branch[i].header)
    ensures Holds(WriteAll(files, branch), Overlay(rs, start, news))
    decreases |branch|
  {
    if branch == [] {
      assert Overlay(rs, start, news) == rs;
    } else {
      var n := |branch| - 1;
      var before, rs' := WriteAll(files, branch[..n]), Overlay(rs, start, news[..n]);
      HoldsBranch(files, rs, branch[..n], start, news[..n]);
      HoldsWrite(before, rs', branch[n]);
      OverlayStep(rs, start, news[..n], news[n]);
      assert news == news[..n] + [news[n]];
    }
  }

  // ----- The disk next to the memory

  /** The number of files in the metadata after a tip change. */
  function MetadataEntries(entries: nat, tip: BlockHeader): nat {
    if entries <= FileIndex(tip) then FileIndex(tip) + 1 else entries
  }

  /** The metadata lists exactly the files that hold n headers. */
  ghost predicate Covers(entries: nat, n: nat) {
    n <= FirstHeight(entries) && (entries > 0 ==> FirstHeight(entries - 1) < n)
  }

  /** The files hold the main chain, and possibly older records above the tip. */
  ghost predicate DiskHolds(files: Files, entries: nat, rs: seq<Record>, s: State) {
    && Holds(files, rs)
    && Covers(entries, |rs|)
    && Recorded(s)
    && |s.byHeight| <= |rs|
    && forall i :: 0 <= i < |s.byHeight| ==> rs[i] == Bytes(Entries(s)[i].header)
  }

  lemma {:induction false} CoversAfter(entries: nat, n: nat, tip: BlockHeader, n': nat)
    requires Covers(entries, n) && n' == if tip.height < n then n else tip.height + 1
    ensures Covers(MetadataEntries(entries, tip), n')
  {
    var f := FileIndex(tip);
    PlaceInFile(tip.height);
    if f < entries - 1 {
      FirstHeightMonotone(f, entries - 1);
    } else if f == entries {
    } else if entries < f {
      FirstHeightMonotone(entries, f);
    }
  }

  lemma {:induction false} SetTipKeepsDisk(files: Files, entries: nat, rs: seq<Record>, s: State,
                                           branch: seq<BlockHeader>, after: State, news: seq<Record>)
    requires DiskHolds(files, entries, rs, s) && Indexed(s) && Grows(s, branch) && after == SetTip(s, branch)
    requires |news| == |branch| && forall i :: 0 <= i < |branch| ==> news[i] == Bytes(branch[i].header)
    ensures DiskHolds(WriteAll(files, branch), MetadataEntries(entries, branch[|branch| - 1]),
                      Overlay(rs, branch[0].height, news), after)
  {
    var start := branch[0].height;
    HoldsBranch(files, rs, branch, start, news);
    CoversAfter(entries, |rs|, branch[|branch| - 1], |Overlay(rs, start, news)|);
    SetTipByHeight(s, branch);
    NewEntries(s, branch, after);
    MainRecords(rs, s, branch, after, news);
  }

  lemma {:induction false} MainRecords(rs: seq<Record>, s: State, branch: seq<BlockHeader>, after: State,
                                       news: seq<Record>)
    requires Recorded(s) && Recorded(after) && |branch| > 0 && branch[0].height <= |s.byHeight| <= |rs|
    requires forall i :: 0 <= i < |s.byHeight| ==> rs[i] == Bytes(Entries(s)[i].header)
    requires |news| == |branch| && forall i :: 0 <= i < |branch| ==> news[i] == Bytes(branch[i].header)
    requires Entries(after) == Entries(s)[..branch[0].height] + branch
    ensures forall i :: 0 <= i < |after.byHeight| ==>
      i < |Overlay(rs, branch[0].height, news)| &&
      Overlay(rs, branch[0].height, news)[i] == Bytes(Entries(after)[i].header)
  {
    var start, all := branch[0].height, Overlay(rs, branch[0].height, news);
    assert |Entries(after)| == start + |branch| <= |all|;
    forall i | 0 <= i < |after.byHeight|
      ensures i < |all| && all[i] == Bytes(Entries(after)[i].header)
    {
      if i < start {
        assert Entries(after)[i] == Entries(s)[i] && all[i] == rs[i];
      } else {
        assert Entries(after)[i] == branch[i - start] && all[i] == news[i - start];
      }
    }
  }
}
