/**
 The header files: 100000 headers of 80 bytes per file, written in place at the position of
 their height and never truncated.
 */
module HeaderFiles {
  import opened Base
  import opened BlockHeaders
  import opened Chain

  const HEADERS_PER_FILE := 100000

  /** File number to file content. */
  type Files = map<nat, seq<byte>>

  function Content(files: Files, f: nat): seq<byte> {
    if f in files then files[f] else []
  }

  /** Seek and write: a gap before the position reads as zeros, bytes after the end stay. */
  function WriteAt(file: seq<byte>, pos: nat, bytes: seq<byte>): seq<byte> {
    if pos > |file| then file + Zeros(pos - |file|) + bytes
    else if pos + |bytes| < |file| then file[..pos] + bytes + file[pos + |bytes|..]
    else file[..pos] + bytes
  }

  function WriteHeader(file: seq<byte>, b: BlockHeader): seq<byte> {
    WriteAt(file, (b.height % HEADERS_PER_FILE) * HEADER_SIZE, Bytes(b.header))
  }

  function FileIndex(b: BlockHeader): nat {
    b.height / HEADERS_PER_FILE
  }

  /** The headers written one after the other, each to the file of its height. */
  function WriteAll(files: Files, branch: seq<BlockHeader>): Files {
    if branch == [] then files
    else
      var before := WriteAll(files, branch[..|branch| - 1]);
      var b := branch[|branch| - 1];
      before[FileIndex(b) := WriteHeader(Content(before, FileIndex(b)), b)]
  }

  // ----- Grouping by file

  /** The headers of the branch that belong to file f, in order. */
  function Group(branch: seq<BlockHeader>, f: nat): seq<BlockHeader> {
    if branch == [] then []
    else Group(branch[..|branch| - 1], f) +
         (if FileIndex(branch[|branch| - 1]) == f then [branch[|branch| - 1]] else [])
  }

  function WriteGroup(file: seq<byte>, group: seq<BlockHeader>): seq<byte> {
    if group == [] then file else WriteHeader(WriteGroup(file, group[..|group| - 1]), group[|group| - 1])
  }

  /** File by file or header by header comes to the same. */
  lemma {:induction false} GroupsAreIndependent(files: Files, branch: seq<BlockHeader>, f: nat)
    ensures f in WriteAll(files, branch) <==> f in files || Group(branch, f) != []
    ensures Content(WriteAll(files, branch), f) == WriteGroup(Content(files, f), Group(branch, f))
    decreases |branch|
  {
    if branch != [] {
      var init, b := branch[..|branch| - 1], branch[|branch| - 1];
      GroupsAreIndependent(files, init, f);
      if FileIndex(b) == f {
        assert Group(branch, f)[..|Group(branch, f)| - 1] == Group(init, f);
      } else {
        assert Group(branch, f) == Group(init, f);
      }
    }
  }

  /** The group of file f has been collected. */
  predicate Grouped(branch: seq<BlockHeader>, groups: map<nat, seq<BlockHeader>>, f: nat) {
    (f in groups <==> Group(branch, f) != []) && (f in groups ==> groups[f] == Group(branch, f))
  }

  lemma GroupStep(branch: seq<BlockHeader>, i: nat, f: nat)
    requires i < |branch|
    ensures Group(branch[..i + 1], f) == Group(branch[..i], f) + (if FileIndex(branch[i]) == f then [branch[i]] else [])
  {
    assert branch[..i + 1][..i] == branch[..i];
  }

  method GroupByFile(branch: seq<BlockHeader>) returns (groups: map<nat, seq<BlockHeader>>)
    ensures forall f: nat :: Grouped(branch, groups, f)
  {
    groups := map[];
    for i := 0 to |branch|
      invariant forall f: nat :: Grouped(branch[..i], groups, f)
    {
      var b := branch[i];
      var f := FileIndex(b);
      ghost var before, more := groups, branch[..i + 1];
      groups := groups[f := (if f in groups then groups[f] else []) + [b]];
      forall g: nat
        ensures Grouped(more, groups, g)
      {
        assert Grouped(branch[..i], before, g);
        GroupStep(branch, i, g);
      }
    }
    assert branch[..|branch|] == branch;
  }

  /** The groups of the given files have been written, and nothing else. */
  ghost predicate Written(files: Files, branch: seq<BlockHeader>, done: set<nat>, after: Files) {
    && (forall f: nat :: f in after <==> f in files || f in done)
    && (forall f: nat :: f in done ==> Content(after, f) == WriteGroup(Content(files, f), Group(branch, f)))
    && (forall f: nat :: f !in done ==> Content(after, f) == Content(files, f))
  }

  lemma {:induction false} WrittenStep(files: Files, branch: seq<BlockHeader>, done: set<nat>, before: Files, f: nat,
                                       after: Files)
    requires Written(files, branch, done, before) && f !in done
    requires after == before[f := WriteGroup(Content(files, f), Group(branch, f))]
    ensures Written(files, branch, done + {f}, after)
  {
    forall g: nat
      ensures g in after <==> g in files || g in done + {f}
      ensures Content(after, g) ==
              if g == f then WriteGroup(Content(files, f), Group(branch, f)) else Content(before, g)
    {
    }
  }

  lemma {:induction false} WrittenAll(files: Files, branch: seq<BlockHeader>, done: set<nat>, after: Files)
    requires Written(files, branch, done, after) && forall f: nat :: f in done <==> Group(branch, f) != []
    ensures after == WriteAll(files, branch)
  {
    var all := WriteAll(files, branch);
    forall f: nat
      ensures f in after <==> f in all
      ensures f in after ==> after[f] == all[f]
    {
      GroupsAreIndependent(files, branch, f);
      assert Content(after, f) == Content(all, f);
    }
  }

  method WriteFile(file: seq<byte>, group: seq<BlockHeader>) returns (after: seq<byte>)
    ensures after == WriteGroup(file, group)
  {
    after := file;
    for i := 0 to |group|
      invariant after == WriteGroup(file, group[..i])
    {
      after := WriteHeader(after, group[i]);
      assert group[..i + 1][..i] == group[..i];
    }
    assert group[..|group|] == group;
  }

  /** Groups the headers by file, then writes the files in whatever order the map yields them. */
  method WriteHeadersToFiles(files: Files, branch: seq<BlockHeader>) returns (after: Files)
    ensures after == WriteAll(files, branch)
  {
    var groups := GroupByFile(branch);
    after := files;
    var todo := groups.Keys;
    ghost var done: set<nat> := {};
    while todo != {}
      invariant done !! todo && done + todo == groups.Keys
      invariant Written(files, branch, done, after)
      decreases todo
    {
      var f :| f in todo;
      assert Grouped(branch, groups, f);
      var content := WriteFile(Content(after, f), groups[f]);
      WrittenStep(files, branch, done, after, f, after[f := content]);
      after, todo, done := after[f := content], todo - {f}, done + {f};
    }
    assert forall f: nat :: Grouped(branch, groups, f) && (f in done <==> f in groups);
    WrittenAll(files, branch, done, after);
  }
}
