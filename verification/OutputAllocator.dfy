/**
 The message-box server's allocation of payment outputs to the recipients that charge a fee:
 by tag where outputs are tagged, and by position for the others.
 */
module OutputAllocator {
  import opened Base

  /** A payment output; `recipient` is the tag in its custom instructions, or empty. */
  datatype Output = Output(outputIndex: u32, recipient: string, content: string)

  datatype FeeRow = FeeRow(recipient: string, recipientFee: int)

  /** Which outputs go to whom, by position in the list of outputs. */
  type Positions = map<string, seq<nat>>

  // ----- Selecting positions

  /** The positions, in order, of the outputs that satisfy the test. */
  function Where(outputs: seq<Output>, test: Output -> bool): (ps: seq<nat>)
    ensures forall i :: 0 <= i < |ps| ==> ps[i] < |outputs| && test(outputs[ps[i]])
  {
    if outputs == [] then []
    else
      var n := |outputs| - 1;
      Where(outputs[..n], test) + (if test(outputs[n]) then [n] else [])
  }

  predicate InBounds(outputs: seq<Output>, ps: seq<nat>) {
    forall i :: 0 <= i < |ps| ==> ps[i] < |outputs|
  }

  function Pick(outputs: seq<Output>, ps: seq<nat>): (picked: seq<Output>)
    requires InBounds(outputs, ps)
    ensures |picked| == |ps|
  {
    seq(|ps|, i requires 0 <= i < |ps| => outputs[ps[i]])
  }

  lemma {:induction false} WhereComplete(outputs: seq<Output>, test: Output -> bool, k: nat)
    requires k < |outputs|
    ensures test(outputs[k]) <==> k in Where(outputs, test)
    decreases |outputs|
  {
    var n := |outputs| - 1;
    if k < n {
      WhereComplete(outputs[..n], test, k);
    }
  }

  /** The outputs that satisfy the test, in order. */
  function Filter(outputs: seq<Output>, test: Output -> bool): seq<Output> {
    if outputs == [] then []
    else
      var n := |outputs| - 1;
      Filter(outputs[..n], test) + (if test(outputs[n]) then [outputs[n]] else [])
  }

  lemma PickAppend(outputs: seq<Output>, ps: seq<nat>, k: nat)
    requires InBounds(outputs, ps) && k < |outputs|
    ensures Pick(outputs, ps + [k]) == Pick(outputs, ps) + [outputs[k]]
  {
  }

  lemma PickPrefix(outputs: seq<Output>, n: nat, ps: seq<nat>)
    requires n <= |outputs| && InBounds(outputs[..n], ps)
    ensures Pick(outputs, ps) == Pick(outputs[..n], ps)
  {
  }

  lemma {:induction false} PickWhere(outputs: seq<Output>, test: Output -> bool)
    ensures Pick(outputs, Where(outputs, test)) == Filter(outputs, test)
  {
    if outputs != [] {
      var n := |outputs| - 1;
      var ps := Where(outputs[..n], test);
      PickWhere(outputs[..n], test);
      PickPrefix(outputs, n, ps);
      if test(outputs[n]) {
        PickAppend(outputs, ps, n);
      }
    }
  }

  lemma {:induction false} WhereIncreases(outputs: seq<Output>, test: Output -> bool, i: nat, j: nat)
    requires i < j < |Where(outputs, test)|
    ensures Where(outputs, test)[i] < Where(outputs, test)[j]
  {
    var n := |outputs| - 1;
    if j < |Where(outputs[..n], test)| {
      WhereIncreases(outputs[..n], test, i, j);
    }
  }

  lemma WhereDistinct(outputs: seq<Output>, test: Output -> bool, i: nat, j: nat)
    requires i < |Where(outputs, test)| && j < |Where(outputs, test)|
    requires Where(outputs, test)[i] == Where(outputs, test)[j]
    ensures i == j
  {
    if i < j {
      WhereIncreases(outputs, test, i, j);
    } else if j < i {
      WhereIncreases(outputs, test, j, i);
    }
  }

  lemma FilterStep(outputs: seq<Output>, test: Output -> bool, k: nat)
    requires k < |outputs|
    ensures Filter(outputs[..k + 1], test) == Filter(outputs[..k], test)
            + (if test(outputs[k]) then [outputs[k]] else [])
  {
    assert outputs[..k + 1][..k] == outputs[..k];
  }

  function TaggedFor(r: string): Output -> bool {
    (o: Output) => o.recipient == r
  }

  function UnusedTest(used: set<u32>): Output -> bool {
    (o: Output) => o.outputIndex !in used
  }

  /** The output indexes of the tagged outputs. */
  function Used(outputs: seq<Output>): set<u32> {
    if outputs == [] then {}
    else
      var n := |outputs| - 1;
      Used(outputs[..n]) + (if outputs[n].recipient != "" then {outputs[n].outputIndex} else {})
  }

  lemma {:induction false} UsedHas(outputs: seq<Output>, k: nat)
    requires k < |outputs| && outputs[k].recipient != ""
    ensures outputs[k].outputIndex in Used(outputs)
    decreases |outputs|
  {
    var n := |outputs| - 1;
    if k < n {
      UsedHas(outputs[..n], k);
    }
  }

  lemma {:induction false} UsedOnly(outputs: seq<Output>, x: u32)
    ensures x in Used(outputs) ==>
              exists k :: 0 <= k < |outputs| && outputs[k].recipient != "" && outputs[k].outputIndex == x
  {
    if outputs != [] && x in Used(outputs) {
      var n := |outputs| - 1;
      UsedOnly(outputs[..n], x);
      if x in Used(outputs[..n]) {
        var k :| 0 <= k < n && outputs[..n][k].recipient != "" && outputs[..n][k].outputIndex == x;
        assert outputs[k] == outputs[..n][k];
      }
    }
  }

  /** What is left for recipients without tagged outputs. */
  function Remaining(outputs: seq<Output>): seq<nat> {
    Where(outputs, UnusedTest(Used(outputs)))
  }

  function FeeRecipients(rows: seq<FeeRow>): seq<string> {
    if rows == [] then []
    else
      var n := |rows| - 1;
      FeeRecipients(rows[..n]) + (if rows[n].recipientFee > 0 then [rows[n].recipient] else [])
  }

  /** Whoever has a row with a positive fee, and no one else. */
  lemma {:induction false} FeeRecipientsAre(rows: seq<FeeRow>, r: string)
    ensures r in FeeRecipients(rows) <==>
            exists k :: 0 <= k < |rows| && rows[k].recipient == r && rows[k].recipientFee > 0
  {
    if rows != [] {
      var n := |rows| - 1;
      FeeRecipientsAre(rows[..n], r);
      if k :| 0 <= k < n && rows[..n][k].recipient == r && rows[..n][k].recipientFee > 0 {
        assert rows[k].recipient == r && rows[k].recipientFee > 0;
      }
      if k :| 0 <= k < |rows| && rows[k].recipient == r && rows[k].recipientFee > 0 {
        assert k < n ==> rows[..n][k] == rows[k];
      }
    }
  }

  /** One row gives its recipient or nothing, and rows in order give recipients in order. */
  lemma {:induction false} FeeRecipientsAdd(a: seq<FeeRow>, b: seq<FeeRow>, row: FeeRow)
    ensures FeeRecipients([row]) == if row.recipientFee > 0 then [row.recipient] else []
    ensures FeeRecipients(a + b) == FeeRecipients(a) + FeeRecipients(b)
    decreases |b|
  {
    assert [row][..0] == [];
    if b == [] {
      assert a + b == a;
    } else {
      var n := |b| - 1;
      FeeRecipientsAdd(a, b[..n], row);
      assert (a + b)[..|a + b| - 1] == a + b[..n];
    }
  }

  predicate HasTag(outputs: seq<Output>, r: string) {
    r != "" && Filter(outputs, TaggedFor(r)) != []
  }

  function Unmapped(outputs: seq<Output>, rs: seq<string>): seq<string> {
    if rs == [] then []
    else
      var n := |rs| - 1;
      Unmapped(outputs, rs[..n]) + (if HasTag(outputs, rs[n]) then [] else [rs[n]])
  }

  lemma {:induction false} UnmappedMembers(outputs: seq<Output>, rs: seq<string>, r: string)
    ensures r in Unmapped(outputs, rs) <==> r in rs && !HasTag(outputs, r)
  {
    if rs != [] {
      UnmappedMembers(outputs, rs[..|rs| - 1], r);
      assert rs == rs[..|rs| - 1] + [rs[|rs| - 1]];
    }
  }

  // ----- The allocation

  /** Turn j is the last one of recipient r among the first turns of those without tags. */
  predicate LastTurn(unmapped: seq<string>, r: string, j: nat, turns: nat)
    requires turns <= |unmapped|
  {
    j < turns && unmapped[j] == r && forall i :: j < i < turns ==> unmapped[i] != r
  }

  /** A recipient with tagged outputs gets exactly those; another one gets a single output that
      is not tagged, at the place of its last turn among the recipients without tags. */
  ghost predicate Turn(outputs: seq<Output>, rs: seq<string>, r: string, ps: seq<nat>, turns: nat)
    requires turns <= |Unmapped(outputs, rs)|
  {
    if HasTag(outputs, r) then ps == Where(outputs, TaggedFor(r))
    else exists j: nat ::
        j < |Remaining(outputs)| && LastTurn(Unmapped(outputs, rs), r, j, turns) && ps == [Remaining(outputs)[j]]
  }

  ghost predicate Allocated(outputs: seq<Output>, rs: seq<string>, pos: Positions, turns: nat)
    requires turns <= |Unmapped(outputs, rs)|
  {
    forall r :: r in pos ==> Turn(outputs, rs, r, pos[r], turns)
  }

  /** No position goes to two recipients, or twice to one. */
  lemma AllocatedApart(outputs: seq<Output>, rs: seq<string>, r: string, ps: seq<nat>, i: nat, r': string,
                       ps': seq<nat>, j: nat, turns: nat)
    requires turns <= |Unmapped(outputs, rs)| && Turn(outputs, rs, r, ps, turns) && Turn(outputs, rs, r', ps', turns)
    requires i < |ps| && j < |ps'| && ps[i] == ps'[j]
    ensures r == r' && (ps == ps' ==> i == j)
  {
    if HasTag(outputs, r) && HasTag(outputs, r') {
      TagsApart(outputs, r, r', ps[i]);
      WhereDistinct(outputs, TaggedFor(r), i, j);
    } else if HasTag(outputs, r) {
      TaggedNotRemaining(outputs, r, ps[i]);
    } else if HasTag(outputs, r') {
      TaggedNotRemaining(outputs, r', ps[i]);
    } else {
      TurnsApart(outputs, rs, r, ps, r', ps', turns);
    }
  }

  lemma TagsApart(outputs: seq<Output>, r: string, r': string, k: nat)
    requires k in Where(outputs, TaggedFor(r)) && k in Where(outputs, TaggedFor(r'))
    ensures r == r'
  {
    assert TaggedFor(r)(outputs[k]) && TaggedFor(r')(outputs[k]);
  }

  lemma TurnsApart(outputs: seq<Output>, rs: seq<string>, r: string, ps: seq<nat>, r': string, ps': seq<nat>,
                   turns: nat)
    requires turns <= |Unmapped(outputs, rs)| && Turn(outputs, rs, r, ps, turns) && Turn(outputs, rs, r', ps', turns)
    requires !HasTag(outputs, r) && !HasTag(outputs, r') && ps[0] == ps'[0]
    ensures r == r' && |ps| == |ps'| == 1
  {
    var rest := Remaining(outputs);
    var m: nat :| m < |rest| && LastTurn(Unmapped(outputs, rs), r, m, turns) && ps == [rest[m]];
    var n: nat :| n < |rest| && LastTurn(Unmapped(outputs, rs), r', n, turns) && ps' == [rest[n]];
    WhereDistinct(outputs, UnusedTest(Used(outputs)), m, n);
  }

  lemma TaggedNotRemaining(outputs: seq<Output>, r: string, k: nat)
    requires HasTag(outputs, r) && k in Where(outputs, TaggedFor(r))
    ensures k !in Remaining(outputs)
  {
    assert TaggedFor(r)(outputs[k]);
    UsedHas(outputs, k);
    WhereComplete(outputs, UnusedTest(Used(outputs)), k);
  }

  // ----- What remains

  /** A tagged output has this output index. */
  predicate TaggedIndex(outputs: seq<Output>, x: u32) {
    exists k :: 0 <= k < |outputs| && outputs[k].recipient != "" && outputs[k].outputIndex == x
  }

  /** An output remains if and only if no tagged output has its index. */
  lemma RemainingExact(outputs: seq<Output>, k: nat)
    requires k < |outputs|
    ensures k in Remaining(outputs) <==> !TaggedIndex(outputs, outputs[k].outputIndex)
  {
    WhereComplete(outputs, UnusedTest(Used(outputs)), k);
    UsedOnly(outputs, outputs[k].outputIndex);
    if TaggedIndex(outputs, outputs[k].outputIndex) {
      var j :| 0 <= j < |outputs| && outputs[j].recipient != "" && outputs[j].outputIndex == outputs[k].outputIndex;
      UsedHas(outputs, j);
    }
  }

  /** When every output has its own index, what remains is what is not tagged. */
  lemma RemainingIsUntagged(outputs: seq<Output>, k: nat)
    requires k < |outputs| && forall i, j :: 0 <= i < j < |outputs| ==> outputs[i].outputIndex != outputs[j].outputIndex
    ensures k in Remaining(outputs) <==> outputs[k].recipient == ""
  {
    RemainingExact(outputs, k);
  }

  function Untagged(outputs: seq<Output>): seq<nat> {
    Where(outputs, TaggedFor(""))
  }

  /** No untagged output shares its index with a tagged one. */
  predicate NoSharing(outputs: seq<Output>) {
    forall k :: 0 <= k < |outputs| && outputs[k].recipient == "" ==> !TaggedIndex(outputs, outputs[k].outputIndex)
  }

  lemma {:induction false} WhereFewer(outputs: seq<Output>, few: Output -> bool, many: Output -> bool)
    requires forall k :: 0 <= k < |outputs| && few(outputs[k]) ==> many(outputs[k])
    ensures |Where(outputs, few)| <= |Where(outputs, many)|
    ensures |Where(outputs, few)| == |Where(outputs, many)| <==>
            forall k :: 0 <= k < |outputs| && many(outputs[k]) ==> few(outputs[k])
    decreases |outputs|
  {
    if outputs != [] {
      var n := |outputs| - 1;
      WhereFewer(outputs[..n], few, many);
      assert outputs == outputs[..n] + [outputs[n]];
    }
  }

  /** Outputs that remain are untagged, and they are as many exactly when there is no sharing. */
  lemma RemainingCount(outputs: seq<Output>)
    ensures |Remaining(outputs)| <= |Untagged(outputs)|
    ensures |Remaining(outputs)| == |Untagged(outputs)| <==> NoSharing(outputs)
  {
    var few, many := UnusedTest(Used(outputs)), TaggedFor("");
    forall k | 0 <= k < |outputs|
      ensures few(outputs[k]) <==> !TaggedIndex(outputs, outputs[k].outputIndex)
      ensures few(outputs[k]) ==> many(outputs[k])
    {
      RemainingExact(outputs, k);
      WhereComplete(outputs, few, k);
      if outputs[k].recipient != "" {
        assert TaggedIndex(outputs, outputs[k].outputIndex);
      }
    }
    WhereFewer(outputs, few, many);
  }

  lemma {:induction false} UnmappedCopies(outputs: seq<Output>, n: nat)
    ensures |Unmapped(outputs, seq(n, i => ""))| == n
  {
    if n > 0 {
      var rs := seq(n, i => "");
      UnmappedCopies(outputs, n - 1);
      assert rs[..n - 1] == seq(n - 1, i => "");
    }
  }

  /** Enough untagged outputs for the recipients without a tagged one. */
  predicate EnoughUntagged(outputs: seq<Output>, rs: seq<string>) {
    |Untagged(outputs)| >= |Unmapped(outputs, rs)|
  }

  predicate Succeeds(outputs: seq<Output>, rs: seq<string>) {
    |Remaining(outputs)| >= |Unmapped(outputs, rs)|
  }

  /** Whatever the fee recipients, allocation succeeds exactly when the untagged outputs suffice,
      if and only if no untagged output shares its index with a tagged one. */
  lemma SharingIsTheOnlyLoss(outputs: seq<Output>)
    ensures (forall rs :: Succeeds(outputs, rs) <==> EnoughUntagged(outputs, rs)) <==> NoSharing(outputs)
  {
    RemainingCount(outputs);
    if !NoSharing(outputs) {
      var rs := seq(|Untagged(outputs)|, i => "");
      UnmappedCopies(outputs, |Untagged(outputs)|);
      assert !Succeeds(outputs, rs) && EnoughUntagged(outputs, rs);
    }
  }

  const SHARED := [Output(1, "r", ""), Output(1, "", "")]

  lemma SharedUnmapped()
    ensures FeeRecipients([FeeRow("r", 1), FeeRow("s", 1)]) == ["r", "s"] && Unmapped(SHARED, ["r", "s"]) == ["s"]
  {
    var rows, rs := [FeeRow("r", 1), FeeRow("s", 1)], ["r", "s"];
    assert rows[..1] == [FeeRow("r", 1)] && rows[..1][..0] == [];
    assert FeeRecipients(rows[..1]) == ["r"];
    assert SHARED[..1] == [SHARED[0]] && SHARED[..1][..0] == [];
    assert Filter(SHARED[..1], TaggedFor("r")) == [SHARED[0]] && Filter(SHARED[..1], TaggedFor("s")) == [];
    assert HasTag(SHARED, "r") && !HasTag(SHARED, "s");
    assert rs[..1] == ["r"] && rs[..1][..0] == [];
    assert Unmapped(SHARED, rs[..1]) == [];
  }

  /** With a shared index allocation fails although an untagged output is there for the only
      recipient without a tagged one. */
  lemma SharedIndexFails()
    ensures var rs := FeeRecipients([FeeRow("r", 1), FeeRow("s", 1)]);
            && Unmapped(SHARED, rs) == ["s"] && EnoughUntagged(SHARED, rs) && !Succeeds(SHARED, rs)
  {
    SharedUnmapped();
    assert SHARED[0].recipient != "" && TaggedIndex(SHARED, 1);
    RemainingExact(SHARED, 0);
    RemainingExact(SHARED, 1);
    NoneRemain(SHARED);
    WhereComplete(SHARED, TaggedFor(""), 1);
  }

  lemma MemberIfAny(ps: seq<nat>)
    ensures ps == [] || exists k :: k in ps
  {
    if ps != [] {
      assert ps[0] in ps;
    }
  }

  lemma NoneRemain(outputs: seq<Output>)
    requires forall k :: 0 <= k < |outputs| ==> k !in Remaining(outputs)
    ensures Remaining(outputs) == []
  {
    MemberIfAny(Remaining(outputs));
  }

  /** The positions in the whole list of outputs that a result hands out. */
  ghost predicate HandsOut(outputs: seq<Output>, result: map<string, seq<Output>>, pos: Positions) {
    && pos.Keys == result.Keys
    && forall r :: r in pos ==> InBounds(outputs, pos[r]) && result[r] == Pick(outputs, pos[r])
  }

  // ----- The algorithm

  method FeeRecipientsOf(rows: seq<FeeRow>) returns (rs: seq<string>)
    ensures rs == FeeRecipients(rows)
  {
    rs := [];
    for i := 0 to |rows|
      invariant rs == FeeRecipients(rows[..i])
    {
      assert rows[..i + 1][..i] == rows[..i];
      if rows[i].recipientFee > 0 {
        rs := rs + [rows[i].recipient];
      }
    }
    assert rows[..|rows|] == rows;
  }

  /** The group of tag r. */
  predicate GroupRight(outputs: seq<Output>, byKey: map<string, seq<Output>>, r: string) {
    && (r in byKey <==> HasTag(outputs, r))
    && (r in byKey ==> byKey[r] == Filter(outputs, TaggedFor(r)))
  }

  /** Groups the tagged outputs by tag and notes their indexes. */
  method GroupByTag(outputs: seq<Output>) returns (byKey: map<string, seq<Output>>, used: set<u32>)
    ensures forall r :: GroupRight(outputs, byKey, r)
    ensures used == Used(outputs)
  {
    byKey, used := map[], {};
    for i := 0 to |outputs|
      invariant forall r :: GroupRight(outputs[..i], byKey, r)
      invariant used == Used(outputs[..i])
    {
      ghost var before := byKey;
      var out := outputs[i];
      if out.recipient != "" {
        byKey := byKey[out.recipient := (if out.recipient in byKey then byKey[out.recipient] else []) + [out]];
        used := used + {out.outputIndex};
      }
      ghost var more := outputs[..i + 1];
      forall r
        ensures GroupRight(more, byKey, r)
      {
        assert GroupRight(outputs[..i], before, r);
        FilterStep(outputs, TaggedFor(r), i);
      }
      assert outputs[..i + 1][..i] == outputs[..i];
    }
    assert outputs[..|outputs|] == outputs;
  }

  method RemainingOf(outputs: seq<Output>, used: set<u32>) returns (remaining: seq<Output>)
    ensures remaining == Filter(outputs, UnusedTest(used))
  {
    remaining := [];
    for i := 0 to |outputs|
      invariant remaining == Filter(outputs[..i], UnusedTest(used))
    {
      FilterStep(outputs, UnusedTest(used), i);
      if outputs[i].outputIndex !in used {
        remaining := remaining + [outputs[i]];
      }
    }
    assert outputs[..|outputs|] == outputs;
  }

  method UnmappedOf(outputs: seq<Output>, rs: seq<string>, byKey: map<string, seq<Output>>)
    returns (unmapped: seq<string>)
    requires forall r :: GroupRight(outputs, byKey, r)
    ensures unmapped == Unmapped(outputs, rs)
  {
    unmapped := [];
    for i := 0 to |rs|
      invariant unmapped == Unmapped(outputs, rs[..i])
    {
      assert rs[..i + 1][..i] == rs[..i];
      assert GroupRight(outputs, byKey, rs[i]);
      if rs[i] !in byKey {
        unmapped := unmapped + [rs[i]];
      }
    }
    assert rs[..|rs|] == rs;
  }

  /** Gives each recipient that has tagged outputs exactly those. */
  method AssignTagged(outputs: seq<Output>, rs: seq<string>, byKey: map<string, seq<Output>>)
    returns (result: map<string, seq<Output>>, ghost pos: Positions)
    requires forall r :: GroupRight(outputs, byKey, r)
    ensures HandsOut(outputs, result, pos) && Allocated(outputs, rs, pos, 0)
    ensures forall r :: r in result <==> r in rs && HasTag(outputs, r)
  {
    result, pos := map[], map[];
    for i := 0 to |rs|
      invariant HandsOut(outputs, result, pos) && Allocated(outputs, rs, pos, 0)
      invariant forall r :: r in result <==> r in rs[..i] && HasTag(outputs, r)
    {
      var r := rs[i];
      assert GroupRight(outputs, byKey, r);
      assert rs[..i + 1] == rs[..i] + [r];
      if r in byKey {
        PickWhere(outputs, TaggedFor(r));
        result := result[r := byKey[r]];
        pos := pos[r := Where(outputs, TaggedFor(r))];
      }
    }
    assert rs[..|rs|] == rs;
  }

  lemma {:induction false} UnmappedUntagged(outputs: seq<Output>, rs: seq<string>, i: nat)
    requires i < |Unmapped(outputs, rs)|
    ensures !HasTag(outputs, Unmapped(outputs, rs)[i]) && Unmapped(outputs, rs)[i] in rs
  {
    UnmappedMembers(outputs, rs, Unmapped(outputs, rs)[i]);
  }

  lemma RemainingAt(outputs: seq<Output>, remaining: seq<Output>)
    requires remaining == Filter(outputs, UnusedTest(Used(outputs)))
    ensures |remaining| == |Remaining(outputs)|
    ensures forall i :: 0 <= i < |remaining| ==> remaining[i] == outputs[Remaining(outputs)[i]]
  {
    PickWhere(outputs, UnusedTest(Used(outputs)));
  }

  /** Gives each recipient in turn one of the outputs that are left. */
  method AssignRemaining(outputs: seq<Output>, rs: seq<string>, remaining: seq<Output>,
                         tagged: map<string, seq<Output>>, ghost taggedPos: Positions)
    returns (result: map<string, seq<Output>>, ghost pos: Positions)
    requires remaining == Filter(outputs, UnusedTest(Used(outputs))) && |remaining| >= |Unmapped(outputs, rs)|
    requires HandsOut(outputs, tagged, taggedPos) && Allocated(outputs, rs, taggedPos, 0)
    requires forall r :: r in tagged <==> r in rs && HasTag(outputs, r)
    ensures HandsOut(outputs, result, pos) && Allocated(outputs, rs, pos, |Unmapped(outputs, rs)|)
    ensures forall r :: r in result <==> r in rs
  {
    result, pos := tagged, taggedPos;
    var unmapped := Unmapped(outputs, rs);
    RemainingAt(outputs, remaining);
    for i := 0 to |unmapped|
      invariant HandsOut(outputs, result, pos) && Allocated(outputs, rs, pos, i)
      invariant Served(result, tagged, unmapped, i)
    {
      var r := unmapped[i];
      UnmappedUntagged(outputs, rs, i);
      ServedNext(result, tagged, unmapped, i, [remaining[i]]);
      TurnGiven(outputs, rs, result, pos, i, r, Remaining(outputs)[i]);
      result := result[r := [remaining[i]]];
      pos := pos[r := [Remaining(outputs)[i]]];
    }
    AllServed(outputs, rs, result, tagged);
  }

  /** The recipients with tagged outputs, and the first i others, have been given something. */
  ghost predicate Served(result: map<string, seq<Output>>, tagged: map<string, seq<Output>>, unmapped: seq<string>,
                         i: nat)
    requires i <= |unmapped|
  {
    forall r :: r in result <==> r in tagged || r in unmapped[..i]
  }

  lemma ServedNext(result: map<string, seq<Output>>, tagged: map<string, seq<Output>>, unmapped: seq<string>, i: nat,
                   outs: seq<Output>)
    requires i < |unmapped| && Served(result, tagged, unmapped, i)
    ensures Served(result[unmapped[i] := outs], tagged, unmapped, i + 1)
  {
    assert unmapped[..i + 1] == unmapped[..i] + [unmapped[i]];
  }

  lemma AllServed(outputs: seq<Output>, rs: seq<string>, result: map<string, seq<Output>>,
                  tagged: map<string, seq<Output>>)
    requires Served(result, tagged, Unmapped(outputs, rs), |Unmapped(outputs, rs)|)
    requires forall r :: r in tagged <==> r in rs && HasTag(outputs, r)
    ensures forall r :: r in result <==> r in rs
  {
    var unmapped := Unmapped(outputs, rs);
    assert unmapped[..|unmapped|] == unmapped;
    forall r
      ensures r in result <==> r in rs
    {
      UnmappedMembers(outputs, rs, r);
    }
  }

  lemma TurnGiven(outputs: seq<Output>, rs: seq<string>, result: map<string, seq<Output>>, pos: Positions, i: nat,
                  r: string, k: nat)
    requires i < |Unmapped(outputs, rs)| && i < |Remaining(outputs)| && k == Remaining(outputs)[i]
    requires HandsOut(outputs, result, pos) && Allocated(outputs, rs, pos, i)
    requires r == Unmapped(outputs, rs)[i] && !HasTag(outputs, r)
    ensures k < |outputs| && HandsOut(outputs, result[r := [outputs[k]]], pos[r := [k]])
    ensures Allocated(outputs, rs, pos[r := [k]], i + 1)
  {
    assert LastTurn(Unmapped(outputs, rs), r, i, i + 1);
    assert Turn(outputs, rs, r, [k], i + 1);
    var after := pos[r := [k]];
    forall q | q in after
      ensures Turn(outputs, rs, q, after[q], i + 1)
    {
      if q != r {
        TurnStays(outputs, rs, q, pos[q], i);
      }
    }
    assert Pick(outputs, [k]) == [outputs[k]];
  }

  /** A turn of another recipient changes nothing. */
  lemma TurnStays(outputs: seq<Output>, rs: seq<string>, r: string, ps: seq<nat>, i: nat)
    requires i < |Unmapped(outputs, rs)| && Turn(outputs, rs, r, ps, i) && Unmapped(outputs, rs)[i] != r
    ensures Turn(outputs, rs, r, ps, i + 1)
  {
    if !HasTag(outputs, r) {
      var j: nat :| j < |Remaining(outputs)| && LastTurn(Unmapped(outputs, rs), r, j, i)
        && ps == [Remaining(outputs)[j]];
      assert LastTurn(Unmapped(outputs, rs), r, j, i + 1);
    }
  }

  /** Without any tag, everything remains and every recipient waits for its turn. */
  lemma {:induction false} NoTags(outputs: seq<Output>, rs: seq<string>)
    requires forall r :: !HasTag(outputs, r)
    ensures Used(outputs) == {} && Filter(outputs, UnusedTest({})) == outputs && Unmapped(outputs, rs) == rs
  {
    forall k | 0 <= k < |outputs|
      ensures outputs[k].recipient == ""
    {
      var r := outputs[k].recipient;
      WhereComplete(outputs, TaggedFor(r), k);
      PickWhere(outputs, TaggedFor(r));
      assert !HasTag(outputs, r);
    }
    NothingUsed(outputs);
    AllUnused(outputs);
    AllUnmapped(outputs, rs);
  }

  lemma {:induction false} NothingUsed(outputs: seq<Output>)
    requires forall k :: 0 <= k < |outputs| ==> outputs[k].recipient == ""
    ensures Used(outputs) == {}
  {
    if outputs != [] {
      NothingUsed(outputs[..|outputs| - 1]);
    }
  }

  lemma {:induction false} AllUnused(outputs: seq<Output>)
    ensures Filter(outputs, UnusedTest({})) == outputs
  {
    if outputs != [] {
      AllUnused(outputs[..|outputs| - 1]);
      assert outputs == outputs[..|outputs| - 1] + [outputs[|outputs| - 1]];
    }
  }

  lemma {:induction false} AllUnmapped(outputs: seq<Output>, rs: seq<string>)
    requires forall r :: !HasTag(outputs, r)
    ensures Unmapped(outputs, rs) == rs
  {
    if rs != [] {
      AllUnmapped(outputs, rs[..|rs| - 1]);
      assert rs == rs[..|rs| - 1] + [rs[|rs| - 1]];
    }
  }

  /** What the recipients are given: each that charges a fee gets something and no one else
      does; tagged outputs go to whom they are tagged for. */
  ghost predicate GoodResult(side: seq<Output>, rs: seq<string>, result: map<string, seq<Output>>, pos: Positions) {
    && (forall r :: r in result <==> r in rs)
    && HandsOut(side, result, pos)
    && Allocated(side, rs, pos, |Unmapped(side, rs)|)
  }

  /** The recipients' outputs, given where they start in the whole list. */
  ghost predicate TakenFrom(outputs: seq<Output>, start: nat, result: map<string, seq<Output>>, pos: Positions) {
    forall r :: r in result ==>
      && r in pos && |pos[r]| == |result[r]|
      && forall i :: 0 <= i < |pos[r]| ==>
           start + pos[r][i] < |outputs| && result[r][i] == outputs[start + pos[r][i]]
  }

  /** Maps outputs to recipients. A delivery fee takes the first output away, which then goes to no one
      here. Fails exactly when fewer outputs remain than there are fee recipients without tagged ones. */
  method BuildPerRecipientOutputs(outputs: seq<Output>, deliveryFee: int, rows: seq<FeeRow>)
    returns (result: Option<map<string, seq<Output>>>, ghost pos: Positions)
    ensures deliveryFee > 0 && |outputs| > 0 ==>
              && (result.Some? <==> Succeeds(outputs[1..], FeeRecipients(rows)))
              && (result.Some? ==> GoodResult(outputs[1..], FeeRecipients(rows), result.value, pos))
              && (result.Some? ==> TakenFrom(outputs, 1, result.value, pos))
    ensures deliveryFee <= 0 || |outputs| == 0 ==>
              && (result.Some? <==> Succeeds(outputs, FeeRecipients(rows)))
              && (result.Some? ==> GoodResult(outputs, FeeRecipients(rows), result.value, pos))
              && (result.Some? ==> TakenFrom(outputs, 0, result.value, pos))
    ensures result.Some? ==> forall r :: r in result.value <==>
              exists k :: 0 <= k < |rows| && rows[k].recipient == r && rows[k].recipientFee > 0
  {
    var startIdx := 0;
    if deliveryFee > 0 && |outputs| > 0 {
      startIdx := 1;
    }
    var side := outputs[startIdx..];
    var rs := FeeRecipientsOf(rows);
    result, pos := MapOutputs(side, rs);
    if result.Some? {
      PartOfList(outputs, startIdx, result.value, pos);
      forall r
        ensures r in result.value <==>
                exists k :: 0 <= k < |rows| && rows[k].recipient == r && rows[k].recipientFee > 0
      {
        FeeRecipientsAre(rows, r);
      }
    }
    assert startIdx == 0 ==> side == outputs;
  }

  lemma PartOfList(outputs: seq<Output>, start: nat, result: map<string, seq<Output>>, pos: Positions)
    requires start <= |outputs| && HandsOut(outputs[start..], result, pos)
    ensures TakenFrom(outputs, start, result, pos)
  {
  }

  /** The same, once it is known whose outputs there are and who charges a fee. */
  method MapOutputs(side: seq<Output>, rs: seq<string>)
    returns (result: Option<map<string, seq<Output>>>, ghost pos: Positions)
    ensures result.Some? <==> Succeeds(side, rs)
    ensures result.Some? ==> GoodResult(side, rs, result.value, pos)
  {
    pos := map[];
    if |rs| == 0 {
      return Some(map[]), pos;
    }
    var byKey, used := GroupByTag(side);
    PickWhere(side, UnusedTest(Used(side)));
    if byKey == map[] {
      forall r
        ensures !HasTag(side, r)
      {
        assert GroupRight(side, byKey, r);
      }
      NoTags(side, rs);
      if |side| < |rs| {
        return None, pos;
      }
      var given;
      given, pos := AssignRemaining(side, rs, side, map[], map[]);
      return Some(given), pos;
    }
    var tagged;
    tagged, pos := AssignTagged(side, rs, byKey);
    var unmapped := UnmappedOf(side, rs, byKey);
    var remaining := RemainingOf(side, used);
    if |remaining| < |unmapped| {
      return None, pos;
    }
    var given;
    given, pos := AssignRemaining(side, rs, remaining, tagged, pos);
    return Some(given), pos;
  }

  /** No output goes to two recipients or twice to one, nobody is left empty-handed, and nobody
      but those charging a fee is given anything. */
  lemma ResultIsFair(side: seq<Output>, rs: seq<string>, result: map<string, seq<Output>>, pos: Positions, r: string,
                     r': string)
    requires GoodResult(side, rs, result, pos) && r in result && r' in result
    ensures r in rs && |result[r]| == |pos[r]| > 0
    ensures HasTag(side, r) ==> result[r] == Filter(side, TaggedFor(r))
    ensures forall i, j :: 0 <= i < |pos[r]| && 0 <= j < |pos[r']| && pos[r][i] == pos[r'][j] ==> r == r' && i == j
  {
    var turns := |Unmapped(side, rs)|;
    assert Turn(side, rs, r, pos[r], turns) && Turn(side, rs, r', pos[r'], turns);
    PickWhere(side, TaggedFor(r));
    forall i, j | 0 <= i < |pos[r]| && 0 <= j < |pos[r']| && pos[r][i] == pos[r'][j]
      ensures r == r' && i == j
    {
      AllocatedApart(side, rs, r, pos[r], i, r', pos[r'], j, turns);
    }
  }

  /** A recipient has tagged outputs if and only if one is tagged for it, and it is someone. */
  lemma {:induction false} HasTagIff(side: seq<Output>, r: string)
    ensures HasTag(side, r) <==> r != "" && exists k :: 0 <= k < |side| && side[k].recipient == r
  {
    if side != [] {
      var n := |side| - 1;
      HasTagIff(side[..n], r);
      if k :| 0 <= k < n && side[..n][k].recipient == r {
        assert side[k].recipient == r;
      }
      if k :| 0 <= k < |side| && side[k].recipient == r {
        assert k < n ==> side[..n][k] == side[k];
      }
    }
  }

  /** A recipient without tagged outputs gets the remaining output at its own place among them. */
  lemma {:induction false} PlaceDecides(side: seq<Output>, rs: seq<string>, result: map<string, seq<Output>>,
                                        pos: Positions, i: nat)
    requires GoodResult(side, rs, result, pos) && i < |Unmapped(side, rs)|
    requires forall j, k :: 0 <= j < k < |Unmapped(side, rs)| ==> Unmapped(side, rs)[j] != Unmapped(side, rs)[k]
    ensures i < |Remaining(side)| && Unmapped(side, rs)[i] in result
    ensures result[Unmapped(side, rs)[i]] == [side[Remaining(side)[i]]]
  {
    var unmapped := Unmapped(side, rs);
    var r := unmapped[i];
    UnmappedMembers(side, rs, r);
    assert Turn(side, rs, r, pos[r], |unmapped|);
    var j: nat :| j < |Remaining(side)| && LastTurn(unmapped, r, j, |unmapped|) && pos[r] == [Remaining(side)[j]];
    assert j == i;
  }

  lemma {:induction false} AllPlaces(side: seq<Output>, k: nat)
    requires k < |side|
    ensures |Where(side, UnusedTest({}))| == |side| && Where(side, UnusedTest({}))[k] == k
    decreases |side|
  {
    var n := |side| - 1;
    if n > 0 {
      AllPlaces(side[..n], if k < n then k else 0);
    }
  }

  /** Without any tags the outputs go to the fee recipients one each, in order. */
  lemma {:induction false} InOrder(side: seq<Output>, rs: seq<string>, result: map<string, seq<Output>>,
                                   pos: Positions, i: nat)
    requires GoodResult(side, rs, result, pos) && i < |rs|
    requires forall k :: 0 <= k < |side| ==> side[k].recipient == ""
    requires forall j, k :: 0 <= j < k < |rs| ==> rs[j] != rs[k]
    ensures i < |side| && rs[i] in result && result[rs[i]] == [side[i]]
  {
    forall r
      ensures !HasTag(side, r)
    {
      HasTagIff(side, r);
    }
    AllUnmapped(side, rs);
    PlaceDecides(side, rs, result, pos, i);
    NothingUsed(side);
    if side != [] {
      AllPlaces(side, 0);
      AllPlaces(side, Remaining(side)[i]);
      AllPlaces(side, i);
    }
  }

  // ----- Outputs by index

  /** Two different outputs of one index that the same allocation can give to two recipients:
      tagged for two recipients, or both free to be handed out by position. */
  predicate Clash(outputs: seq<Output>, k: nat, l: nat)
    requires k < |outputs| && l < |outputs|
  {
    && k != l && outputs[k].outputIndex == outputs[l].outputIndex
    && if outputs[k].recipient != "" then outputs[l].recipient !in {"", outputs[k].recipient}
       else !TaggedIndex(outputs, outputs[k].outputIndex)
  }

  ghost predicate NoClash(outputs: seq<Output>) {
    forall k: nat, l: nat :: k < |outputs| && l < |outputs| ==> !Clash(outputs, k, l)
  }

  /** Some output index goes to two recipients. */
  ghost predicate IndexGivenTwice(outputs: seq<Output>, pos: Positions) {
    exists r, r', i: nat, j: nat :: SharesIndex(outputs, pos, r, i, r', j)
  }

  predicate SharesIndex(outputs: seq<Output>, pos: Positions, r: string, i: nat, r': string, j: nat) {
    && r != r' && r in pos && r' in pos && i < |pos[r]| && j < |pos[r']|
    && pos[r][i] < |outputs| && pos[r'][j] < |outputs|
    && outputs[pos[r][i]].outputIndex == outputs[pos[r'][j]].outputIndex
  }

  lemma WhereMember(outputs: seq<Output>, test: Output -> bool, i: nat)
    requires i < |Where(outputs, test)|
    ensures Where(outputs, test)[i] < |outputs| && test(outputs[Where(outputs, test)[i]])
  {
  }

  /** What a position handed to a recipient tells about the output there. */
  lemma GivenOutput(outputs: seq<Output>, rs: seq<string>, r: string, ps: seq<nat>, i: nat, turns: nat)
    requires turns <= |Unmapped(outputs, rs)| && Turn(outputs, rs, r, ps, turns) && i < |ps|
    ensures ps[i] < |outputs|
    ensures HasTag(outputs, r) ==> outputs[ps[i]].recipient == r
    ensures !HasTag(outputs, r) ==> !TaggedIndex(outputs, outputs[ps[i]].outputIndex)
  {
    if HasTag(outputs, r) {
      WhereMember(outputs, TaggedFor(r), i);
    } else {
      var j: nat :| j < |Remaining(outputs)| && LastTurn(Unmapped(outputs, rs), r, j, turns)
        && ps == [Remaining(outputs)[j]];
      WhereMember(outputs, UnusedTest(Used(outputs)), j);
      RemainingExact(outputs, ps[i]);
    }
  }

  lemma TaggedHere(outputs: seq<Output>, k: nat)
    requires k < |outputs| && outputs[k].recipient != ""
    ensures TaggedIndex(outputs, outputs[k].outputIndex)
  {
  }

  /** Two recipients that are given one index show a clash. */
  lemma TwiceIsClash(outputs: seq<Output>, rs: seq<string>, r: string, ps: seq<nat>, i: nat, r': string, ps': seq<nat>,
                     j: nat, turns: nat)
    requires turns <= |Unmapped(outputs, rs)| && Turn(outputs, rs, r, ps, turns) && Turn(outputs, rs, r', ps', turns)
    requires r != r' && i < |ps| && j < |ps'| && ps[i] < |outputs| && ps'[j] < |outputs|
    requires outputs[ps[i]].outputIndex == outputs[ps'[j]].outputIndex
    ensures Clash(outputs, ps[i], ps'[j])
  {
    GivenOutput(outputs, rs, r, ps, i, turns);
    GivenOutput(outputs, rs, r', ps', j, turns);
    if ps[i] == ps'[j] {
      AllocatedApart(outputs, rs, r, ps, i, r', ps', j, turns);
    }
    if outputs[ps[i]].recipient != "" {
      TaggedHere(outputs, ps[i]);
    }
    if outputs[ps'[j]].recipient != "" {
      TaggedHere(outputs, ps'[j]);
    }
  }

  lemma NoClashIsFair(outputs: seq<Output>, rs: seq<string>, result: map<string, seq<Output>>, pos: Positions)
    requires NoClash(outputs) && GoodResult(outputs, rs, result, pos)
    ensures !IndexGivenTwice(outputs, pos)
  {
    if IndexGivenTwice(outputs, pos) {
      var r, r', i: nat, j: nat :| SharesIndex(outputs, pos, r, i, r', j);
      var turns := |Unmapped(outputs, rs)|;
      assert Turn(outputs, rs, r, pos[r], turns) && Turn(outputs, rs, r', pos[r'], turns);
      TwiceIsClash(outputs, rs, r, pos[r], i, r', pos[r'], j, turns);
    }
  }

  // ----- The result for given recipients

  function LastIndex(unmapped: seq<string>, r: string): (j: nat)
    requires r in unmapped
    ensures LastTurn(unmapped, r, j, |unmapped|)
  {
    var n := |unmapped| - 1;
    if unmapped[n] == r then n else LastIndex(unmapped[..n], r)
  }

  function PositionsOf(outputs: seq<Output>, rs: seq<string>, r: string): seq<nat>
    requires r in rs && Succeeds(outputs, rs)
  {
    UnmappedMembers(outputs, rs, r);
    if HasTag(outputs, r) then Where(outputs, TaggedFor(r))
    else [Remaining(outputs)[LastIndex(Unmapped(outputs, rs), r)]]
  }

  lemma PositionsAreTurns(outputs: seq<Output>, rs: seq<string>, r: string)
    requires r in rs && Succeeds(outputs, rs)
    ensures Turn(outputs, rs, r, PositionsOf(outputs, rs, r), |Unmapped(outputs, rs)|)
    ensures InBounds(outputs, PositionsOf(outputs, rs, r))
  {
    UnmappedMembers(outputs, rs, r);
  }

  lemma ResultExists(outputs: seq<Output>, rs: seq<string>) returns (result: map<string, seq<Output>>, pos: Positions)
    requires Succeeds(outputs, rs)
    ensures GoodResult(outputs, rs, result, pos)
  {
    pos := map r | r in rs :: PositionsOf(outputs, rs, r);
    forall r | r in rs
      ensures Turn(outputs, rs, r, pos[r], |Unmapped(outputs, rs)|) && InBounds(outputs, pos[r])
    {
      PositionsAreTurns(outputs, rs, r);
    }
    result := map r | r in pos :: Pick(outputs, pos[r]);
  }

  // ----- A clash comes to light for some recipients

  function Longest(outputs: seq<Output>): (n: nat)
    ensures forall k :: 0 <= k < |outputs| ==> |outputs[k].recipient| <= n
  {
    if outputs == [] then 0
    else
      var n, m := Longest(outputs[..|outputs| - 1]), |outputs[|outputs| - 1].recipient|;
      if n < m then m else n
  }

  /** A name of the given length. */
  function Name(n: nat): (name: string)
    ensures |name| == n
  {
    seq(n, i => 'x')
  }

  lemma {:induction false} NoneTagged(outputs: seq<Output>, r: string)
    requires forall k :: 0 <= k < |outputs| ==> outputs[k].recipient != r
    ensures Filter(outputs, TaggedFor(r)) == []
  {
    if outputs != [] {
      NoneTagged(outputs[..|outputs| - 1], r);
    }
  }

  lemma LongNameIsUntagged(outputs: seq<Output>, n: nat)
    requires n > Longest(outputs)
    ensures !HasTag(outputs, Name(n))
  {
    NoneTagged(outputs, Name(n));
  }

  lemma {:induction false} AllWait(outputs: seq<Output>, rs: seq<string>)
    requires forall k :: 0 <= k < |rs| ==> !HasTag(outputs, rs[k])
    ensures Unmapped(outputs, rs) == rs
  {
    if rs != [] {
      AllWait(outputs, rs[..|rs| - 1]);
      assert rs == rs[..|rs| - 1] + [rs[|rs| - 1]];
    }
  }

  lemma TaggedClash(outputs: seq<Output>, k: nat, l: nat)
    returns (rs: seq<string>, result: map<string, seq<Output>>, pos: Positions)
    requires k < |outputs| && l < |outputs| && Clash(outputs, k, l) && outputs[k].recipient != ""
    ensures GoodResult(outputs, rs, result, pos) && IndexGivenTwice(outputs, pos)
    ensures rs == [outputs[k].recipient, outputs[l].recipient]
  {
    var r, s := outputs[k].recipient, outputs[l].recipient;
    var i := TaggedPosition(outputs, k);
    var j := TaggedPosition(outputs, l);
    rs := [r, s];
    assert rs[..1] == [r] && rs[..1][..0] == [] && Unmapped(outputs, rs[..1]) == [];
    result, pos := ResultExists(outputs, rs);
    assert Turn(outputs, rs, r, pos[r], 0) && Turn(outputs, rs, s, pos[s], 0);
    assert SharesIndex(outputs, pos, r, i, s, j);
  }

  lemma TaggedPosition(outputs: seq<Output>, k: nat) returns (i: nat)
    requires k < |outputs| && outputs[k].recipient != ""
    ensures HasTag(outputs, outputs[k].recipient)
    ensures i < |Where(outputs, TaggedFor(outputs[k].recipient))|
    ensures Where(outputs, TaggedFor(outputs[k].recipient))[i] == k
  {
    var test := TaggedFor(outputs[k].recipient);
    WhereComplete(outputs, test, k);
    PickWhere(outputs, test);
    i :| 0 <= i < |Where(outputs, test)| && Where(outputs, test)[i] == k;
  }

  /** Recipients x, z and y without tags, such that x has its last turn at a and y at b. */
  function Waiting(x: string, y: string, z: string, a: nat, b: nat): (rs: seq<string>)
    requires a < b
    ensures |rs| == b + 1
  {
    seq(b + 1, t => if t <= a then x else if t < b then z else y)
  }

  lemma WaitingLast(x: string, y: string, z: string, a: nat, b: nat, r: string, i: nat)
    requires a < b && x != y && x != z && y != z && (r == x || r == y)
    requires LastTurn(Waiting(x, y, z, a, b), r, i, b + 1)
    ensures i == if r == x then a else b
  {
    var rs := Waiting(x, y, z, a, b);
    assert rs[a] == x && rs[b] == y;
  }

  lemma OnlyTurn(outputs: seq<Output>, rs: seq<string>, r: string, ps: seq<nat>) returns (i: nat)
    requires !HasTag(outputs, r) && Turn(outputs, rs, r, ps, |Unmapped(outputs, rs)|)
    ensures i < |Remaining(outputs)| && LastTurn(Unmapped(outputs, rs), r, i, |Unmapped(outputs, rs)|)
    ensures ps == [Remaining(outputs)[i]]
  {
    i :| i < |Remaining(outputs)| && LastTurn(Unmapped(outputs, rs), r, i, |Unmapped(outputs, rs)|)
      && ps == [Remaining(outputs)[i]];
  }

  lemma WaitingResult(outputs: seq<Output>, rs: seq<string>, x: string, y: string, z: string, a: nat, b: nat)
    returns (result: map<string, seq<Output>>, pos: Positions)
    requires a < b < |Remaining(outputs)| && x != y && x != z && y != z
    requires !HasTag(outputs, x) && !HasTag(outputs, y) && rs == Waiting(x, y, z, a, b) && Unmapped(outputs, rs) == rs
    ensures GoodResult(outputs, rs, result, pos) && x in pos && y in pos
    ensures pos[x] == [Remaining(outputs)[a]] && pos[y] == [Remaining(outputs)[b]]
  {
    result, pos := ResultExists(outputs, rs);
    assert rs[a] == x && rs[b] == y;
    assert Turn(outputs, rs, x, pos[x], |rs|) && Turn(outputs, rs, y, pos[y], |rs|);
    var i := OnlyTurn(outputs, rs, x, pos[x]);
    var j := OnlyTurn(outputs, rs, y, pos[y]);
    WaitingLast(x, y, z, a, b, x, i);
    WaitingLast(x, y, z, a, b, y, j);
  }

  lemma WaitingUntagged(outputs: seq<Output>, x: string, y: string, z: string, a: nat, b: nat)
    requires a < b && !HasTag(outputs, x) && !HasTag(outputs, y) && !HasTag(outputs, z)
    ensures Unmapped(outputs, Waiting(x, y, z, a, b)) == Waiting(x, y, z, a, b)
  {
    AllWait(outputs, Waiting(x, y, z, a, b));
  }

  lemma FreeClash(outputs: seq<Output>, a: nat, b: nat)
    returns (rs: seq<string>, result: map<string, seq<Output>>, pos: Positions)
    requires a < b < |Remaining(outputs)|
    requires outputs[Remaining(outputs)[a]].outputIndex == outputs[Remaining(outputs)[b]].outputIndex
    ensures GoodResult(outputs, rs, result, pos) && IndexGivenTwice(outputs, pos)
  {
    var n := Longest(outputs);
    var x, y, z := Name(n + 1), Name(n + 2), Name(n + 3);
    LongNameIsUntagged(outputs, n + 1);
    LongNameIsUntagged(outputs, n + 2);
    LongNameIsUntagged(outputs, n + 3);
    WaitingUntagged(outputs, x, y, z, a, b);
    rs := Waiting(x, y, z, a, b);
    result, pos := WaitingResult(outputs, rs, x, y, z, a, b);
    assert SharesIndex(outputs, pos, x, 0, y, 0);
  }

  lemma ClashIsUnfair(outputs: seq<Output>, k: nat, l: nat)
    returns (rs: seq<string>, result: map<string, seq<Output>>, pos: Positions)
    requires k < |outputs| && l < |outputs| && Clash(outputs, k, l)
    ensures GoodResult(outputs, rs, result, pos) && IndexGivenTwice(outputs, pos)
  {
    if outputs[k].recipient != "" {
      rs, result, pos := TaggedClash(outputs, k, l);
    } else {
      RemainingExact(outputs, k);
      RemainingExact(outputs, l);
      var rest := Remaining(outputs);
      var a: nat :| a < |rest| && rest[a] == k;
      var b: nat :| b < |rest| && rest[b] == l;
      if a < b {
        rs, result, pos := FreeClash(outputs, a, b);
      } else {
        rs, result, pos := FreeClash(outputs, b, a);
      }
    }
  }

  ghost predicate FairFor(outputs: seq<Output>, rs: seq<string>) {
    forall result, pos :: GoodResult(outputs, rs, result, pos) ==> !IndexGivenTwice(outputs, pos)
  }

  /** Whatever the fee recipients, no output index goes to two of them, if and only if no two outputs
      of one index are tagged for different recipients or both free to be handed out. */
  lemma IndexFairIff(outputs: seq<Output>)
    ensures (forall rs :: FairFor(outputs, rs)) <==> NoClash(outputs)
  {
    if NoClash(outputs) {
      forall rs, result, pos | GoodResult(outputs, rs, result, pos)
        ensures !IndexGivenTwice(outputs, pos)
      {
        NoClashIsFair(outputs, rs, result, pos);
      }
    } else {
      var k: nat, l: nat :| k < |outputs| && l < |outputs| && Clash(outputs, k, l);
      var rs, result, pos := ClashIsUnfair(outputs, k, l);
      assert !FairFor(outputs, rs);
    }
  }

  /** One index tagged for two recipients goes to both. */
  lemma SharedTagGoesToBoth()
    ensures Clash([Output(1, "r", ""), Output(1, "s", "")], 0, 1)
    ensures !FairFor([Output(1, "r", ""), Output(1, "s", "")], ["r", "s"])
  {
    var outputs := [Output(1, "r", ""), Output(1, "s", "")];
    var rs, result, pos := TaggedClash(outputs, 0, 1);
    assert rs == ["r", "s"];
  }
}
