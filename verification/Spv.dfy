/**
 Simplified payment verification of a BEEF: the search for mined ancestors, their presence in
 the BUMPs, and what a successful verification means.
 */
module Spv {
  import opened Base
  import opened Powers
  import opened Merkle
  import opened Bumps
  import opened Inclusion

  datatype Input = Input(source: Hash, index: nat, sequence: nat)

  /** A transaction; `bumpIndex` is None for one that is not mined. Outputs are their values. */
  datatype Tx = Tx(id: Hash, inputs: seq<Input>, outputs: seq<u64>, lockTime: nat, bumpIndex: Option<u64>)

  datatype Beef = Beef(bumps: seq<Bump>, txs: seq<Tx>)

  datatype SpvError = NoOutputs | NoInputs | LockTimeAndSequence | InvalidParentTransactions | OutputValueTooHigh
                    | InvalidScript | CouldNotFindMinedParent | AncestorNotPresent | BadBump(BumpError) | NotConfirmed

  /** The first transaction with this id. */
  function FindParent(txs: seq<Tx>, id: Hash): (p: Option<Tx>)
    ensures p.Some? ==> p.value in txs && p.value.id == id
    ensures p.None? ==> forall t :: t in txs ==> t.id != id
  {
    if txs == [] then None else if txs[0].id == id then Some(txs[0]) else FindParent(txs[1..], id)
  }

  method FindParentForInput(input: Input, txs: seq<Tx>) returns (p: Option<Tx>)
    ensures p == FindParent(txs, input.source)
    ensures p.None? ==> forall t :: t in txs ==> t.id != input.source
    ensures p.Some? ==> p.value.id == input.source
    ensures p.Some? ==>
              exists i :: 0 <= i < |txs| && txs[i] == p.value && forall j :: 0 <= j < i ==> txs[j].id != input.source
  {
    for i := 0 to |txs|
      invariant FindParent(txs, input.source) == FindParent(txs[i..], input.source)
      invariant forall j :: 0 <= j < i ==> txs[j].id != input.source
    {
      if txs[i].id == input.source {
        return Some(txs[i]);
      }
      assert txs[i..][1..] == txs[i + 1..];
    }
    return None;
  }

  // ----- Ancestry as paths

  /** The transaction is in the list, and not mined. */
  predicate IsUnmined(txs: seq<Tx>, id: Hash) {
    FindParent(txs, id).Some? && FindParent(txs, id).value.bumpIndex.None?
  }

  predicate IsMined(txs: seq<Tx>, id: Hash) {
    FindParent(txs, id).Some? && FindParent(txs, id).value.bumpIndex.Some?
  }

  predicate IsParent(txs: seq<Tx>, child: Hash, parent: Hash) {
    && FindParent(txs, child).Some?
    && var inputs := FindParent(txs, child).value.inputs;
       exists k :: 0 <= k < |inputs| && inputs[k].source == parent
  }

  /** A path from parent to parent through transactions that are not mined. */
  ghost predicate IsPath(txs: seq<Tx>, start: Hash, path: seq<Hash>) {
    && |path| > 0 && path[0] == start
    && forall i :: 0 <= i < |path| - 1 ==> IsUnmined(txs, path[i]) && IsParent(txs, path[i], path[i + 1])
  }

  /** A mined transaction that a path from `start` leads to. */
  ghost predicate MinedVia(txs: seq<Tx>, start: Hash, id: Hash) {
    exists path :: MinedPath(txs, start, path, id)
  }

  ghost predicate MinedPath(txs: seq<Tx>, start: Hash, path: seq<Hash>, id: Hash) {
    IsPath(txs, start, path) && path[|path| - 1] == id && IsMined(txs, id)
  }

  /** A path from `start` leads to a transaction that is not in the list. */
  ghost predicate Broken(txs: seq<Tx>, start: Hash) {
    exists path :: BrokenPath(txs, start, path)
  }

  ghost predicate BrokenPath(txs: seq<Tx>, start: Hash, path: seq<Hash>) {
    IsPath(txs, start, path) && FindParent(txs, path[|path| - 1]).None?
  }

  ghost predicate MinedViaAny(txs: seq<Tx>, inputs: seq<Input>, id: Hash) {
    exists k :: 0 <= k < |inputs| && MinedVia(txs, inputs[k].source, id)
  }

  ghost predicate BrokenAny(txs: seq<Tx>, inputs: seq<Input>) {
    exists k :: 0 <= k < |inputs| && Broken(txs, inputs[k].source)
  }

  lemma PathTail(txs: seq<Tx>, start: Hash, path: seq<Hash>) returns (k: nat)
    requires IsPath(txs, start, path) && |path| > 1
    ensures IsUnmined(txs, start) && k < |FindParent(txs, start).value.inputs|
    ensures IsPath(txs, FindParent(txs, start).value.inputs[k].source, path[1..])
  {
    assert IsUnmined(txs, path[0]) && IsParent(txs, path[0], path[1]);
    k :| 0 <= k < |FindParent(txs, start).value.inputs| && FindParent(txs, start).value.inputs[k].source == path[1];
  }

  lemma PathCons(txs: seq<Tx>, start: Hash, k: nat, path: seq<Hash>)
    requires IsUnmined(txs, start) && k < |FindParent(txs, start).value.inputs|
    requires IsPath(txs, FindParent(txs, start).value.inputs[k].source, path)
    ensures IsPath(txs, start, [start] + path)
  {
    var longer := [start] + path;
    assert IsParent(txs, start, path[0]);
    forall i | 0 <= i < |longer| - 1
      ensures IsUnmined(txs, longer[i]) && IsParent(txs, longer[i], longer[i + 1])
    {
      if i > 0 {
        assert longer[i] == path[i - 1] && longer[i + 1] == path[i];
      }
    }
  }

  lemma MinedAbove(txs: seq<Tx>, start: Hash, path: seq<Hash>, id: Hash)
    requires MinedPath(txs, start, path, id)
    ensures || (IsMined(txs, start) && id == start)
            || (IsUnmined(txs, start) && MinedViaAny(txs, FindParent(txs, start).value.inputs, id))
  {
    if |path| > 1 {
      var k := PathTail(txs, start, path);
      assert MinedPath(txs, FindParent(txs, start).value.inputs[k].source, path[1..], id);
    }
  }

  lemma MinedBelow(txs: seq<Tx>, start: Hash, id: Hash)
    requires IsUnmined(txs, start) && MinedViaAny(txs, FindParent(txs, start).value.inputs, id)
    ensures MinedVia(txs, start, id)
  {
    var inputs := FindParent(txs, start).value.inputs;
    var k :| 0 <= k < |inputs| && MinedVia(txs, inputs[k].source, id);
    var path :| MinedPath(txs, inputs[k].source, path, id);
    PathCons(txs, start, k, path);
    assert MinedPath(txs, start, [start] + path, id);
  }

  /** What is mined above a transaction: itself, or what is mined above its inputs. */
  lemma MinedUnfolds(txs: seq<Tx>, start: Hash, id: Hash)
    ensures MinedVia(txs, start, id) <==>
            || (IsMined(txs, start) && id == start)
            || (IsUnmined(txs, start) && MinedViaAny(txs, FindParent(txs, start).value.inputs, id))
  {
    if MinedVia(txs, start, id) {
      var path :| MinedPath(txs, start, path, id);
      MinedAbove(txs, start, path, id);
    } else if IsMined(txs, start) && id == start {
      assert MinedPath(txs, start, [start], id);
    } else if IsUnmined(txs, start) && MinedViaAny(txs, FindParent(txs, start).value.inputs, id) {
      MinedBelow(txs, start, id);
    }
  }

  lemma BrokenAbove(txs: seq<Tx>, start: Hash, path: seq<Hash>)
    requires BrokenPath(txs, start, path)
    ensures || FindParent(txs, start).None?
            || (IsUnmined(txs, start) && BrokenAny(txs, FindParent(txs, start).value.inputs))
  {
    if |path| > 1 {
      var k := PathTail(txs, start, path);
      assert BrokenPath(txs, FindParent(txs, start).value.inputs[k].source, path[1..]);
    }
  }

  lemma BrokenBelow(txs: seq<Tx>, start: Hash)
    requires IsUnmined(txs, start) && BrokenAny(txs, FindParent(txs, start).value.inputs)
    ensures Broken(txs, start)
  {
    var inputs := FindParent(txs, start).value.inputs;
    var k :| 0 <= k < |inputs| && Broken(txs, inputs[k].source);
    var path :| BrokenPath(txs, inputs[k].source, path);
    PathCons(txs, start, k, path);
    assert BrokenPath(txs, start, [start] + path);
  }

  lemma BrokenUnfolds(txs: seq<Tx>, start: Hash)
    ensures Broken(txs, start) <==>
            || FindParent(txs, start).None?
            || (IsUnmined(txs, start) && BrokenAny(txs, FindParent(txs, start).value.inputs))
  {
    if Broken(txs, start) {
      var path :| BrokenPath(txs, start, path);
      BrokenAbove(txs, start, path);
    } else if FindParent(txs, start).None? {
      assert BrokenPath(txs, start, [start]);
    } else if IsUnmined(txs, start) && BrokenAny(txs, FindParent(txs, start).value.inputs) {
      BrokenBelow(txs, start);
    }
  }

  // ----- The search

  /** Ids found so far, with their transactions. */
  type Found = map<Hash, Tx>

  ghost predicate RightFound(txs: seq<Tx>, found: Found) {
    forall id :: id in found ==> FindParent(txs, id) == Some(found[id])
  }

  /** A measure that falls from each transaction to its parents: hashes make cycles impossible. */
  ghost predicate Ranked(txs: seq<Tx>, rank: Hash -> nat) {
    forall t, k :: t in txs && 0 <= k < |t.inputs| ==> rank(t.inputs[k].source) < rank(t.id)
  }

  /** Exactly what is mined above the inputs has been added. */
  ghost predicate Collected(txs: seq<Tx>, inputs: seq<Input>, before: Found, after: Found) {
    RightFound(txs, after) && forall id :: id in after <==> id in before || MinedViaAny(txs, inputs, id)
  }

  /** Exactly what is mined above one transaction has been added. */
  ghost predicate Added(txs: seq<Tx>, source: Hash, before: Found, after: Found) {
    RightFound(txs, after) && forall id :: id in after <==> id in before || MinedVia(txs, source, id)
  }

  lemma CollectedNone(txs: seq<Tx>, inputs: seq<Input>, before: Found)
    requires RightFound(txs, before)
    ensures Collected(txs, inputs[..0], before, before)
  {
  }

  lemma CollectedNext(txs: seq<Tx>, inputs: seq<Input>, k: nat, before: Found, mid: Found, after: Found)
    requires k < |inputs| && Collected(txs, inputs[..k], before, mid)
    requires Added(txs, inputs[k].source, mid, after)
    ensures Collected(txs, inputs[..k + 1], before, after)
  {
    forall id
      ensures MinedViaAny(txs, inputs[..k + 1], id) <==>
              MinedViaAny(txs, inputs[..k], id) || MinedVia(txs, inputs[k].source, id)
    {
      AnyNext(txs, inputs, k, id);
    }
  }

  lemma AnyNext(txs: seq<Tx>, inputs: seq<Input>, k: nat, id: Hash)
    requires k < |inputs|
    ensures MinedViaAny(txs, inputs[..k + 1], id) <==>
            MinedViaAny(txs, inputs[..k], id) || MinedVia(txs, inputs[k].source, id)
  {
    var some, more := inputs[..k], inputs[..k + 1];
    if MinedViaAny(txs, some, id) {
      var j :| 0 <= j < |some| && MinedVia(txs, some[j].source, id);
      assert more[j] == some[j];
    }
    if MinedVia(txs, inputs[k].source, id) {
      assert more[k] == inputs[k];
    }
    if MinedViaAny(txs, more, id) {
      var j :| 0 <= j < |more| && MinedVia(txs, more[j].source, id);
      if j < k {
        assert some[j] == more[j];
      }
    }
  }

  /** Adds what is mined above each input, in order, and stops at the first that fails. */
  method FindMinedAncestorsForInputs(inputs: seq<Input>, txs: seq<Tx>, before: Found, ghost rank: Hash -> nat,
                                     ghost bound: nat)
    returns (ok: bool, after: Found)
    requires RightFound(txs, before) && Ranked(txs, rank)
    requires forall k :: 0 <= k < |inputs| ==> rank(inputs[k].source) < bound
    ensures ok <==> !BrokenAny(txs, inputs)
    ensures ok ==> Collected(txs, inputs, before, after)
    decreases bound, 1
  {
    after := before;
    CollectedNone(txs, inputs, before);
    for k := 0 to |inputs|
      invariant forall j :: 0 <= j < k ==> !Broken(txs, inputs[j].source)
      invariant Collected(txs, inputs[..k], before, after)
    {
      var mid := after;
      ok, after := FindMinedAncestorsForInput(inputs[k], txs, mid, rank);
      if !ok {
        return false, before;
      }
      CollectedNext(txs, inputs, k, before, mid, after);
    }
    assert inputs[..|inputs|] == inputs;
    ok := true;
  }

  method FindMinedAncestorsForInput(input: Input, txs: seq<Tx>, before: Found, ghost rank: Hash -> nat)
    returns (ok: bool, after: Found)
    requires RightFound(txs, before) && Ranked(txs, rank)
    ensures ok <==> !Broken(txs, input.source)
    ensures ok ==> Added(txs, input.source, before, after)
    decreases rank(input.source), 2
  {
    BrokenUnfolds(txs, input.source);
    forall id
      ensures MinedVia(txs, input.source, id) <==>
              || (IsMined(txs, input.source) && id == input.source)
              || (IsUnmined(txs, input.source) && MinedViaAny(txs, FindParent(txs, input.source).value.inputs, id))
    {
      MinedUnfolds(txs, input.source, id);
    }
    var parent := FindParentForInput(input, txs);
    if parent.None? {
      return false, before;
    }
    if parent.value.bumpIndex.Some? {
      return true, before[parent.value.id := parent.value];
    }
    ok, after := FindMinedAncestorsForInputs(parent.value.inputs, txs, before, rank, rank(input.source));
  }

  /** Exactly the mined transactions that are reached through unmined ones; fails exactly when
      some such path meets an input whose transaction is not in the list. */
  method FindMinedAncestors(tx: Tx, txs: seq<Tx>, ghost rank: Hash -> nat) returns (ok: bool, found: Found)
    requires Ranked(txs, rank)
    ensures ok <==> !BrokenAny(txs, tx.inputs)
    ensures ok ==> forall id :: id in found <==> MinedViaAny(txs, tx.inputs, id)
    ensures ok ==> forall id :: id in found ==> FindParent(txs, id) == Some(found[id])
  {
    ghost var bound := RankBound(tx.inputs, rank);
    ok, found := FindMinedAncestorsForInputs(tx.inputs, txs, map[], rank, bound);
  }

  ghost function RankBound(inputs: seq<Input>, rank: Hash -> nat): (bound: nat)
    ensures forall k :: 0 <= k < |inputs| ==> rank(inputs[k].source) < bound
  {
    if inputs == [] then 0
    else
      var b, r := RankBound(inputs[..|inputs| - 1], rank), rank(inputs[|inputs| - 1].source);
      if r < b then b else r + 1
  }

  // ----- Presence in the BUMPs

  const MAX_INT := 0x7fff_ffff_ffff_ffff

  /** The transaction is a leaf of the BUMP that it names. */
  predicate InBumps(bumps: seq<Bump>, t: Tx)
    requires forall b :: b in bumps ==> |b.path| > 0
  {
    t.bumpIndex.Some? && t.bumpIndex.value <= MAX_INT && t.bumpIndex.value < |bumps| &&
    exists f :: f in bumps[t.bumpIndex.value].path[0] && f.hash == t.id
  }

  method ExistsInBumps(t: Tx, bumps: seq<Bump>) returns (found: bool)
    requires t.bumpIndex.Some? && forall b :: b in bumps ==> |b.path| > 0
    ensures found <==> InBumps(bumps, t)
    ensures found <==>
              && t.bumpIndex.value < |bumps| && t.bumpIndex.value < 0x8000_0000_0000_0000
              && exists f :: f in bumps[t.bumpIndex.value].path[0] && f.hash == t.id
  {
    if t.bumpIndex.value > MAX_INT {
      return false;
    }
    var i := t.bumpIndex.value;
    if |bumps| > i {
      var leaves := bumps[i].path[0];
      for j := 0 to |leaves|
        invariant forall k :: 0 <= k < j ==> leaves[k].hash != t.id
      {
        if leaves[j].hash == t.id {
          return true;
        }
      }
    }
    return false;
  }

  /** Every mined ancestor of the transaction is a leaf of its BUMP. */
  ghost predicate AncestorsPresent(beef: Beef, tx: Tx)
    requires forall b :: b in beef.bumps ==> |b.path| > 0
  {
    && !BrokenAny(beef.txs, tx.inputs)
    && forall id :: MinedViaAny(beef.txs, tx.inputs, id) ==>
         FindParent(beef.txs, id).Some? && InBumps(beef.bumps, FindParent(beef.txs, id).value)
  }

  method EnsureAncestorsArePresentInBump(tx: Tx, beef: Beef, ghost rank: Hash -> nat) returns (error: Option<SpvError>)
    requires Ranked(beef.txs, rank) && forall b :: b in beef.bumps ==> |b.path| > 0
    ensures error.None? <==> AncestorsPresent(beef, tx)
    ensures error == Some(CouldNotFindMinedParent) <==> BrokenAny(beef.txs, tx.inputs)
    ensures error in {None, Some(CouldNotFindMinedParent), Some(AncestorNotPresent)}
  {
    var ok, found := FindMinedAncestors(tx, beef.txs, rank);
    if !ok {
      return Some(CouldNotFindMinedParent);
    }
    var todo := found.Keys;
    while todo != {}
      invariant todo <= found.Keys
      invariant forall id :: id in found && id !in todo ==> InBumps(beef.bumps, found[id])
      decreases todo
    {
      var id :| id in todo;
      todo := todo - {id};
      MinedIsMined(beef.txs, tx.inputs, id);
      var exists_ := ExistsInBumps(found[id], beef.bumps);
      if !exists_ {
        return Some(AncestorNotPresent);
      }
    }
    return None;
  }

  lemma MinedIsMined(txs: seq<Tx>, inputs: seq<Input>, id: Hash)
    requires MinedViaAny(txs, inputs, id)
    ensures IsMined(txs, id)
  {
  }

  // ----- The other checks

  /** Every input names an output that its parent has, if the parent is there. */
  predicate Spends(txs: seq<Tx>, input: Input) {
    FindParent(txs, input.source).Some? ==> input.index < |FindParent(txs, input.source).value.outputs|
  }

  predicate AllSpend(txs: seq<Tx>, inputs: seq<Input>) {
    forall k :: 0 <= k < |inputs| ==> Spends(txs, inputs[k])
  }

  function InputValue(txs: seq<Tx>, input: Input): nat
    requires Spends(txs, input)
  {
    if FindParent(txs, input.source).None? then 0 else FindParent(txs, input.source).value.outputs[input.index]
  }

  function InputSum(txs: seq<Tx>, inputs: seq<Input>): nat
    requires AllSpend(txs, inputs)
  {
    if inputs == [] then 0 else InputSum(txs, inputs[..|inputs| - 1]) + InputValue(txs, inputs[|inputs| - 1])
  }

  function OutputSum(outputs: seq<u64>): nat {
    if outputs == [] then 0 else OutputSum(outputs[..|outputs| - 1]) + outputs[|outputs| - 1]
  }

  lemma WrapMod(sum: nat, acc: u64, x: u64)
    requires acc == sum % TWO64
    ensures WrapAdd(acc, x) == (sum + x) % TWO64
  {
  }

  predicate ParentsPresent(txs: seq<Tx>, tx: Tx) {
    forall k :: 0 <= k < |tx.inputs| ==> FindParent(txs, tx.inputs[k].source).Some?
  }

  /** The running sums, as 64-bit addition leaves them. */
  function WrappedInputs(txs: seq<Tx>, inputs: seq<Input>): u64
    requires AllSpend(txs, inputs)
  {
    if inputs == [] then 0
    else WrapAdd(WrappedInputs(txs, inputs[..|inputs| - 1]), InputValue(txs, inputs[|inputs| - 1]))
  }

  function WrappedOutputs(outputs: seq<u64>): u64 {
    if outputs == [] then 0 else WrapAdd(WrappedOutputs(outputs[..|outputs| - 1]), outputs[|outputs| - 1])
  }

  lemma {:induction false} WrappedInputsIsMod(txs: seq<Tx>, inputs: seq<Input>)
    requires AllSpend(txs, inputs)
    ensures WrappedInputs(txs, inputs) == InputSum(txs, inputs) % TWO64
  {
    if inputs != [] {
      var init := inputs[..|inputs| - 1];
      WrappedInputsIsMod(txs, init);
      WrapMod(InputSum(txs, init), WrappedInputs(txs, init), InputValue(txs, inputs[|inputs| - 1]));
    }
  }

  lemma {:induction false} WrappedOutputsIsMod(outputs: seq<u64>)
    ensures WrappedOutputs(outputs) == OutputSum(outputs) % TWO64
  {
    if outputs != [] {
      var init := outputs[..|outputs| - 1];
      WrappedOutputsIsMod(init);
      WrapMod(OutputSum(init), WrappedOutputs(init), outputs[|outputs| - 1]);
    }
  }

  lemma WrappedInputsStep(txs: seq<Tx>, inputs: seq<Input>, k: nat)
    requires k < |inputs| && AllSpend(txs, inputs)
    ensures Spends(txs, inputs[k])
    ensures WrappedInputs(txs, inputs[..k + 1]) == WrapAdd(WrappedInputs(txs, inputs[..k]), InputValue(txs, inputs[k]))
  {
    assert inputs[..k + 1][..k] == inputs[..k];
  }

  /** The running sum of the outputs that are spent; None when a parent is missing. */
  method SumInputs(tx: Tx, txs: seq<Tx>) returns (sum: Option<u64>)
    requires AllSpend(txs, tx.inputs)
    ensures sum.Some? <==> ParentsPresent(txs, tx)
    ensures sum.Some? ==> sum.value == WrappedInputs(txs, tx.inputs)
  {
    var inputSum: u64 := 0;
    for k := 0 to |tx.inputs|
      invariant forall j :: 0 <= j < k ==> FindParent(txs, tx.inputs[j].source).Some?
      invariant inputSum == WrappedInputs(txs, tx.inputs[..k])
    {
      var parent := FindParentForInput(tx.inputs[k], txs);
      if parent.None? {
        return None;
      }
      WrappedInputsStep(txs, tx.inputs, k);
      inputSum := WrapAdd(inputSum, parent.value.outputs[tx.inputs[k].index]);
    }
    assert tx.inputs[..|tx.inputs|] == tx.inputs;
    return Some(inputSum);
  }

  method SumOutputs(tx: Tx) returns (outputSum: u64)
    ensures outputSum == WrappedOutputs(tx.outputs)
  {
    outputSum := 0;
    for k := 0 to |tx.outputs|
      invariant outputSum == WrappedOutputs(tx.outputs[..k])
    {
      assert tx.outputs[..k + 1][..k] == tx.outputs[..k];
      outputSum := WrapAdd(outputSum, tx.outputs[k]);
    }
    assert tx.outputs[..|tx.outputs|] == tx.outputs;
  }

  /** Sums that wrap equally often, or whose order the wrapping does not turn around. */
  predicate WrapAlike(spent: nat, paid: nat) {
    || spent / TWO64 == paid / TWO64
    || (spent / TWO64 > paid / TWO64 && spent % TWO64 > paid % TWO64)
    || (spent / TWO64 < paid / TWO64 && spent % TWO64 <= paid % TWO64)
  }

  lemma SumCheckExact(spent: nat, paid: nat)
    ensures (spent % TWO64 > paid % TWO64 <==> spent > paid) <==> WrapAlike(spent, paid)
  {
    QuotientOrder(spent, paid);
    QuotientOrder(paid, spent);
  }

  lemma QuotientOrder(a: nat, b: nat)
    ensures a / TWO64 < b / TWO64 ==> a < b
    ensures a / TWO64 == b / TWO64 ==> (a < b <==> a % TWO64 < b % TWO64)
  {
  }

  /** An input counts the output that its index names, and inputs and outputs add up. */
  lemma SumsOfOne(txs: seq<Tx>, input: Input, parent: Tx, x: u64)
    requires FindParent(txs, input.source) == Some(parent) && input.index < |parent.outputs|
    ensures InputSum(txs, [input]) == parent.outputs[input.index] && OutputSum([x]) == x
    ensures InputSum(txs, []) == 0 && OutputSum([]) == 0
  {
    assert [input][..0] == [] && [x][..0] == [];
  }

  lemma {:induction false} InputSumAdds(txs: seq<Tx>, a: seq<Input>, b: seq<Input>)
    requires AllSpend(txs, a) && AllSpend(txs, b)
    ensures AllSpend(txs, a + b) && InputSum(txs, a + b) == InputSum(txs, a) + InputSum(txs, b)
    decreases |b|
  {
    if b == [] {
      assert a + b == a;
    } else {
      var init, all := b[..|b| - 1], a + b;
      InputSumAdds(txs, a, init);
      assert all[..|all| - 1] == a + init;
      assert forall k :: 0 <= k < |all| ==> all[k] == if k < |a| then a[k] else b[k - |a|];
    }
  }

  lemma {:induction false} OutputSumAdds(a: seq<u64>, b: seq<u64>)
    ensures OutputSum(a + b) == OutputSum(a) + OutputSum(b)
    decreases |b|
  {
    if b == [] {
      assert a + b == a;
    } else {
      OutputSumAdds(a, b[..|b| - 1]);
      assert (a + b)[..|a + b| - 1] == a + b[..|b| - 1];
    }
  }

  /** The sums are taken modulo 2^64; below that the check compares what is really spent. */
  method ValidateSatoshisSum(tx: Tx, txs: seq<Tx>) returns (error: Option<SpvError>)
    requires AllSpend(txs, tx.inputs)
    ensures error == Some(InvalidParentTransactions) <==> !ParentsPresent(txs, tx)
    ensures error in {None, Some(InvalidParentTransactions), Some(OutputValueTooHigh)}
    ensures error.None? <==> ParentsPresent(txs, tx) && InputSum(txs, tx.inputs) % TWO64 > OutputSum(tx.outputs) % TWO64
    ensures InputSum(txs, tx.inputs) < TWO64 && OutputSum(tx.outputs) < TWO64 ==>
              (error.None? <==> ParentsPresent(txs, tx) && InputSum(txs, tx.inputs) > OutputSum(tx.outputs))
    ensures ParentsPresent(txs, tx) ==>
              ((error.None? <==> InputSum(txs, tx.inputs) > OutputSum(tx.outputs)) <==>
               WrapAlike(InputSum(txs, tx.inputs), OutputSum(tx.outputs)))
    ensures |tx.inputs| == 1 && ParentsPresent(txs, tx) ==>
              var input := tx.inputs[0];
              (error.None? <==>
                 FindParent(txs, input.source).value.outputs[input.index] > OutputSum(tx.outputs) % TWO64)
  {
    var inputSum := SumInputs(tx, txs);
    if inputSum.None? {
      return Some(InvalidParentTransactions);
    }
    var outputSum := SumOutputs(tx);
    WrappedInputsIsMod(txs, tx.inputs);
    WrappedOutputsIsMod(tx.outputs);
    SumCheckExact(InputSum(txs, tx.inputs), OutputSum(tx.outputs));
    if |tx.inputs| == 1 && ParentsPresent(txs, tx) {
      var input := tx.inputs[0];
      SumsOfOne(txs, input, FindParent(txs, input.source).value, 0);
      assert tx.inputs == [input];
    }
    return if inputSum.value <= outputSum then Some(OutputValueTooHigh) else None;
  }

  predicate LockTimeOk(tx: Tx) {
    tx.lockTime == 0 || forall i :: i in tx.inputs ==> i.sequence == 0xffff_ffff
  }

  method ValidateLockTime(tx: Tx) returns (ok: bool)
    ensures ok <==> LockTimeOk(tx)
    ensures ok <==> tx.lockTime == 0 || forall k :: 0 <= k < |tx.inputs| ==> tx.inputs[k].sequence == 0xffff_ffff
  {
    if tx.lockTime == 0 {
      return true;
    }
    for k := 0 to |tx.inputs|
      invariant forall j :: 0 <= j < k ==> tx.inputs[j].sequence == 0xffff_ffff
    {
      if tx.inputs[k].sequence != 0xffff_ffff {
        return false;
      }
    }
    return true;
  }

  /** The script interpreter: whether input k of the transaction may spend from the parent. */
  type Script = (Tx, Tx, nat) -> bool

  predicate ScriptsOk(script: Script, txs: seq<Tx>, tx: Tx) {
    forall k :: 0 <= k < |tx.inputs| ==> ScriptOk(script, txs, tx, k)
  }

  predicate ScriptOk(script: Script, txs: seq<Tx>, tx: Tx, k: nat)
    requires k < |tx.inputs|
  {
    FindParent(txs, tx.inputs[k].source).Some? && script(tx, FindParent(txs, tx.inputs[k].source).value, k)
  }

  lemma ScriptsPlain(script: Script, txs: seq<Tx>, tx: Tx)
    ensures ScriptsOk(script, txs, tx) <==> forall k :: 0 <= k < |tx.inputs| ==>
              FindParent(txs, tx.inputs[k].source).Some? && script(tx, FindParent(txs, tx.inputs[k].source).value, k)
  {
    if ScriptsOk(script, txs, tx) {
      forall k | 0 <= k < |tx.inputs|
        ensures FindParent(txs, tx.inputs[k].source).Some?
        ensures script(tx, FindParent(txs, tx.inputs[k].source).value, k)
      {
        assert ScriptOk(script, txs, tx, k);
      }
    }
  }

  method ValidateScripts(script: Script, tx: Tx, txs: seq<Tx>) returns (ok: bool)
    ensures ok <==> ScriptsOk(script, txs, tx)
    ensures ok <==> forall k :: 0 <= k < |tx.inputs| ==>
              FindParent(txs, tx.inputs[k].source).Some? && script(tx, FindParent(txs, tx.inputs[k].source).value, k)
  {
    ScriptsPlain(script, txs, tx);
    for k := 0 to |tx.inputs|
      invariant forall j :: 0 <= j < k ==> ScriptOk(script, txs, tx, j)
    {
      var parent := FindParentForInput(tx.inputs[k], txs);
      if parent.None? || !script(tx, parent.value, k) {
        assert !ScriptOk(script, txs, tx, k);
        return false;
      }
    }
    return true;
  }

  // ----- The whole verification

  /** The inputs of a transaction that is not mined name outputs that their parents have. */
  predicate Spendable(txs: seq<Tx>, t: Tx) {
    t.bumpIndex.None? ==> AllSpend(txs, t.inputs)
  }

  predicate TxOk(script: Script, txs: seq<Tx>, t: Tx)
    requires Spendable(txs, t)
  {
    && t.outputs != [] && t.inputs != [] && LockTimeOk(t)
    && (t.bumpIndex.None? ==>
          && ParentsPresent(txs, t) && InputSum(txs, t.inputs) % TWO64 > OutputSum(t.outputs) % TWO64
          && ScriptsOk(script, txs, t))
  }

  /** The first check that fails. */
  function TxError(script: Script, txs: seq<Tx>, t: Tx): (error: Option<SpvError>)
    requires Spendable(txs, t)
    ensures error.None? <==> TxOk(script, txs, t)
  {
    if t.outputs == [] then Some(NoOutputs)
    else if t.inputs == [] then Some(NoInputs)
    else if !LockTimeOk(t) then Some(LockTimeAndSequence)
    else if t.bumpIndex.Some? then None
    else if !ParentsPresent(txs, t) then Some(InvalidParentTransactions)
    else if InputSum(txs, t.inputs) % TWO64 <= OutputSum(t.outputs) % TWO64 then Some(OutputValueTooHigh)
    else if !ScriptsOk(script, txs, t) then Some(InvalidScript)
    else None
  }

  /** The first transaction that is not in order, and why. */
  ghost predicate FirstBad(script: Script, txs: seq<Tx>, k: nat, error: SpvError)
    requires k < |txs| && forall t :: t in txs ==> Spendable(txs, t)
  {
    TxError(script, txs, txs[k]) == Some(error) && forall j :: 0 <= j < k ==> TxOk(script, txs, txs[j])
  }

  method ValidateTx(script: Script, txs: seq<Tx>, t: Tx) returns (error: Option<SpvError>)
    requires Spendable(txs, t)
    ensures error == TxError(script, txs, t)
  {
    if |t.outputs| == 0 {
      return Some(NoOutputs);
    }
    if |t.inputs| == 0 {
      return Some(NoInputs);
    }
    var lockTimeOk := ValidateLockTime(t);
    if !lockTimeOk {
      return Some(LockTimeAndSequence);
    }
    if t.bumpIndex.None? {
      error := ValidateSatoshisSum(t, txs);
      if error.Some? {
        return error;
      }
      var scriptsOk := ValidateScripts(script, t, txs);
      if !scriptsOk {
        return Some(InvalidScript);
      }
    }
    return None;
  }

  /** A Merkle root to be confirmed; None when a BUMP has no transaction leaf. */
  datatype Request = Request(root: Option<Hash>, blockHeight: u64)

  /** All transaction leaves of the BUMP evaluate to the requested root. */
  ghost predicate IsRequest(H: Hasher, bump: Bump, r: Request)
    requires |bump.path| > 0
  {
    && r.blockHeight == bump.blockHeight
    && (r.root.Some? <==> exists f :: IsTx(bump, f))
    && (r.root.Some? ==> forall f :: IsTx(bump, f) ==> Climb(H, bump.path, 0, f) == Ok(r.root.value))
  }

  lemma RequestUnique(H: Hasher, bump: Bump, r: Request, r': Request)
    requires |bump.path| > 0 && IsRequest(H, bump, r) && IsRequest(H, bump, r')
    ensures r == r'
  {
    if r.root.Some? {
      var f :| IsTx(bump, f);
      assert Climb(H, bump.path, 0, f) == Ok(r.root.value) == Ok(r'.root.value);
    }
  }

  ghost predicate AreRequests(H: Hasher, bumps: seq<Bump>, rs: seq<Request>)
    requires forall b :: b in bumps ==> |b.path| > 0
  {
    |rs| == |bumps| && forall i :: 0 <= i < |bumps| ==> IsRequest(H, bumps[i], rs[i])
  }

  lemma RequestsUnique(H: Hasher, bumps: seq<Bump>, rs: seq<Request>, rs': seq<Request>)
    requires (forall b :: b in bumps ==> |b.path| > 0) && AreRequests(H, bumps, rs) && AreRequests(H, bumps, rs')
    ensures rs == rs'
  {
    forall i | 0 <= i < |rs|
      ensures rs[i] == rs'[i]
    {
      RequestUnique(H, bumps[i], rs[i], rs'[i]);
    }
  }

  method GetMerkleRootsVerificationRequests(H: Hasher, bumps: seq<Bump>) returns (rs: Result<seq<Request>, BumpError>)
    requires forall b :: b in bumps ==> |b.path| > 0
    ensures rs.Ok? ==> AreRequests(H, bumps, rs.value)
    ensures rs.Err? ==> forall reqs :: !AreRequests(H, bumps, reqs)
  {
    var items: seq<Request> := [];
    for i := 0 to |bumps|
      invariant |items| == i && forall j :: 0 <= j < i ==> IsRequest(H, bumps[j], items[j])
    {
      var root := CalculateMerkleRoot(H, bumps[i]);
      if root.Err? {
        assert forall r :: !IsRequest(H, bumps[i], r);
        return Err(root.error);
      }
      items := items + [Request(root.value, bumps[i].blockHeight)];
    }
    return Ok(items);
  }

  /** What has to hold of a BEEF: every transaction is in order, every mined ancestor of the
      last one is a leaf of its BUMP, and the roots of all BUMPs are confirmed. */
  ghost predicate Verified(H: Hasher, beef: Beef, script: Script, confirms: seq<Request> -> bool)
    requires WellFormed(beef)
  {
    && (forall t :: t in beef.txs ==> TxOk(script, beef.txs, t))
    && AncestorsPresent(beef, beef.txs[|beef.txs| - 1])
    && exists rs :: AreRequests(H, beef.bumps, rs) && confirms(rs)
  }

  /** What decoding leaves to be relied on. */
  ghost predicate WellFormed(beef: Beef) {
    && |beef.txs| > 0
    && (forall b :: b in beef.bumps ==> |b.path| > 0)
    && (forall t :: t in beef.txs ==> Spendable(beef.txs, t))
  }

  method ExecuteSimplifiedPaymentVerification(H: Hasher, beef: Beef, script: Script, confirms: seq<Request> -> bool,
                                              ghost rank: Hash -> nat)
    returns (error: Option<SpvError>)
    requires WellFormed(beef) && Ranked(beef.txs, rank)
    ensures error.None? <==> Verified(H, beef, script, confirms)
    ensures (exists t :: t in beef.txs && !TxOk(script, beef.txs, t)) ==>
              error.Some? && exists k: nat :: k < |beef.txs| && FirstBad(script, beef.txs, k, error.value)
    ensures (forall t :: t in beef.txs ==> TxOk(script, beef.txs, t)) ==>
              && (error == Some(CouldNotFindMinedParent) <==> BrokenAny(beef.txs, beef.txs[|beef.txs| - 1].inputs))
              && (error == Some(AncestorNotPresent) <==>
                    && !BrokenAny(beef.txs, beef.txs[|beef.txs| - 1].inputs)
                    && !AncestorsPresent(beef, beef.txs[|beef.txs| - 1]))
              && (error == Some(NotConfirmed) <==>
                    && AncestorsPresent(beef, beef.txs[|beef.txs| - 1])
                    && exists rs :: AreRequests(H, beef.bumps, rs) && !confirms(rs))
  {
    for k := 0 to |beef.txs|
      invariant forall j :: 0 <= j < k ==> TxOk(script, beef.txs, beef.txs[j])
    {
      var bad := ValidateTx(script, beef.txs, beef.txs[k]);
      if bad.Some? {
        assert FirstBad(script, beef.txs, k, bad.value);
        return bad;
      }
    }
    var absent := EnsureAncestorsArePresentInBump(beef.txs[|beef.txs| - 1], beef, rank);
    if absent.Some? {
      return absent;
    }
    var requests := GetMerkleRootsVerificationRequests(H, beef.bumps);
    if requests.Err? {
      return Some(BadBump(requests.error));
    }
    forall rs | AreRequests(H, beef.bumps, rs)
      ensures rs == requests.value
    {
      RequestsUnique(H, beef.bumps, rs, requests.value);
    }
    return if confirms(requests.value) then None else Some(NotConfirmed);
  }

  // ----- What verification proves

  /** The block's transactions, by height. */
  type Blocks = u64 -> seq<Hash>

  predicate RootOfBlock(H: Hasher, blocks: Blocks, r: Request) {
    && |blocks(r.blockHeight)| >= 1
    && (r.root.Some? ==> r.root.value == Root(H, blocks(r.blockHeight)))
  }

  /** Only roots of blocks are confirmed. */
  ghost predicate Trusted(H: Hasher, confirms: seq<Request> -> bool, blocks: Blocks) {
    forall rs :: confirms(rs) ==> forall i :: 0 <= i < |rs| ==> RootOfBlock(H, blocks, rs[i])
  }

  ghost predicate Decoded(beef: Beef) {
    forall b :: b in beef.bumps ==> |b.path| > 0 && FlagsExclusive(b.path)
  }

  /** The leaf at position p of the BUMP is in the block at the BUMP's height, or the BUMP
      exhibits a collision with that block. */
  ghost predicate ProvenIn(H: Hasher, blocks: Blocks, bump: Bump, p: nat)
    requires |bump.path| > 0 && p < |bump.path[0]| && |blocks(bump.blockHeight)| >= 1
  {
    || Placed(H, blocks(bump.blockHeight), |bump.path|, bump.path[0][p].hash)
    || CollisionFound(H, blocks(bump.blockHeight), bump.path)
  }

  lemma ReadLeafIsProven(H: Hasher, blocks: Blocks, bump: Bump, r: Request, p: nat)
    requires |bump.path| > 0 && FlagsExclusive(bump.path) && IsRequest(H, bump, r) && RootOfBlock(H, blocks, r)
    requires p < |bump.path[0]| && !bump.path[0][p].duplicate && IsRead(bump.path, p)
    ensures ProvenIn(H, blocks, bump, p)
  {
    if bump.path[0][p].txId {
      assert IsTx(bump, bump.path[0][p]);
    } else {
      var f :| f in bump.path[0] && f.txId && (ReadAsPair(bump.path, f, p) || ReadAsChild(bump.path, f, p));
      assert IsTx(bump, f);
    }
    forall f | Flagged(bump.path, f)
      ensures Climb(H, bump.path, 0, f) == Ok(Root(H, blocks(bump.blockHeight)))
    {
      assert IsTx(bump, f);
    }
    ReadLeafIsInBlock(H, blocks(bump.blockHeight), bump.path, p);
  }

  /** From a successful verification: every mined ancestor is a leaf of its BUMP. Where that leaf
      is flagged as a transaction, or read for a flagged one, and the BUMP has as many levels as
      the block's tree, the ancestor is in the block at the BUMP's height. With fewer or more
      levels it has only the place that `Placed` says. All this unless a collision is exhibited. */
  lemma AncestorIsInBlock(H: Hasher, beef: Beef, script: Script, confirms: seq<Request> -> bool, blocks: Blocks,
                          id: Hash)
    returns (bump: Bump)
    requires WellFormed(beef) && Decoded(beef) && Verified(H, beef, script, confirms) && Trusted(H, confirms, blocks)
    requires MinedViaAny(beef.txs, beef.txs[|beef.txs| - 1].inputs, id)
    ensures FindParent(beef.txs, id).Some? && InBumps(beef.bumps, FindParent(beef.txs, id).value)
    ensures bump == beef.bumps[FindParent(beef.txs, id).value.bumpIndex.value] && |blocks(bump.blockHeight)| >= 1
    ensures exists p :: 0 <= p < |bump.path[0]| && bump.path[0][p].hash == id
    ensures forall p :: IsProofOf(bump, p, id) ==> ProvenIn(H, blocks, bump, p)
    ensures (exists p :: IsProofOf(bump, p, id)) && |bump.path| == CeilLog2(|blocks(bump.blockHeight)|) ==>
              id in blocks(bump.blockHeight) || CollisionFound(H, blocks(bump.blockHeight), bump.path)
  {
    var r;
    bump, r := AncestorBump(H, beef, script, confirms, blocks, id);
    forall p | IsProofOf(bump, p, id)
      ensures ProvenIn(H, blocks, bump, p)
    {
      ReadLeafIsProven(H, blocks, bump, r, p);
    }
    PlacedAtFullHeight(H, blocks(bump.blockHeight), id);
  }

  lemma AncestorBump(H: Hasher, beef: Beef, script: Script, confirms: seq<Request> -> bool, blocks: Blocks, id: Hash)
    returns (bump: Bump, r: Request)
    requires WellFormed(beef) && Decoded(beef) && Verified(H, beef, script, confirms) && Trusted(H, confirms, blocks)
    requires MinedViaAny(beef.txs, beef.txs[|beef.txs| - 1].inputs, id)
    ensures FindParent(beef.txs, id).Some? && InBumps(beef.bumps, FindParent(beef.txs, id).value)
    ensures bump == beef.bumps[FindParent(beef.txs, id).value.bumpIndex.value] && bump in beef.bumps
    ensures exists p :: 0 <= p < |bump.path[0]| && bump.path[0][p].hash == id
    ensures IsRequest(H, bump, r) && RootOfBlock(H, blocks, r) && r.blockHeight == bump.blockHeight
  {
    var rs :| AreRequests(H, beef.bumps, rs) && confirms(rs);
    var t := FindParent(beef.txs, id).value;
    assert t.id == id;
    bump, r := beef.bumps[t.bumpIndex.value], rs[t.bumpIndex.value];
    var f :| f in bump.path[0] && f.hash == id;
    assert IsRequest(H, bump, r) && RootOfBlock(H, blocks, r);
  }

  /** A leaf for this id that is flagged or read for a flagged one. */
  predicate IsProofOf(bump: Bump, p: int, id: Hash)
    requires |bump.path| > 0
  {
    0 <= p < |bump.path[0]| && bump.path[0][p].hash == id && !bump.path[0][p].duplicate && IsRead(bump.path, p)
  }

  /** A bottom leaf that is not read can carry any hash: the root that is requested stays. */
  lemma UnreadLeafIsNotProven(H: Hasher, bump: Bump, p: nat, x: Hash, r: Request)
    requires |bump.path| > 0 && p < |bump.path[0]| && !IsRead(bump.path, p)
    ensures IsRequest(H, bump.(path := Rehashed(bump.path, p, x)), r) <==> IsRequest(H, bump, r)
  {
    var other := bump.(path := Rehashed(bump.path, p, x));
    forall f
      ensures IsTx(other, f) <==> IsTx(bump, f)
      ensures IsTx(bump, f) ==> Climb(H, other.path, 0, f) == Climb(H, bump.path, 0, f)
    {
      UnreadLeafIsFree(H, bump.path, p, x, f);
      assert IsTx(other, f) <==> Flagged(other.path, f);
      assert IsTx(bump, f) <==> Flagged(bump.path, f);
    }
  }

  // ----- Ancestors that are not in the block

  /** A payment that spends x, which claims to be mined in the given BUMP. */
  function SpendingBeef(bump: Bump, x: Hash, pay: Hash): Beef {
    Beef([bump], [Tx(x, [Input(ZERO, 0, 0)], [10], 0, Some(0)), Tx(pay, [Input(x, 0, 0)], [5], 0, None)])
  }

  /** A script interpreter that passes everything. */
  const ANY_SCRIPT: Script := (t: Tx, p: Tx, k: nat) => true

  /** A service that confirms one root. */
  function Only(r: Request): seq<Request> -> bool {
    (rs: seq<Request>) => rs == [r]
  }

  lemma SpendingTransactions(bump: Bump, x: Hash, pay: Hash, f: Leaf)
    requires pay != x && |bump.path| > 0 && FlagsExclusive(bump.path) && f in bump.path[0] && f.hash == x
    ensures var beef := SpendingBeef(bump, x, pay);
            && WellFormed(beef) && Decoded(beef)
            && (forall t :: t in beef.txs ==> TxOk(ANY_SCRIPT, beef.txs, t))
            && AncestorsPresent(beef, beef.txs[1])
            && MinedViaAny(beef.txs, beef.txs[1].inputs, x)
  {
    var beef := SpendingBeef(bump, x, pay);
    var mined, payment := beef.txs[0], beef.txs[1];
    assert FindParent(beef.txs, x) == Some(mined);
    MinedUnfolds(beef.txs, x, x);
    BrokenUnfolds(beef.txs, x);
    assert payment.inputs[0].source == x;
    assert InputSum(beef.txs, payment.inputs[..0]) == 0 && OutputSum(payment.outputs[..0]) == 0;
    assert InputSum(beef.txs, payment.inputs) == 10 && OutputSum(payment.outputs) == 5;
    forall id | MinedViaAny(beef.txs, payment.inputs, id)
      ensures id == x
    {
      MinedUnfolds(beef.txs, x, id);
    }
  }

  /** Such a payment verifies when the BUMP's root is confirmed. */
  lemma SpendingVerifies(H: Hasher, bump: Bump, x: Hash, pay: Hash, f: Leaf, r: Request)
    requires pay != x && |bump.path| > 0 && FlagsExclusive(bump.path) && f in bump.path[0] && f.hash == x
    requires IsRequest(H, bump, r)
    ensures var beef := SpendingBeef(bump, x, pay);
            && WellFormed(beef) && Decoded(beef) && Verified(H, beef, ANY_SCRIPT, Only(r))
            && MinedViaAny(beef.txs, beef.txs[|beef.txs| - 1].inputs, x)
  {
    SpendingTransactions(bump, x, pay, f);
    assert AreRequests(H, [bump], [r]);
  }

  /** Leaf x at the bottom is flagged, y is its sibling, and more leaves may follow. */
  function PairBump(x: Hash, y: Hash, more: seq<Leaf>, height: u64): Bump {
    Bump(height, [[Leaf(x, true, false, 0), Leaf(y, false, false, 1)] + more])
  }

  lemma PairRequest(H: Hasher, x: Hash, y: Hash, more: seq<Leaf>, height: u64)
    requires forall f :: f in more ==> !f.txId
    ensures IsRequest(H, PairBump(x, y, more, height), Request(Some(H(x, y)), height))
  {
    var bump, leaf, pair := PairBump(x, y, more, height), Leaf(x, true, false, 0), Leaf(y, false, false, 1);
    assert bump.path[0][0] == leaf && IsTx(bump, leaf);
    assert bump.path[0][1..][0] == pair;
    assert FindLeaf(1, bump.path[0]) == Some(pair);
    assert PairLeaf(H, bump.path, 0, 0) == Ok(pair);
    assert Climb(H, bump.path, 1, Above(H, leaf, pair)) == Ok(H(x, y));
    assert Climb(H, bump.path, 0, leaf) == Ok(H(x, y));
    forall f | IsTx(bump, f)
      ensures f == leaf
    {
    }
  }

  /** Verification succeeds although the mined ancestor x, whose leaf is not flagged, is not in the
      block that was confirmed. */
  lemma UnflaggedAncestorPasses(H: Hasher, a: Hash, b: Hash, x: Hash, pay: Hash, height: u64)
    requires x !in {a, b} && pay != x
    ensures var bump := PairBump(a, b, [Leaf(x, false, false, 5)], height);
            var beef, confirms := SpendingBeef(bump, x, pay), Only(Request(Some(Root(H, [a, b])), height));
            && WellFormed(beef) && Decoded(beef) && Verified(H, beef, ANY_SCRIPT, confirms)
            && Trusted(H, confirms, (h: u64) => [a, b])
            && MinedViaAny(beef.txs, beef.txs[|beef.txs| - 1].inputs, x)
            && |bump.path| == CeilLog2(2) && x !in [a, b]
  {
    var bump, leaf := PairBump(a, b, [Leaf(x, false, false, 5)], height), Leaf(x, false, false, 5);
    assert bump.path[0][2] == leaf;
    PairRequest(H, a, b, [leaf], height);
    assert NextLevel(H, [a, b]) == [H(a, b)] && Root(H, [a, b]) == H(a, b);
    SpendingVerifies(H, bump, x, pay, leaf, Request(Some(Root(H, [a, b])), height));
    assert CeilLog2(2) == 1;
  }

  lemma RootOfFour(H: Hasher, a: Hash, b: Hash, c: Hash, d: Hash)
    ensures Root(H, [a, b, c, d]) == H(H(a, b), H(c, d))
  {
    var block, x, y := [a, b, c, d], H(a, b), H(c, d);
    assert block[2..] == [c, d] && NextLevel(H, block[2..]) == [y] && NextLevel(H, block) == [x, y];
    assert NextLevel(H, [x, y]) == [H(x, y)] && Root(H, [x, y]) == H(x, y);
  }

  /** The number of levels is not compared with the block. With too few, an inner node passes for
      a transaction, flagged and read as it is. */
  lemma ShortPathPasses(H: Hasher, a: Hash, b: Hash, c: Hash, d: Hash, pay: Hash, height: u64)
    requires H(a, b) !in {a, b, c, d} && pay != H(a, b)
    ensures var block, bump := [a, b, c, d], PairBump(H(a, b), H(c, d), [], height);
            var beef, confirms := SpendingBeef(bump, H(a, b), pay), Only(Request(Some(Root(H, block)), height));
            && WellFormed(beef) && Decoded(beef) && Verified(H, beef, ANY_SCRIPT, confirms)
            && Trusted(H, confirms, (h: u64) => block)
            && MinedViaAny(beef.txs, beef.txs[|beef.txs| - 1].inputs, H(a, b))
            && IsProofOf(bump, 0, H(a, b)) && |bump.path| < CeilLog2(|block|) && H(a, b) !in block
  {
    var block, x, y := [a, b, c, d], H(a, b), H(c, d);
    var bump := PairBump(x, y, [], height);
    assert bump.path[0][0] == Leaf(x, true, false, 0);
    PairRequest(H, x, y, [], height);
    RootOfFour(H, a, b, c, d);
    SpendingVerifies(H, bump, x, pay, bump.path[0][0], Request(Some(Root(H, block)), height));
    assert CeilLog2(2) == 1 && CeilLog2(4) == 2;
  }

  /** With too many, anything that a transaction id is hashed from passes for a transaction. */
  lemma LongPathPasses(H: Hasher, x: Hash, y: Hash, pay: Hash, height: u64)
    requires x != H(x, y) && pay != x
    ensures var block, bump := [H(x, y)], PairBump(x, y, [], height);
            var beef, confirms := SpendingBeef(bump, x, pay), Only(Request(Some(Root(H, block)), height));
            && WellFormed(beef) && Decoded(beef) && Verified(H, beef, ANY_SCRIPT, confirms)
            && Trusted(H, confirms, (h: u64) => block)
            && MinedViaAny(beef.txs, beef.txs[|beef.txs| - 1].inputs, x)
            && IsProofOf(bump, 0, x) && |bump.path| > CeilLog2(|block|) && x !in block
  {
    var bump := PairBump(x, y, [], height);
    assert bump.path[0][0] == Leaf(x, true, false, 0);
    PairRequest(H, x, y, [], height);
    SpendingVerifies(H, bump, x, pay, bump.path[0][0], Request(Some(H(x, y)), height));
  }

  // ----- Sums that wrap around

  /** Outputs whose sum wraps around pass with a small input. */
  lemma OutputsCanWrap(source: Hash, id: Hash)
    requires source != id
    ensures var parent, tx := Tx(source, [Input(ZERO, 0, 0)], [5], 0, Some(0)),
                              Tx(id, [Input(source, 0, 0)], [TWO64 - 1, 2], 0, None);
            var txs := [parent, tx];
            && Spendable(txs, tx) && TxOk(ANY_SCRIPT, txs, tx)
            && InputSum(txs, tx.inputs) == 5 && OutputSum(tx.outputs) == TWO64 + 1
  {
    var parent, tx := Tx(source, [Input(ZERO, 0, 0)], [5], 0, Some(0)),
      Tx(id, [Input(source, 0, 0)], [TWO64 - 1, 2], 0, None);
    var txs := [parent, tx];
    assert FindParent(txs, source) == Some(parent);
    assert InputSum(txs, tx.inputs[..0]) == 0 && tx.outputs[..1][..0] == [] && OutputSum(tx.outputs[..1]) == TWO64 - 1;
    assert InputSum(txs, tx.inputs) == 5 && OutputSum(tx.outputs) == TWO64 + 1;
  }

  /** A transaction that spends an output of 7 and pays 500 is refused, whatever else its parent
      pays. */
  lemma OverspendIsRefused(source: Hash, id: Hash, script: Script)
    requires source != id
    ensures var parent, tx := Tx(source, [Input(ZERO, 0, 0)], [1000, 7], 0, Some(0)),
                              Tx(id, [Input(source, 1, 0)], [500], 0, None);
            Spendable([parent, tx], tx) && !TxOk(script, [parent, tx], tx)
  {
    var parent, tx := Tx(source, [Input(ZERO, 0, 0)], [1000, 7], 0, Some(0)),
      Tx(id, [Input(source, 1, 0)], [500], 0, None);
    SumsOfOne([parent, tx], tx.inputs[0], parent, 500);
  }

  /** What a successful verification says of each transaction, in plain terms. */
  lemma VerifiedTransaction(H: Hasher, beef: Beef, script: Script, confirms: seq<Request> -> bool, t: Tx)
    requires WellFormed(beef) && Verified(H, beef, script, confirms) && t in beef.txs
    ensures t.outputs != [] && t.inputs != []
    ensures t.lockTime == 0 || forall k :: 0 <= k < |t.inputs| ==> t.inputs[k].sequence == 0xffff_ffff
    ensures t.bumpIndex.None? ==>
              && InputSum(beef.txs, t.inputs) % TWO64 > OutputSum(t.outputs) % TWO64
              && forall k :: 0 <= k < |t.inputs| ==>
                   && FindParent(beef.txs, t.inputs[k].source).Some?
                   && script(t, FindParent(beef.txs, t.inputs[k].source).value, k)
  {
    assert TxOk(script, beef.txs, t);
    ScriptsPlain(script, beef.txs, t);
  }
}
