/**
 The mutable Subtree: nodes with fees and sizes, running totals modulo 2^64, a cached root
 and a lazily built index from hash to position.
 */
module Subtrees {
  import opened Base
  import opened Powers
  import opened Merkle
  import opened MerkleStore
  import opened MerkleProof
  import opened Composition

  datatype Node = Node(hash: Hash, fee: u64, size: u64)

  datatype Error = SubtreeFull | CoinbasePlaceholderMisuse | SubtreeNotEmpty | IndexOutOfRange
                 | ConflictingNodeNotInSubtree | NoSubtreesAvailable

  function AllOnes(n: nat): (bs: seq<byte>)
    ensures |bs| == n && forall i :: 0 <= i < n ==> bs[i] == 0xFF
  {
    seq(n, i => 0xFF)
  }

  /** 32 bytes of 0xFF, where the coinbase will be. */
  const COINBASE_PLACEHOLDER: Hash := AllOnes(32)

  lemma PlaceholderBytes()
    ensures forall i :: 0 <= i < 32 ==> COINBASE_PLACEHOLDER[i] == 0xFF
    ensures COINBASE_PLACEHOLDER != ZERO
  {
    assert COINBASE_PLACEHOLDER[0] == 0xFF && ZERO[0] == 0;
  }

  // ----- What the fields stand for

  function Hashes(nodes: seq<Node>): (hs: seq<Hash>)
    ensures |hs| == |nodes| && forall i :: 0 <= i < |hs| ==> hs[i] == nodes[i].hash
  {
    seq(|nodes|, i requires 0 <= i < |nodes| => nodes[i].hash)
  }

  function TotalFees(nodes: seq<Node>): u64 {
    if nodes == [] then 0 else WrapAdd(TotalFees(nodes[..|nodes| - 1]), nodes[|nodes| - 1].fee)
  }

  function TotalSize(nodes: seq<Node>): u64 {
    if nodes == [] then 0 else WrapAdd(TotalSize(nodes[..|nodes| - 1]), nodes[|nodes| - 1].size)
  }

  function SumOfFees(nodes: seq<Node>): nat {
    if nodes == [] then 0 else SumOfFees(nodes[..|nodes| - 1]) + nodes[|nodes| - 1].fee
  }

  function SumOfSizes(nodes: seq<Node>): nat {
    if nodes == [] then 0 else SumOfSizes(nodes[..|nodes| - 1]) + nodes[|nodes| - 1].size
  }

  /** The wrapped totals are the true sums modulo 2^64. */
  lemma {:induction false} TotalsAreSums(nodes: seq<Node>)
    ensures TotalFees(nodes) == SumOfFees(nodes) % TWO64
    ensures TotalSize(nodes) == SumOfSizes(nodes) % TWO64
  {
    if nodes != [] {
      var init, last := nodes[..|nodes| - 1], nodes[|nodes| - 1];
      TotalsAreSums(init);
      WrapIsMod(SumOfFees(init), last.fee);
      WrapIsMod(SumOfSizes(init), last.size);
    }
  }

  lemma WrapIsMod(sum: nat, x: u64)
    ensures WrapAdd(sum % TWO64, x) == (sum + x) % TWO64
  {
  }

  /** Hash to position, a later node overriding an earlier one with the same hash. */
  function IndexOf(nodes: seq<Node>): map<Hash, nat> {
    if nodes == [] then map[] else IndexOf(nodes[..|nodes| - 1])[nodes[|nodes| - 1].hash := |nodes| - 1]
  }

  predicate Occurs(nodes: seq<Node>, h: Hash) {
    exists i :: 0 <= i < |nodes| && nodes[i].hash == h
  }

  /** The index finds exactly the hashes that a linear search finds, at their last position. */
  lemma {:induction false} IndexIsSearch(nodes: seq<Node>, h: Hash)
    ensures h in IndexOf(nodes) <==> Occurs(nodes, h)
    ensures h in IndexOf(nodes) ==>
      var k := IndexOf(nodes)[h];
      k < |nodes| && nodes[k].hash == h && forall i :: k < i < |nodes| ==> nodes[i].hash != h
  {
    if nodes != [] {
      var init, last := nodes[..|nodes| - 1], nodes[|nodes| - 1];
      IndexIsSearch(init, h);
      if Occurs(init, h) {
        var i :| 0 <= i < |init| && init[i].hash == h;
        assert nodes[i].hash == h;
      }
      if last.hash == h {
        assert nodes[|nodes| - 1].hash == h;
      }
    }
  }

  lemma AddSub(a: u64, b: u64, c: u64)
    ensures WrapSub(WrapAdd(a, b), c) == WrapAdd(WrapSub(a, c), b)
  {
  }

  lemma AddAddSub(a: u64, b: u64, c: u64, d: u64)
    ensures WrapAdd(WrapSub(WrapAdd(a, b), c), d) == WrapAdd(WrapAdd(WrapSub(a, c), d), b)
  {
  }

  lemma {:induction false} TotalsWithout(nodes: seq<Node>, i: nat)
    requires i < |nodes|
    ensures TotalFees(nodes[..i] + nodes[i + 1..]) == WrapSub(TotalFees(nodes), nodes[i].fee)
    ensures TotalSize(nodes[..i] + nodes[i + 1..]) == WrapSub(TotalSize(nodes), nodes[i].size)
  {
    var init, cut := nodes[..|nodes| - 1], nodes[..i] + nodes[i + 1..];
    if i == |nodes| - 1 {
      assert cut == init;
    } else {
      TotalsWithout(init, i);
      var last := nodes[|nodes| - 1];
      AddSub(TotalFees(init), last.fee, nodes[i].fee);
      AddSub(TotalSize(init), last.size, nodes[i].size);
      assert cut == (init[..i] + init[i + 1..]) + [last];
      TotalsAppend(init[..i] + init[i + 1..], last);
    }
  }

  lemma TotalsAppend(nodes: seq<Node>, n: Node)
    ensures TotalFees(nodes + [n]) == WrapAdd(TotalFees(nodes), n.fee)
    ensures TotalSize(nodes + [n]) == WrapAdd(TotalSize(nodes), n.size)
  {
    assert (nodes + [n])[..|nodes|] == nodes;
  }

  lemma {:induction false} TotalsReplaced(nodes: seq<Node>, n: Node)
    requires nodes != []
    ensures TotalFees(nodes[0 := n]) == WrapAdd(WrapSub(TotalFees(nodes), nodes[0].fee), n.fee)
    ensures TotalSize(nodes[0 := n]) == WrapAdd(WrapSub(TotalSize(nodes), nodes[0].size), n.size)
  {
    var init, after := nodes[..|nodes| - 1], nodes[0 := n];
    if |nodes| > 1 {
      TotalsReplaced(init, n);
      AddAddSub(TotalFees(init), nodes[|nodes| - 1].fee, nodes[0].fee, n.fee);
      AddAddSub(TotalSize(init), nodes[|nodes| - 1].size, nodes[0].size, n.size);
      assert after[..|after| - 1] == init[0 := n];
    } else {
      assert after[..|after| - 1] == init == [];
    }
  }

  /** Leaving the fees alone and adding the new size is right for the totals exactly when the
      fee is unchanged and the replaced size was zero. */
  lemma ReplacedTotals(nodes: seq<Node>, n: Node)
    requires nodes != []
    ensures TotalFees(nodes[0 := n]) == TotalFees(nodes) <==> n.fee == nodes[0].fee
    ensures TotalSize(nodes[0 := n]) == WrapAdd(TotalSize(nodes), n.size) <==> nodes[0].size == 0
  {
    TotalsReplaced(nodes, n);
  }

  // ----- What removing or replacing does to the index

  /** After removing node i, the index with that hash deleted is right exactly when i was the
      last node and its hash occurs nowhere else. */
  lemma IndexAfterRemoval(nodes: seq<Node>, i: nat)
    requires i < |nodes|
    ensures IndexOf(nodes) - {nodes[i].hash} == IndexOf(nodes[..i] + nodes[i + 1..])
            <==> i == |nodes| - 1 && !Occurs(nodes[..i], nodes[i].hash)
  {
    var cut, h := nodes[..i] + nodes[i + 1..], nodes[i].hash;
    if i == |nodes| - 1 {
      assert cut == nodes[..i];
      IndexIsSearch(cut, h);
      PutThenDelete(IndexOf(cut), h, i);
    } else {
      LastPosition(nodes);
      LastPosition(cut);
    }
  }

  lemma PutThenDelete(m: map<Hash, nat>, h: Hash, i: nat)
    ensures m[h := i] - {h} == m <==> h !in m
  {
    if h !in m {
      assert m[h := i] - {h} == m;
    } else {
      assert h !in m[h := i] - {h};
    }
  }

  lemma LastPosition(nodes: seq<Node>)
    requires nodes != []
    ensures nodes[|nodes| - 1].hash in IndexOf(nodes)
    ensures IndexOf(nodes)[nodes[|nodes| - 1].hash] == |nodes| - 1
  {
  }

  /** Replacing node 0 keeps an untouched index right exactly when the hash is the same, or
      both the old and the new hash occur again later. */
  lemma IndexAfterReplacement(nodes: seq<Node>, n: Node)
    requires nodes != []
    ensures IndexOf(nodes) == IndexOf(nodes[0 := n]) <==>
            n.hash == nodes[0].hash || (Occurs(nodes[1..], nodes[0].hash) && Occurs(nodes[1..], n.hash))
  {
    var after, old', fresh' := nodes[0 := n], nodes[0].hash, n.hash;
    forall h: Hash
      ensures h in IndexOf(nodes) <==> h == old' || Occurs(nodes[1..], h)
      ensures h in IndexOf(after) <==> h == fresh' || Occurs(nodes[1..], h)
      ensures Occurs(nodes[1..], h) ==>
                h in IndexOf(nodes) && h in IndexOf(after) && IndexOf(nodes)[h] == IndexOf(after)[h]
    {
      IndexFromSecond(nodes, h);
      IndexFromSecond(after, h);
      assert after[1..] == nodes[1..];
    }
    if old' == fresh' {
      IndexIsSearch(nodes, old');
      IndexIsSearch(after, old');
      IndexFromSecond(nodes, old');
      IndexFromSecond(after, old');
      assert IndexOf(nodes) == IndexOf(after);
    } else if Occurs(nodes[1..], old') && Occurs(nodes[1..], fresh') {
      assert IndexOf(nodes) == IndexOf(after);
    }
  }

  lemma {:induction false} IndexFromSecond(nodes: seq<Node>, h: Hash)
    requires nodes != []
    ensures h in IndexOf(nodes) <==> h == nodes[0].hash || Occurs(nodes[1..], h)
    ensures Occurs(nodes[1..], h) ==>
      h in IndexOf(nodes) && h in IndexOf(nodes[1..]) && IndexOf(nodes)[h] == 1 + IndexOf(nodes[1..])[h]
    ensures h == nodes[0].hash && !Occurs(nodes[1..], h) ==> h in IndexOf(nodes) && IndexOf(nodes)[h] == 0
  {
    IndexIsSearch(nodes[1..], h);
    if |nodes| > 1 {
      var init := nodes[..|nodes| - 1];
      IndexFromSecond(init, h);
      IndexIsSearch(init[1..], h);
      assert nodes[1..][..|nodes| - 2] == init[1..];
    }
  }

  // ----- What every operation does, and what runs keep

  /** The fields that add, remove, lookup, root and restore operations touch. */
  datatype View = View(
    capacity: nat, nodes: seq<Node>, fees: u64, size: u64, root: Option<Hash>, index: Option<map<Hash, nat>>)

  /** `Restore` stands for reading the fields from bytes: nothing in them is checked, and an index that
      was built before stays as it is. */
  datatype Op =
    | Append(node: Node, checked: bool)
    | AppendCoinbase
    | RemoveAt(i: nat)
    | ReplaceFirst(node: Node)
    | Lookup
    | GetRoot
    | Restore(root: Hash, fees: u64, size: u64, nodes: seq<Node>)

  function Empty(capacity: nat): View {
    View(capacity, [], 0, 0, None, None)
  }

  function Apply(H: Hasher, v: View, op: Op): View {
    match op
    case Append(n, checked) =>
      if |v.nodes| + 1 > v.capacity || (checked && n.hash == COINBASE_PLACEHOLDER) then v
      else View(v.capacity, v.nodes + [n], WrapAdd(v.fees, n.fee), WrapAdd(v.size, n.size), None,
                if v.index.Some? then Some(v.index.value[n.hash := |v.nodes|]) else None)
    case AppendCoinbase =>
      if v.nodes != [] then v
      else View(v.capacity, [Node(COINBASE_PLACEHOLDER, 0, 0)], 0, 0, None, v.index)
    case RemoveAt(i) =>
      if i >= |v.nodes| then v
      else View(v.capacity, v.nodes[..i] + v.nodes[i + 1..],
                WrapSub(v.fees, v.nodes[i].fee), WrapSub(v.size, v.nodes[i].size), None,
                if v.index.Some? then Some(v.index.value - {v.nodes[i].hash}) else None)
    case ReplaceFirst(n) =>
      var nodes := if v.nodes == [] then [n] else v.nodes[0 := n];
      View(v.capacity, nodes, v.fees, WrapAdd(v.size, n.size), Some(StoreRoot(H, Hashes(nodes))), v.index)
    case Lookup => if v.index.Some? then v else v.(index := Some(IndexOf(v.nodes)))
    case GetRoot => if v.root.Some? || v.nodes == [] then v else v.(root := Some(StoreRoot(H, Hashes(v.nodes))))
    case Restore(root, fees, size, nodes) => View(|nodes|, nodes, fees, size, Some(root), v.index)
  }

  ghost predicate RootRight(H: Hasher, v: View) {
    v.root.Some? ==> v.nodes != [] && v.root.value == StoreRoot(H, Hashes(v.nodes))
  }

  ghost predicate TotalsRight(v: View) {
    v.fees == TotalFees(v.nodes) && v.size == TotalSize(v.nodes)
  }

  ghost predicate IndexRight(v: View) {
    v.index.Some? ==> v.index.value == IndexOf(v.nodes)
  }

  /** The cached root stays right, as a caller can tell beforehand. */
  predicate KeepsRoot(H: Hasher, op: Op) {
    op.Restore? ==> op.nodes != [] && op.root == StoreRoot(H, Hashes(op.nodes))
  }

  /** Likewise the totals. */
  predicate KeepsTotals(v: View, op: Op) {
    match op
    case ReplaceFirst(n) => if v.nodes == [] then n.fee == 0 else n.fee == v.nodes[0].fee && v.nodes[0].size == 0
    case Restore(_, fees, size, nodes) => fees == TotalFees(nodes) && size == TotalSize(nodes)
    case _ => true
  }

  /** Likewise the index: always while none is built. */
  predicate KeepsIndex(v: View, op: Op) {
    v.index.Some? ==>
      match op
      case AppendCoinbase => v.nodes != []
      case RemoveAt(i) => i >= |v.nodes| || (i == |v.nodes| - 1 && !Occurs(v.nodes[..i], v.nodes[i].hash))
      case ReplaceFirst(n) =>
        && v.nodes != []
        && (n.hash == v.nodes[0].hash || (Occurs(v.nodes[1..], v.nodes[0].hash) && Occurs(v.nodes[1..], n.hash)))
      case Restore(_, _, _, nodes) => IndexOf(nodes) == IndexOf(v.nodes)
      case _ => true
  }

  lemma RootStaysRightIff(H: Hasher, v: View, op: Op)
    requires RootRight(H, v)
    ensures RootRight(H, Apply(H, v, op)) <==> KeepsRoot(H, op)
  {
  }

  lemma OneNode(n: Node)
    ensures TotalFees([n]) == n.fee && TotalSize([n]) == n.size && IndexOf([n]) == map[n.hash := 0]
    ensures n.hash in IndexOf([n])
  {
    assert [n][..0] == [];
  }

  lemma TotalsStayRightIff(H: Hasher, v: View, op: Op)
    requires TotalsRight(v)
    ensures TotalsRight(Apply(H, v, op)) <==> KeepsTotals(v, op)
  {
    match op
    case Append(n, _) =>
      assert (v.nodes + [n])[..|v.nodes|] == v.nodes;
    case AppendCoinbase =>
      OneNode(Node(COINBASE_PLACEHOLDER, 0, 0));
    case RemoveAt(i) =>
      if i < |v.nodes| {
        TotalsWithout(v.nodes, i);
      }
    case ReplaceFirst(n) =>
      OneNode(n);
      if v.nodes != [] {
        ReplacedTotals(v.nodes, n);
      }
    case _ =>
  }

  lemma IndexAfterAppend(H: Hasher, v: View, op: Op)
    requires IndexRight(v) && op.Append?
    ensures IndexRight(Apply(H, v, op))
  {
    assert (v.nodes + [op.node])[..|v.nodes|] == v.nodes;
  }

  lemma IndexAfterCoinbase(H: Hasher, v: View)
    requires IndexRight(v)
    ensures IndexRight(Apply(H, v, AppendCoinbase)) <==> v.index.None? || v.nodes != []
  {
    OneNode(Node(COINBASE_PLACEHOLDER, 0, 0));
  }

  lemma IndexAfterFirst(H: Hasher, v: View, n: Node)
    requires IndexRight(v)
    ensures IndexRight(Apply(H, v, ReplaceFirst(n))) <==> KeepsIndex(v, ReplaceFirst(n))
  {
    OneNode(n);
    if v.nodes != [] {
      IndexAfterReplacement(v.nodes, n);
    }
  }

  lemma IndexStaysRightIff(H: Hasher, v: View, op: Op)
    requires IndexRight(v)
    ensures IndexRight(Apply(H, v, op)) <==> KeepsIndex(v, op)
  {
    match op
    case Append(_, _) => IndexAfterAppend(H, v, op);
    case AppendCoinbase => IndexAfterCoinbase(H, v);
    case RemoveAt(i) =>
      if i < |v.nodes| {
        IndexAfterRemoval(v.nodes, i);
      }
    case ReplaceFirst(n) => IndexAfterFirst(H, v, n);
    case _ =>
  }

  function RunOps(H: Hasher, capacity: nat, ops: seq<Op>): View {
    if ops == [] then Empty(capacity) else Apply(H, RunOps(H, capacity, ops[..|ops| - 1]), ops[|ops| - 1])
  }

  function ViewAt(H: Hasher, capacity: nat, ops: seq<Op>, i: nat): View
    requires i <= |ops|
  {
    RunOps(H, capacity, ops[..i])
  }

  lemma ViewStep(H: Hasher, capacity: nat, ops: seq<Op>, i: nat)
    requires i < |ops|
    ensures ViewAt(H, capacity, ops, i + 1) == Apply(H, ViewAt(H, capacity, ops, i), ops[i])
  {
    assert ops[..i + 1][..i] == ops[..i];
  }

  lemma ViewStart(H: Hasher, capacity: nat, ops: seq<Op>)
    ensures ViewAt(H, capacity, ops, 0) == Empty(capacity)
  {
    assert ops[..0] == [];
  }

  ghost predicate RootRightAt(H: Hasher, capacity: nat, ops: seq<Op>, i: nat)
    requires i <= |ops|
  {
    RootRight(H, ViewAt(H, capacity, ops, i))
  }

  predicate KeepsRootAt(H: Hasher, ops: seq<Op>, i: nat)
    requires i < |ops|
  {
    KeepsRoot(H, ops[i])
  }

  /** In every run the cached root is absent or right, after every operation, if and only if every
      root that was read from bytes was right. */
  lemma RunRoot(H: Hasher, capacity: nat, ops: seq<Op>, n: nat)
    requires n <= |ops|
    ensures (forall i :: 0 <= i <= n ==> RootRightAt(H, capacity, ops, i)) <==>
            (forall i :: 0 <= i < n ==> KeepsRootAt(H, ops, i))
  {
    var right := seq(n + 1, i requires 0 <= i <= n => RootRightAt(H, capacity, ops, i));
    var keeps := seq(n, i requires 0 <= i < n => KeepsRootAt(H, ops, i));
    ViewStart(H, capacity, ops);
    forall i | 0 <= i < n && right[i]
      ensures right[i + 1] <==> keeps[i]
    {
      RootStep(H, capacity, ops, i);
    }
    RightThroughout(right, keeps);
    assert forall i :: 0 <= i <= n ==> right[i] == RootRightAt(H, capacity, ops, i);
    assert forall i :: 0 <= i < n ==> keeps[i] == KeepsRootAt(H, ops, i);
  }

  lemma RootStep(H: Hasher, capacity: nat, ops: seq<Op>, i: nat)
    requires i < |ops| && RootRightAt(H, capacity, ops, i)
    ensures RootRightAt(H, capacity, ops, i + 1) <==> KeepsRootAt(H, ops, i)
  {
    ViewStep(H, capacity, ops, i);
    RootStaysRightIff(H, ViewAt(H, capacity, ops, i), ops[i]);
  }

  ghost predicate TotalsRightAt(H: Hasher, capacity: nat, ops: seq<Op>, i: nat)
    requires i <= |ops|
  {
    TotalsRight(ViewAt(H, capacity, ops, i))
  }

  predicate KeepsTotalsAt(H: Hasher, capacity: nat, ops: seq<Op>, i: nat)
    requires i < |ops|
  {
    KeepsTotals(ViewAt(H, capacity, ops, i), ops[i])
  }

  lemma TotalsStep(H: Hasher, capacity: nat, ops: seq<Op>, i: nat)
    requires i < |ops| && TotalsRightAt(H, capacity, ops, i)
    ensures TotalsRightAt(H, capacity, ops, i + 1) <==> KeepsTotalsAt(H, capacity, ops, i)
  {
    ViewStep(H, capacity, ops, i);
    TotalsStayRightIff(H, ViewAt(H, capacity, ops, i), ops[i]);
  }

  /** In every run the totals are the sums over the nodes, after every operation, if and only if
      every operation kept them. */
  lemma RunTotals(H: Hasher, capacity: nat, ops: seq<Op>, n: nat)
    requires n <= |ops|
    ensures (forall i :: 0 <= i <= n ==> TotalsRightAt(H, capacity, ops, i)) <==>
            (forall i :: 0 <= i < n ==> KeepsTotalsAt(H, capacity, ops, i))
  {
    var right := seq(n + 1, i requires 0 <= i <= n => TotalsRightAt(H, capacity, ops, i));
    var keeps := seq(n, i requires 0 <= i < n => KeepsTotalsAt(H, capacity, ops, i));
    ViewStart(H, capacity, ops);
    forall i | 0 <= i < n && right[i]
      ensures right[i + 1] <==> keeps[i]
    {
      TotalsStep(H, capacity, ops, i);
    }
    RightThroughout(right, keeps);
    assert forall i :: 0 <= i <= n ==> right[i] == TotalsRightAt(H, capacity, ops, i);
    assert forall i :: 0 <= i < n ==> keeps[i] == KeepsTotalsAt(H, capacity, ops, i);
  }

  ghost predicate IndexRightAt(H: Hasher, capacity: nat, ops: seq<Op>, i: nat)
    requires i <= |ops|
  {
    IndexRight(ViewAt(H, capacity, ops, i))
  }

  predicate KeepsIndexAt(H: Hasher, capacity: nat, ops: seq<Op>, i: nat)
    requires i < |ops|
  {
    KeepsIndex(ViewAt(H, capacity, ops, i), ops[i])
  }

  lemma IndexStep(H: Hasher, capacity: nat, ops: seq<Op>, i: nat)
    requires i < |ops| && IndexRightAt(H, capacity, ops, i)
    ensures IndexRightAt(H, capacity, ops, i + 1) <==> KeepsIndexAt(H, capacity, ops, i)
  {
    ViewStep(H, capacity, ops, i);
    IndexStaysRightIff(H, ViewAt(H, capacity, ops, i), ops[i]);
  }

  /** Likewise the index agrees with a search of the nodes. */
  lemma RunIndex(H: Hasher, capacity: nat, ops: seq<Op>, n: nat)
    requires n <= |ops|
    ensures (forall i :: 0 <= i <= n ==> IndexRightAt(H, capacity, ops, i)) <==>
            (forall i :: 0 <= i < n ==> KeepsIndexAt(H, capacity, ops, i))
  {
    var right := seq(n + 1, i requires 0 <= i <= n => IndexRightAt(H, capacity, ops, i));
    var keeps := seq(n, i requires 0 <= i < n => KeepsIndexAt(H, capacity, ops, i));
    ViewStart(H, capacity, ops);
    forall i | 0 <= i < n && right[i]
      ensures right[i + 1] <==> keeps[i]
    {
      IndexStep(H, capacity, ops, i);
    }
    RightThroughout(right, keeps);
    assert forall i :: 0 <= i <= n ==> right[i] == IndexRightAt(H, capacity, ops, i);
    assert forall i :: 0 <= i < n ==> keeps[i] == KeepsIndexAt(H, capacity, ops, i);
  }

  // ----- The class

  class Subtree {
    const H: Hasher
    const height: nat
    const treeSize: nat
    var nodes: seq<Node>
    var fees: u64
    var sizeInBytes: u64
    var conflictingNodes: seq<Hash>
    var rootHash: Option<Hash>
    var nodeIndex: Option<map<Hash, nat>>

    function V(): View
      reads this
    {
      View(treeSize, nodes, fees, sizeInBytes, rootHash, nodeIndex)
    }

    /** The cached root is absent or the root of the present nodes. */
    ghost predicate Valid()
      reads this
    {
      rootHash.Some? ==> nodes != [] && rootHash.value == StoreRoot(H, Hashes(nodes))
    }

    ghost predicate TotalsExact()
      reads this
    {
      fees == TotalFees(nodes) && sizeInBytes == TotalSize(nodes)
    }

    ghost predicate IndexExact()
      reads this
    {
      nodeIndex.Some? ==> nodeIndex.value == IndexOf(nodes)
    }

    constructor (H: Hasher, height: nat)
      ensures this.H == H && this.height == height && treeSize == Pow2(height)
      ensures nodes == [] && conflictingNodes == [] && rootHash == None && nodeIndex == None
      ensures Valid() && TotalsExact() && IndexExact()
    {
      this.H := H;
      this.height := height;
      treeSize := Pow2(height);
      nodes, fees, sizeInBytes, conflictingNodes := [], 0, 0, [];
      rootHash, nodeIndex := None, None;
    }

    /** A subtree with the given fields, as read back from its serialised form. */
    constructor Restored(H: Hasher, root: Hash, fees: u64, sizeInBytes: u64, nodes: seq<Node>, conflicting: seq<Hash>)
      requires nodes != []
      ensures this.H == H && height == CeilLog2(|nodes|) && treeSize == |nodes|
      ensures rootHash == Some(root) && this.fees == fees && this.sizeInBytes == sizeInBytes
      ensures this.nodes == nodes && conflictingNodes == conflicting && nodeIndex == None
      ensures forall capacity :: V() == Apply(H, Empty(capacity), Restore(root, fees, sizeInBytes, nodes))
    {
      this.H := H;
      height, treeSize := CeilLog2(|nodes|), |nodes|;
      rootHash, nodeIndex := Some(root), None;
      this.fees, this.sizeInBytes, this.nodes, conflictingNodes := fees, sizeInBytes, nodes, conflicting;
    }

    /** Appends a node; keeps the cache, the totals and the index right. */
    method AddNode(hash: Hash, fee: u64, size: u64) returns (err: Option<Error>)
      requires Valid()
      modifies this
      ensures V() == Apply(H, old(V()), Append(Node(hash, fee, size), true))
      ensures err == if |old(nodes)| + 1 > treeSize then Some(SubtreeFull)
                     else if hash == COINBASE_PLACEHOLDER then Some(CoinbasePlaceholderMisuse)
                     else None
      ensures err.Some? ==> unchanged(this)
      ensures err.None? ==> nodes == old(nodes) + [Node(hash, fee, size)]
      ensures conflictingNodes == old(conflictingNodes)
      ensures Valid()
      ensures old(TotalsExact()) ==> TotalsExact()
      ensures old(IndexExact()) ==> IndexExact()
    {
      if |nodes| + 1 > treeSize {
        return Some(SubtreeFull);
      }
      if hash == COINBASE_PLACEHOLDER {
        return Some(CoinbasePlaceholderMisuse);
      }
      err := AddSubtreeNodeWithoutLock(Node(hash, fee, size));
    }

    /** The same without the coinbase-placeholder check. */
    method AddSubtreeNodeWithoutLock(node: Node) returns (err: Option<Error>)
      requires Valid()
      modifies this
      ensures V() == Apply(H, old(V()), Append(node, false))
      ensures err == if |old(nodes)| + 1 > treeSize then Some(SubtreeFull) else None
      ensures err.Some? ==> unchanged(this)
      ensures err.None? ==> nodes == old(nodes) + [node] && rootHash == None
      ensures conflictingNodes == old(conflictingNodes)
      ensures Valid()
      ensures old(TotalsExact()) ==> TotalsExact()
      ensures old(IndexExact()) ==> IndexExact()
    {
      if |nodes| + 1 > treeSize {
        return Some(SubtreeFull);
      }
      nodes := nodes + [node];
      assert nodes[..|nodes| - 1] == old(nodes);
      rootHash := None;
      fees := WrapAdd(fees, node.fee);
      sizeInBytes := WrapAdd(sizeInBytes, node.size);
      if nodeIndex.Some? {
        nodeIndex := Some(nodeIndex.value[node.hash := |nodes| - 1]);
      }
      return None;
    }

    /** Only for an empty subtree. The index, if one was already built, is left behind. */
    method AddCoinbaseNode() returns (err: Option<Error>)
      requires Valid()
      modifies this
      ensures V() == Apply(H, old(V()), AppendCoinbase)
      ensures err == if old(nodes) != [] then Some(SubtreeNotEmpty) else None
      ensures err.Some? ==> unchanged(this)
      ensures err.None? ==> nodes == [Node(COINBASE_PLACEHOLDER, 0, 0)]
      ensures err.None? ==> forall i :: 0 <= i < 32 ==> nodes[0].hash[i] == 0xFF
      ensures conflictingNodes == old(conflictingNodes)
      ensures Valid()
      ensures old(TotalsExact()) || err.None? ==> TotalsExact()
      ensures err.None? && old(IndexExact()) ==> (IndexExact() <==> old(nodeIndex).None?)
    {
      if |nodes| != 0 {
        return Some(SubtreeNotEmpty);
      }
      nodes := nodes + [Node(COINBASE_PLACEHOLDER, 0, 0)];
      rootHash, fees, sizeInBytes := None, 0, 0;
      assert nodes[..0] == [];
      LastPosition(nodes);
      return None;
    }

    /** Deletes a node from the middle. Later index entries are not shifted, so the index stays
        right exactly when the last node goes and its hash occurs nowhere else. */
    method RemoveNodeAtIndex(index: nat) returns (err: Option<Error>)
      requires Valid()
      modifies this
      ensures V() == Apply(H, old(V()), RemoveAt(index))
      ensures err == if index >= |old(nodes)| then Some(IndexOutOfRange) else None
      ensures err.Some? ==> unchanged(this)
      ensures err.None? ==> nodes == old(nodes)[..index] + old(nodes)[index + 1..]
      ensures conflictingNodes == old(conflictingNodes)
      ensures Valid()
      ensures old(TotalsExact()) ==> TotalsExact()
      ensures err.None? && old(IndexExact()) ==>
        (IndexExact() <==> old(nodeIndex).None? ||
                           (index == |nodes| && !Occurs(nodes, old(nodes)[index].hash)))
    {
      if index >= |nodes| {
        return Some(IndexOutOfRange);
      }
      var gone := nodes[index];
      TotalsWithout(nodes, index);
      IndexAfterRemoval(nodes, index);
      fees := WrapSub(fees, gone.fee);
      sizeInBytes := WrapSub(sizeInBytes, gone.size);
      nodes := nodes[..index] + nodes[index + 1..];
      rootHash := None;
      if nodeIndex.Some? {
        nodeIndex := Some(nodeIndex.value - {gone.hash});
      }
      assert index == |nodes| ==> nodes == old(nodes)[..index];
      return None;
    }

    /** Overwrites (or creates) node 0. The fee total is not touched and the size total only
        grows, so the totals stay right exactly when the fee is unchanged and the old size was 0. */
    method ReplaceRootNode(hash: Hash, fee: u64, size: u64) returns (root: Hash)
      requires Valid()
      modifies this
      ensures V() == Apply(H, old(V()), ReplaceFirst(Node(hash, fee, size)))
      ensures nodes == if old(nodes) == [] then [Node(hash, fee, size)] else old(nodes)[0 := Node(hash, fee, size)]
      ensures conflictingNodes == old(conflictingNodes)
      ensures Valid() && root == StoreRoot(H, Hashes(nodes))
      ensures old(TotalsExact()) ==>
        (TotalsExact() <==> if old(nodes) == [] then fee == 0 else fee == old(nodes)[0].fee && old(nodes)[0].size == 0)
      ensures old(IndexExact()) && old(nodes) == [] ==> (IndexExact() <==> old(nodeIndex).None?)
      ensures old(IndexExact()) && old(nodes) != [] ==>
        (IndexExact() <==> || old(nodeIndex).None?
                           || hash == old(nodes)[0].hash
                           || (Occurs(nodes[1..], old(nodes)[0].hash) && Occurs(nodes[1..], hash)))
    {
      var node := Node(hash, fee, size);
      if |nodes| < 1 {
        nodes := nodes + [node];
        OneNode(node);
        assert nodes == [node] && hash in IndexOf([node]);
      } else {
        ReplacedTotals(nodes, node);
        IndexAfterReplacement(nodes, node);
        nodes := nodes[0 := node];
        assert nodes[1..] == old(nodes)[1..];
      }
      rootHash := None;
      sizeInBytes := WrapAdd(sizeInBytes, size);
      var r := RootHash();
      return r.value;
    }

    /** The root, computed once and then cached. */
    method RootHash() returns (root: Option<Hash>)
      requires Valid()
      modifies this`rootHash
      ensures V() == Apply(H, old(V()), GetRoot)
      ensures Valid()
      ensures root == if nodes == [] then None else Some(StoreRoot(H, Hashes(nodes)))
    {
      if rootHash.Some? {
        return rootHash;
      }
      if |nodes| == 0 {
        return None;
      }
      var store := BuildMerkleTreeStore(H, Hashes(nodes));
      rootHash := Some(store[|store| - 1]);
      return rootHash;
    }

    /** The proof of the node at `index`; for nonzero hashes it folds to the root. */
    method GetMerkleProof(index: nat) returns (proof: Option<seq<Hash>>)
      ensures proof.None? <==> index >= |nodes|
      ensures proof.Some? ==> |proof.value| == CeilLog2(|nodes|)
      ensures proof.Some? && AllNonZero(Hashes(nodes)) && NeverZero(H) ==>
        && proof.value == ProofOf(H, Hashes(nodes), index)
        && Fold(H, nodes[index].hash, index, proof.value) == StoreRoot(H, Hashes(nodes))
    {
      proof := MerkleProof.GetMerkleProof(H, Hashes(nodes), index);
      if proof.Some? && AllNonZero(Hashes(nodes)) && NeverZero(H) {
        ProofFoldsToRoot(H, Hashes(nodes), index);
        StoreRootIsRoot(H, Hashes(nodes));
      }
    }

    /** The position of a hash, or -1. A missing index is built first. */
    method NodeIndex(hash: Hash) returns (position: int)
      requires Valid()
      modifies this`nodeIndex
      ensures V() == Apply(H, old(V()), Lookup)
      ensures Valid() && nodeIndex.Some?
      ensures old(IndexExact()) ==> IndexExact()
      ensures IndexExact() ==>
        if Occurs(nodes, hash)
        then 0 <= position < |nodes| && nodes[position].hash == hash &&
             forall i :: position < i < |nodes| ==> nodes[i].hash != hash
        else position == -1
    {
      if nodeIndex.None? {
        var index: map<Hash, nat> := map[];
        for i := 0 to |nodes|
          invariant index == IndexOf(nodes[..i])
        {
          index := index[nodes[i].hash := i];
          assert nodes[..i + 1][..i] == nodes[..i];
        }
        assert nodes[..|nodes|] == nodes;
        nodeIndex := Some(index);
      }
      IndexIsSearch(nodes, hash);
      if hash in nodeIndex.value {
        return nodeIndex.value[hash];
      }
      return -1;
    }

    /** Lists a hash of the subtree as conflicting, once. */
    method AddConflictingNode(hash: Hash) returns (err: Option<Error>)
      modifies this`conflictingNodes
      ensures err == if Occurs(nodes, hash) then None else Some(ConflictingNodeNotInSubtree)
      ensures conflictingNodes ==
              if err.Some? || hash in old(conflictingNodes) then old(conflictingNodes)
              else old(conflictingNodes) + [hash]
    {
      var found := false;
      for i := 0 to |nodes|
        invariant found <==> Occurs(nodes[..i], hash)
        invariant conflictingNodes == old(conflictingNodes)
      {
        assert nodes[..i + 1] == nodes[..i] + [nodes[i]];
        if nodes[i].hash == hash {
          found := true;
          assert nodes[..i + 1][i].hash == hash;
          break;
        }
        OccursStep(nodes[..i], nodes[i], hash);
      }
      if !found {
        assert nodes[..|nodes|] == nodes;
        return Some(ConflictingNodeNotInSubtree);
      }
      if hash in conflictingNodes {
        return None;
      }
      conflictingNodes := conflictingNodes + [hash];
      return None;
    }
  }

  lemma OccursStep(nodes: seq<Node>, n: Node, h: Hash)
    ensures Occurs(nodes + [n], h) <==> Occurs(nodes, h) || n.hash == h
  {
    if Occurs(nodes, h) {
      var i :| 0 <= i < |nodes| && nodes[i].hash == h;
      assert (nodes + [n])[i].hash == h;
    }
    if n.hash == h {
      assert (nodes + [n])[|nodes|].hash == h;
    }
  }

  // ----- The coinbase proof of a block

  function Groups(subtrees: seq<Subtree>): (groups: seq<seq<Hash>>)
    reads subtrees
    ensures |groups| == |subtrees|
    ensures forall i :: 0 <= i < |subtrees| ==> groups[i] == Hashes(subtrees[i].nodes)
  {
    if subtrees == [] then []
    else Groups(subtrees[..|subtrees| - 1]) + [Hashes(subtrees[|subtrees| - 1].nodes)]
  }

  /** The root each subtree reports. */
  function StoreRoots(H: Hasher, groups: seq<seq<Hash>>): (roots: seq<Hash>)
    requires forall i :: 0 <= i < |groups| ==> |groups[i]| >= 1
    ensures |roots| == |groups| && forall i :: 0 <= i < |roots| ==> roots[i] == StoreRoot(H, groups[i])
  {
    seq(|groups|, i requires 0 <= i < |groups| => StoreRoot(H, groups[i]))
  }

  ghost predicate NonZeroGroups(groups: seq<seq<Hash>>) {
    forall i :: 0 <= i < |groups| ==> |groups[i]| >= 1 && AllNonZero(groups[i])
  }

  /** A block of nonzero transaction hashes behind the placeholder has no zero leaf, so its glued proof
      folds from the placeholder to the root over the subtree roots. */
  lemma {:induction false} PlaceholderProofFolds(H: Hasher, groups: seq<seq<Hash>>)
    requires groups != [] && groups[0] != [] && (forall i :: 0 <= i < 32 ==> groups[0][0][i] == 0xFF)
    requires AllNonZero(groups[0][1..])
    requires forall i :: 0 < i < |groups| ==> groups[i] != [] && AllNonZero(groups[i])
    ensures groups[0][0] == COINBASE_PLACEHOLDER && NonZeroGroups(groups)
    ensures Fold(H, COINBASE_PLACEHOLDER, 0, Glued(H, groups)) == Root(H, Roots(H, groups))
  {
    PlaceholderBytes();
    assert groups[0][0] == COINBASE_PLACEHOLDER;
    forall j | 0 <= j < |groups[0]|
      ensures groups[0][j] != ZERO
    {
      assert j > 0 ==> groups[0][1..][j - 1] == groups[0][j];
    }
    GluedFolds(H, groups);
  }

  lemma RootNonZero(H: Hasher, leaves: seq<Hash>)
    requires |leaves| >= 1 && AllNonZero(leaves) && NeverZero(H)
    ensures Root(H, leaves) != ZERO
  {
    RootIsTopLevel(H, leaves);
    LevelNonZero(H, leaves, CeilLog2(|leaves|));
    assert Level(H, leaves, CeilLog2(|leaves|))[0] == Root(H, leaves);
  }

  lemma {:induction false} StoreRootsAreRoots(H: Hasher, groups: seq<seq<Hash>>)
    requires NonZeroGroups(groups) && NeverZero(H)
    ensures StoreRoots(H, groups) == Roots(H, groups) && AllNonZero(Roots(H, groups))
    decreases |groups|
  {
    if groups != [] {
      StoreRootsAreRoots(H, groups[1..]);
      StoreRootIsRoot(H, groups[0]);
      RootNonZero(H, groups[0]);
      StoreRootsFirst(H, groups);
    }
  }

  lemma StoreRootsFirst(H: Hasher, groups: seq<seq<Hash>>)
    requires groups != [] && forall i :: 0 <= i < |groups| ==> |groups[i]| >= 1
    ensures StoreRoots(H, groups) == [StoreRoot(H, groups[0])] + StoreRoots(H, groups[1..])
  {
  }

  /** A new subtree for a number of leaves, which has to be a power of two. */
  method NewTreeByLeafCount(H: Hasher, maxNumberOfLeaves: int) returns (tree: Option<Subtree>)
    ensures tree.Some? <==> IsPowerOfTwo(maxNumberOfLeaves)
    ensures tree.Some? ==> fresh(tree.value) && tree.value.H == H && tree.value.treeSize == maxNumberOfLeaves
                           && tree.value.nodes == [] && tree.value.Valid()
  {
    if !IsPowerOfTwo(maxNumberOfLeaves) {
      return None;
    }
    PowersOfTwo(maxNumberOfLeaves);
    var t := new Subtree(H, CeilLog2(maxNumberOfLeaves));
    return Some(t);
  }

  /** Adds the root of one subtree to the top tree. */
  method AddRoot(topTree: Subtree, st: Subtree) returns (err: Option<Error>)
    requires topTree != st && topTree.Valid() && st.Valid() && st.nodes != [] && |topTree.nodes| < topTree.treeSize
    modifies topTree, st`rootHash
    ensures topTree.Valid() && st.Valid()
    ensures err == if StoreRoot(st.H, Hashes(st.nodes)) == COINBASE_PLACEHOLDER
                   then Some(CoinbasePlaceholderMisuse) else None
    ensures err.None? ==> |topTree.nodes| == |old(topTree.nodes)| + 1
    ensures err.None? ==> topTree.nodes[|old(topTree.nodes)|].hash == StoreRoot(st.H, Hashes(st.nodes))
    ensures err.None? ==> forall j :: 0 <= j < |old(topTree.nodes)| ==> topTree.nodes[j] == old(topTree.nodes)[j]
  {
    var root := st.RootHash();
    err := topTree.AddNode(root.value, st.fees, st.sizeInBytes);
  }

  /** The top tree: one leaf per subtree, its root. */
  method BuildTopTree(H: Hasher, subtrees: seq<Subtree>, ghost roots: seq<Hash>)
    returns (topTree: Subtree, err: Option<Error>)
    requires |roots| == |subtrees| > 0
    requires forall i :: 0 <= i < |subtrees| ==>
      subtrees[i].H == H && subtrees[i].Valid() && subtrees[i].nodes != [] &&
      roots[i] == StoreRoot(H, Hashes(subtrees[i].nodes))
    modifies subtrees
    ensures topTree.H == H
    ensures err.None? ==> Hashes(topTree.nodes) == roots
    ensures err == if COINBASE_PLACEHOLDER in roots then Some(CoinbasePlaceholderMisuse) else None
    ensures forall st :: st in subtrees ==> st.nodes == old(st.nodes) && st.Valid()
  {
    RoundingFunctionsAgree(|subtrees|);
    var tree := NewTreeByLeafCount(H, CeilPowerOfTwo(|subtrees|));
    topTree := tree.value;
    for i := 0 to |subtrees|
      invariant topTree.Valid() && |topTree.nodes| == i && fresh(topTree)
      invariant forall j :: 0 <= j < i ==> topTree.nodes[j].hash == roots[j] && roots[j] != COINBASE_PLACEHOLDER
      invariant forall st :: st in subtrees ==> st.nodes == old(st.nodes) && st.Valid()
    {
      err := AddRoot(topTree, subtrees[i]);
      if err.Some? {
        return;
      }
    }
    err := None;
  }

  /** The proof of the first leaf of the first subtree, in the tree of the whole block. */
  method GetMerkleProofForCoinbase(H: Hasher, subtrees: seq<Subtree>, ghost groups: seq<seq<Hash>>)
    returns (result: Result<seq<Hash>, Error>)
    requires groups == Groups(subtrees)
    requires forall i :: 0 <= i < |subtrees| ==> subtrees[i].H == H && subtrees[i].Valid()
    requires forall i :: 0 < i < |subtrees| ==> subtrees[i].nodes != []
    modifies subtrees
    ensures forall st :: st in subtrees ==> st.nodes == old(st.nodes) && st.Valid()
    ensures subtrees == [] ==> result == Err(NoSubtreesAvailable)
    ensures subtrees != [] && groups[0] == [] ==> result == Err(IndexOutOfRange)
    ensures subtrees != [] && groups[0] != [] ==>
      (result == Err(CoinbasePlaceholderMisuse) <==> COINBASE_PLACEHOLDER in StoreRoots(H, groups)) &&
      (result.Ok? <==> COINBASE_PLACEHOLDER !in StoreRoots(H, groups))
    ensures result.Ok? && NonZeroGroups(groups) && NeverZero(H) ==>
              && result.value == Glued(H, groups)
              && Fold(H, groups[0][0], 0, result.value) == Root(H, Roots(H, groups))
  {
    if |subtrees| == 0 {
      return Err(NoSubtreesAvailable);
    }
    var proof := subtrees[0].GetMerkleProof(0);
    if proof.None? {
      return Err(IndexOutOfRange);
    }
    var topTree, err := BuildTopTree(H, subtrees, StoreRoots(H, groups));
    if err.Some? {
      return Err(err.value);
    }
    var topProof := topTree.GetMerkleProof(0);
    if NonZeroGroups(groups) && NeverZero(H) {
      StoreRootsAreRoots(H, groups);
      GluedFolds(H, groups);
    }
    return Ok(proof.value + topProof.value);
  }
}
