/**
 The parents of a transaction, grouped by parent, and their self-delimiting encoding; and the
 metadata of a subtree, which holds one such list per node.
 */
module Inpoints {
  import opened Base
  import opened LittleEndian
  import opened Codecs

  datatype Inpoint = Inpoint(hash: Hash, index: u32)

  /** Parent hashes and, for each, the output indexes that are spent. `unset` stands for lists
      that were never assigned, as opposed to empty ones. */
  datatype TxInpoints = TxInpoints(parents: seq<Hash>, idxs: seq<seq<u32>>, unset: bool)

  const UNSET := TxInpoints([], [], true)

  // ----- Grouping by parent

  /** The position of a hash, or the length of the list. */
  function Position(hs: seq<Hash>, h: Hash): (i: nat)
    ensures i <= |hs| && (i < |hs| ==> hs[i] == h) && (i == |hs| ==> h !in hs)
    ensures forall j :: 0 <= j < i ==> hs[j] != h
  {
    if hs == [] then 0 else if hs[0] == h then 0 else 1 + Position(hs[1..], h)
  }

  /** Adds one input to the group of its parent. */
  function AddInput(p: TxInpoints, input: Inpoint): TxInpoints
    requires |p.parents| == |p.idxs|
  {
    var i := Position(p.parents, input.hash);
    if i < |p.parents| then p.(idxs := p.idxs[i := p.idxs[i] + [input.index]])
    else TxInpoints(p.parents + [input.hash], p.idxs + [[input.index]], false)
  }

  /** The hashes of the inputs, each where it first appears. */
  function FirstAppearances(inputs: seq<Inpoint>): seq<Hash> {
    if inputs == [] then []
    else
      var before, last := FirstAppearances(inputs[..|inputs| - 1]), inputs[|inputs| - 1];
      if last.hash in before then before else before + [last.hash]
  }

  /** The output indexes of the inputs with the given parent, in order. */
  function IndexesOf(inputs: seq<Inpoint>, h: Hash): seq<u32> {
    if inputs == [] then []
    else IndexesOf(inputs[..|inputs| - 1], h) +
         (if inputs[|inputs| - 1].hash == h then [inputs[|inputs| - 1].index] else [])
  }

  /** Parents in order of first appearance, each with its indexes in order. */
  ghost predicate Groups(p: TxInpoints, inputs: seq<Inpoint>) {
    && p.parents == FirstAppearances(inputs)
    && |p.idxs| == |p.parents|
    && forall i :: 0 <= i < |p.parents| ==> p.idxs[i] == IndexesOf(inputs, p.parents[i])
  }

  lemma {:induction false} AppearancesDistinct(inputs: seq<Inpoint>)
    ensures Distinct(FirstAppearances(inputs))
    ensures forall h: Hash :: h in FirstAppearances(inputs) <==> Occurs(inputs, h)
  {
    if inputs != [] {
      var init, last := inputs[..|inputs| - 1], inputs[|inputs| - 1];
      AppearancesDistinct(init);
      forall h: Hash
        ensures Occurs(inputs, h) <==> Occurs(init, h) || h == last.hash
      {
        OccursStep(inputs, h);
      }
    }
  }

  predicate Occurs(inputs: seq<Inpoint>, h: Hash) {
    exists i :: 0 <= i < |inputs| && inputs[i].hash == h
  }

  lemma OccursStep(inputs: seq<Inpoint>, h: Hash)
    requires inputs != []
    ensures Occurs(inputs, h) <==> Occurs(inputs[..|inputs| - 1], h) || h == inputs[|inputs| - 1].hash
  {
    var init := inputs[..|inputs| - 1];
    if Occurs(init, h) {
      var i :| 0 <= i < |init| && init[i].hash == h;
      assert inputs[i].hash == h;
    }
    if h == inputs[|inputs| - 1].hash {
      assert inputs[|inputs| - 1].hash == h;
    }
    if Occurs(inputs, h) && h != inputs[|inputs| - 1].hash {
      var i :| 0 <= i < |inputs| && inputs[i].hash == h;
      assert init[i].hash == h;
    }
  }

  lemma {:induction false} NoIndexes(inputs: seq<Inpoint>, h: Hash)
    ensures IndexesOf(inputs, h) == [] <==> !Occurs(inputs, h)
  {
    if inputs != [] {
      NoIndexes(inputs[..|inputs| - 1], h);
      OccursStep(inputs, h);
    }
  }

  lemma AddInputGroups(p: TxInpoints, inputs: seq<Inpoint>, input: Inpoint)
    requires Groups(p, inputs)
    ensures Groups(AddInput(p, input), inputs + [input])
  {
    var more := inputs + [input];
    assert more[..|more| - 1] == inputs;
    AppearancesDistinct(inputs);
    NoIndexes(inputs, input.hash);
    var after := AddInput(p, input);
    forall i | 0 <= i < |after.parents|
      ensures after.idxs[i] == IndexesOf(more, after.parents[i])
    {
      if i < |p.parents| && i != Position(p.parents, input.hash) {
        assert p.parents[i] != input.hash;
      }
    }
  }

  /** Groups the inputs of a transaction. */
  method AddTx(inputs: seq<Inpoint>) returns (p: TxInpoints)
    ensures Groups(p, inputs)
  {
    p := TxInpoints([], [], false);
    for k := 0 to |inputs|
      invariant Groups(p, inputs[..k])
    {
      assert inputs[..k + 1] == inputs[..k] + [inputs[k]];
      AddInputGroups(p, inputs[..k], inputs[k]);
      p := AddInput(p, inputs[k]);
    }
    assert inputs[..|inputs|] == inputs;
  }

  // ----- The flattened list

  function WithHash(h: Hash, indexes: seq<u32>): (ps: seq<Inpoint>)
    ensures |ps| == |indexes|
  {
    seq(|indexes|, i requires 0 <= i < |indexes| => Inpoint(h, indexes[i]))
  }

  function Flatten(parents: seq<Hash>, idxs: seq<seq<u32>>): seq<Inpoint>
    requires |parents| == |idxs|
  {
    if parents == [] then []
    else Flatten(parents[..|parents| - 1], idxs[..|idxs| - 1]) + WithHash(parents[|parents| - 1], idxs[|idxs| - 1])
  }

  method GetTxInpoints(p: TxInpoints) returns (inpoints: seq<Inpoint>)
    requires |p.parents| == |p.idxs|
    ensures inpoints == Flatten(p.parents, p.idxs)
  {
    inpoints := [];
    for i := 0 to |p.parents|
      invariant inpoints == Flatten(p.parents[..i], p.idxs[..i])
    {
      ghost var before := inpoints;
      for j := 0 to |p.idxs[i]|
        invariant inpoints == before + WithHash(p.parents[i], p.idxs[i])[..j]
      {
        inpoints := inpoints + [Inpoint(p.parents[i], p.idxs[i][j])];
      }
      assert p.parents[..i + 1][..i] == p.parents[..i] && p.idxs[..i + 1][..i] == p.idxs[..i];
    }
    assert p.parents[..|p.parents|] == p.parents && p.idxs[..|p.idxs|] == p.idxs;
  }

  function IndexCount(idxs: seq<seq<u32>>): nat {
    if idxs == [] then 0 else IndexCount(idxs[..|idxs| - 1]) + |idxs[|idxs| - 1]|
  }

  lemma {:induction false} FlattenSize(parents: seq<Hash>, idxs: seq<seq<u32>>)
    requires |parents| == |idxs|
    ensures |Flatten(parents, idxs)| == IndexCount(idxs)
    decreases |idxs|
  {
    if idxs != [] {
      FlattenSize(parents[..|parents| - 1], idxs[..|idxs| - 1]);
    }
  }

  /** Parent by parent in order, and the indexes of each in order. */
  lemma {:induction false} FlattenPlace(parents: seq<Hash>, idxs: seq<seq<u32>>, i: nat, j: nat)
    requires |parents| == |idxs| && i < |parents| && j < |idxs[i]|
    ensures IndexCount(idxs[..i]) + j < |Flatten(parents, idxs)|
    ensures Flatten(parents, idxs)[IndexCount(idxs[..i]) + j] == Inpoint(parents[i], idxs[i][j])
    decreases |idxs|
  {
    var n := |idxs| - 1;
    FlattenSize(parents[..n], idxs[..n]);
    if i < n {
      FlattenPlace(parents[..n], idxs[..n], i, j);
      assert idxs[..n][..i] == idxs[..i];
    }
  }

  /** Inputs with the given parent, in order. */
  function Of(inputs: seq<Inpoint>, h: Hash): seq<Inpoint> {
    if inputs == [] then []
    else Of(inputs[..|inputs| - 1], h) + (if inputs[|inputs| - 1].hash == h then [inputs[|inputs| - 1]] else [])
  }

  lemma {:induction false} OfAppend(a: seq<Inpoint>, b: seq<Inpoint>, h: Hash)
    ensures Of(a + b, h) == Of(a, h) + Of(b, h)
    decreases |b|
  {
    if b == [] {
      assert a + b == a;
    } else {
      OfAppend(a, b[..|b| - 1], h);
      assert (a + b)[..|a + b| - 1] == a + b[..|b| - 1];
    }
  }

  lemma {:induction false} OfWithHash(k: Hash, indexes: seq<u32>, h: Hash)
    ensures Of(WithHash(k, indexes), h) == if h == k then WithHash(k, indexes) else []
    decreases |indexes|
  {
    if indexes != [] {
      OfWithHash(k, indexes[..|indexes| - 1], h);
      assert WithHash(k, indexes)[..|indexes| - 1] == WithHash(k, indexes[..|indexes| - 1]);
    }
  }

  lemma {:induction false} OfIsIndexes(inputs: seq<Inpoint>, h: Hash)
    ensures Of(inputs, h) == WithHash(h, IndexesOf(inputs, h))
  {
    if inputs != [] {
      OfIsIndexes(inputs[..|inputs| - 1], h);
    }
  }

  predicate Distinct(parents: seq<Hash>) {
    forall i, j :: 0 <= i < j < |parents| ==> parents[i] != parents[j]
  }

  lemma FlattenStep(parents: seq<Hash>, idxs: seq<seq<u32>>, n: nat, h: Hash)
    requires |parents| == |idxs| == n + 1
    ensures Of(Flatten(parents, idxs), h) ==
            Of(Flatten(parents[..n], idxs[..n]), h) + (if h == parents[n] then WithHash(h, idxs[n]) else [])
  {
    OfAppend(Flatten(parents[..n], idxs[..n]), WithHash(parents[n], idxs[n]), h);
    OfWithHash(parents[n], idxs[n], h);
  }

  lemma {:induction false} OfFlattenNone(parents: seq<Hash>, idxs: seq<seq<u32>>, h: Hash)
    requires |parents| == |idxs| && h !in parents
    ensures Of(Flatten(parents, idxs), h) == []
    decreases |parents|
  {
    if parents != [] {
      var n := |parents| - 1;
      FlattenStep(parents, idxs, n, h);
      OfFlattenNone(parents[..n], idxs[..n], h);
    }
  }

  /** The group of a parent in the flattened list. */
  lemma {:induction false} OfFlattenAt(parents: seq<Hash>, idxs: seq<seq<u32>>, i: nat, h: Hash)
    requires |parents| == |idxs| && i < |parents| && h == parents[i] && Distinct(parents)
    ensures Of(Flatten(parents, idxs), h) == WithHash(h, idxs[i])
    decreases |parents|
  {
    var n := |parents| - 1;
    FlattenStep(parents, idxs, n, h);
    if i == n {
      OfFlattenNone(parents[..n], idxs[..n], h);
    } else {
      assert parents[i] != parents[n];
      OfFlattenAt(parents[..n], idxs[..n], i, h);
    }
  }

  lemma {:induction false} OfCounts(s: seq<Inpoint>, x: Inpoint)
    ensures multiset(Of(s, x.hash))[x] == multiset(s)[x]
  {
    if s != [] {
      OfCounts(s[..|s| - 1], x);
      assert s == s[..|s| - 1] + [s[|s| - 1]];
    }
  }

  /** It is a permutation of the inputs. */
  lemma FlattenIsPermutation(p: TxInpoints, inputs: seq<Inpoint>)
    requires Groups(p, inputs)
    ensures multiset(Flatten(p.parents, p.idxs)) == multiset(inputs)
  {
    var flat := Flatten(p.parents, p.idxs);
    forall x: Inpoint
      ensures multiset(flat)[x] == multiset(inputs)[x]
    {
      FlattenIsStable(p, inputs, x.hash);
      OfCounts(flat, x);
      OfCounts(inputs, x);
    }
  }

  /** The flattened list is stable by parent: for every parent it has the same inputs in the
      same order. */
  lemma FlattenIsStable(p: TxInpoints, inputs: seq<Inpoint>, h: Hash)
    requires Groups(p, inputs)
    ensures Of(Flatten(p.parents, p.idxs), h) == Of(inputs, h)
  {
    AppearancesDistinct(inputs);
    OfIsIndexes(inputs, h);
    NoIndexes(inputs, h);
    var i := Position(p.parents, h);
    if i < |p.parents| {
      OfFlattenAt(p.parents, p.idxs, i, h);
    } else {
      OfFlattenNone(p.parents, p.idxs, h);
    }
  }

  // ----- The encoding

  function TakeU32(data: seq<byte>): Taken<u32> {
    Widths();
    match TakeNumber(4, data)
    case None => None
    case Some((n, rest)) => Some((n, rest))
  }

  const NUMBERS: Codec<u32> := Codec((n: u32) => true, (n: u32) => Encode(n, 4), (d: seq<byte>) => TakeU32(d))

  lemma NumbersFaithful()
    ensures Faithful(NUMBERS)
  {
    Widths();
    forall n: u32
      ensures RoundTrips(NUMBERS, n)
    {
      forall rest: seq<byte>
        ensures NUMBERS.take(NUMBERS.encode(n) + rest) == Some((n, rest))
      {
        NumberRoundTrip(n, 4, rest);
      }
    }
    forall data: seq<byte>
      ensures TakesExactly(NUMBERS, data)
    {
      NumberExact(4, data);
    }
  }

  predicate ListOk(xs: seq<u32>) {
    |xs| < 0x1_0000_0000
  }

  const LISTS: Codec<seq<u32>> :=
    Codec((xs: seq<u32>) => ListOk(xs), (xs: seq<u32>) => EncodeCounted(NUMBERS, 4, xs),
          (d: seq<byte>) => TakeCounted(NUMBERS, 4, d))

  lemma ListsFaithful()
    ensures Faithful(LISTS)
  {
    NumbersFaithful();
    Widths();
    forall xs: seq<u32>
      ensures RoundTrips(LISTS, xs)
    {
      if ListOk(xs) {
        forall rest: seq<byte>
          ensures LISTS.take(LISTS.encode(xs) + rest) == Some((xs, rest))
        {
          CountedRoundTrip(NUMBERS, 4, xs, rest);
        }
      }
    }
    forall data: seq<byte>
      ensures TakesExactly(LISTS, data)
    {
      CountedExact(NUMBERS, 4, data);
    }
  }

  /** The lists have the same length, and every length fits 32 bits. */
  predicate Encodable(p: TxInpoints) {
    && |p.parents| == |p.idxs| < 0x1_0000_0000
    && (forall i :: 0 <= i < |p.idxs| ==> ListOk(p.idxs[i]))
    && (p.unset ==> p.parents == [])
  }

  function EncodeInpoints(p: TxInpoints): seq<byte> {
    Encode(|p.parents|, 4) + (EncodeAll(HASHES, p.parents) + EncodeAll(LISTS, p.idxs))
  }

  lemma {:induction false} NumbersSize(xs: seq<u32>)
    ensures |EncodeAll(NUMBERS, xs)| == 4 * |xs|
  {
    if xs != [] {
      NumbersSize(xs[..|xs| - 1]);
    }
  }

  /** A list of output indexes: its length, then the indexes, four bytes each. */
  ghost predicate HasList(bytes: seq<byte>, at: nat, xs: seq<u32>) {
    && Has(bytes, at, Encode(|xs|, 4))
    && forall j :: 0 <= j < |xs| ==> Has(bytes, at + 4 + 4 * j, Encode(xs[j], 4))
  }

  lemma {:induction false} ListParts(bytes: seq<byte>, at: nat, xs: seq<u32>)
    requires Has(bytes, at, EncodeCounted(NUMBERS, 4, xs))
    ensures HasList(bytes, at, xs)
  {
    var part, n, body := EncodeCounted(NUMBERS, 4, xs), Encode(|xs|, 4), EncodeAll(NUMBERS, xs);
    HasMiddle([], n, body, part);
    HasMiddle(n, body, [], part);
    HasInner(bytes, at, part, 0, n);
    HasInner(bytes, at, part, 4, body);
    forall j | 0 <= j < |xs|
      ensures Has(bytes, at + 4 + 4 * j, Encode(xs[j], 4))
    {
      NumbersSize(xs[..j]);
      EncodedAt(NUMBERS, xs, j);
      HasInner(bytes, at + 4, body, 4 * j, Encode(xs[j], 4));
    }
  }

  /** The bytes before list i: the number of parents, their hashes, and the lists before it. */
  function ListStart(p: TxInpoints, i: nat): nat
    requires i <= |p.idxs|
  {
    if i == 0 then 4 + 32 * |p.parents| else ListStart(p, i - 1) + 4 + 4 * |p.idxs[i - 1]|
  }

  lemma {:induction false} ListStartIsSize(p: TxInpoints, i: nat)
    requires i <= |p.idxs|
    ensures ListStart(p, i) == 4 + 32 * |p.parents| + |EncodeAll(LISTS, p.idxs[..i])|
  {
    if i > 0 {
      ListStartIsSize(p, i - 1);
      NumbersSize(p.idxs[i - 1]);
      assert p.idxs[..i][..i - 1] == p.idxs[..i - 1];
    }
  }

  lemma {:induction false} InpointsParts(p: TxInpoints)
    ensures var b := EncodeInpoints(p);
            && Has(b, 0, Encode(|p.parents|, 4)) && Has(b, 4, EncodeAll(HASHES, p.parents))
            && Has(b, 4 + 32 * |p.parents|, EncodeAll(LISTS, p.idxs))
  {
    HashesSize(p.parents);
    ThreeParts(Encode(|p.parents|, 4), EncodeAll(HASHES, p.parents), EncodeAll(LISTS, p.idxs));
  }

  lemma {:induction false} ListPlace(p: TxInpoints, i: nat, bytes: seq<byte>)
    requires i < |p.idxs| && Has(bytes, 4 + 32 * |p.parents|, EncodeAll(LISTS, p.idxs))
    ensures Has(bytes, ListStart(p, i), EncodeCounted(NUMBERS, 4, p.idxs[i]))
  {
    ListStartIsSize(p, i);
    EncodedAt(LISTS, p.idxs, i);
    var before := |EncodeAll(LISTS, p.idxs[..i])|;
    HasInner(bytes, 4 + 32 * |p.parents|, EncodeAll(LISTS, p.idxs), before, EncodeCounted(NUMBERS, 4, p.idxs[i]));
  }

  /** The number of parents, their hashes, then one list of output indexes for each. */
  lemma {:induction false} InpointsLayout(p: TxInpoints, i: nat)
    requires |p.parents| == |p.idxs| && i < |p.parents|
    ensures var b := EncodeInpoints(p);
            && Has(b, 0, Encode(|p.parents|, 4)) && Has(b, 4 + 32 * i, p.parents[i])
            && HasList(b, ListStart(p, i), p.idxs[i])
  {
    var b := EncodeInpoints(p);
    InpointsParts(p);
    HashAt(p.parents, i);
    HasInner(b, 4, EncodeAll(HASHES, p.parents), 32 * i, p.parents[i]);
    ListPlace(p, i, b);
    ListParts(b, ListStart(p, i), p.idxs[i]);
  }

  /** No parents at all are read back as unset lists. */
  function TakeInpoints(data: seq<byte>): Taken<TxInpoints> {
    match TakeNumber(4, data)
    case None => None
    case Some((n, rest)) =>
      match TakeMany(HASHES, n, rest)
      case None => None
      case Some((parents, rest')) =>
        match TakeMany(LISTS, n, rest')
        case None => None
        case Some((idxs, rest'')) => Some((TxInpoints(parents, idxs, n == 0), rest''))
  }

  function Normal(p: TxInpoints): TxInpoints {
    p.(unset := p.parents == [])
  }

  /** Decoding gives the value back, up to unset versus empty, and leaves what followed. */
  lemma InpointsRoundTrip(p: TxInpoints, rest: seq<byte>)
    requires Encodable(p)
    ensures TakeInpoints(EncodeInpoints(p) + rest) == Some((Normal(p), rest))
  {
    HashesFaithful();
    ListsFaithful();
    Widths();
    var last := EncodeAll(LISTS, p.idxs) + rest;
    var body := EncodeAll(HASHES, p.parents) + last;
    assert EncodeInpoints(p) + rest == Encode(|p.parents|, 4) + body;
    NumberRoundTrip(|p.parents|, 4, body);
    ManyRoundTrip(HASHES, p.parents, last);
    ManyRoundTrip(LISTS, p.idxs, rest);
  }

  /** Bytes that decode are the encoding of what they decode to. */
  lemma InpointsExact(data: seq<byte>, p: TxInpoints, rest: seq<byte>)
    requires TakeInpoints(data) == Some((p, rest))
    ensures Encodable(p) && Normal(p) == p && data == EncodeInpoints(p) + rest
  {
    HashesFaithful();
    ListsFaithful();
    Widths();
    NumberExact(4, data);
    var n, body := TakeNumber(4, data).value.0, TakeNumber(4, data).value.1;
    ManyExact(HASHES, n, body);
    var last := TakeMany(HASHES, n, body).value.1;
    ManyExact(LISTS, n, last);
    Regroup(Encode(n, 4), EncodeAll(HASHES, p.parents), EncodeAll(LISTS, p.idxs), rest);
    forall i | 0 <= i < |p.idxs|
      ensures ListOk(p.idxs[i])
    {
      assert LISTS.ok(p.idxs[i]);
    }
  }

  // ----- Reading and writing

  /** The length as it is written: lists too long for 32 bits get another number. */
  function Len32(n: nat): nat {
    if n > 0xffff_ffff then 0x7fff_ffff else n
  }

  method Serialize(p: TxInpoints) returns (bytes: Option<seq<byte>>)
    ensures bytes.None? <==> |p.parents| != |p.idxs|
    ensures Encodable(p) ==> bytes == Some(EncodeInpoints(p))
  {
    if |p.parents| != |p.idxs| {
      return None;
    }
    var hashes: seq<byte> := [];
    for i := 0 to |p.parents|
      invariant hashes == EncodeAll(HASHES, p.parents[..i])
    {
      assert p.parents[..i + 1][..i] == p.parents[..i];
      hashes := hashes + p.parents[i];
    }
    assert p.parents[..|p.parents|] == p.parents;
    var lists := SerializeLists(p.idxs);
    return Some(Encode(Len32(|p.parents|), 4) + (hashes + lists));
  }

  method SerializeLists(idxs: seq<seq<u32>>) returns (bytes: seq<byte>)
    ensures (forall i :: 0 <= i < |idxs| ==> ListOk(idxs[i])) ==> bytes == EncodeAll(LISTS, idxs)
  {
    bytes := [];
    ghost var fits := forall i :: 0 <= i < |idxs| ==> ListOk(idxs[i]);
    for i := 0 to |idxs|
      invariant fits ==> bytes == EncodeAll(LISTS, idxs[..i])
    {
      assert idxs[..i + 1][..i] == idxs[..i];
      var list := SerializeList(idxs[i]);
      bytes := bytes + (Encode(Len32(|idxs[i]|), 4) + list);
    }
    assert idxs[..|idxs|] == idxs;
  }

  method SerializeList(indexes: seq<u32>) returns (bytes: seq<byte>)
    ensures bytes == EncodeAll(NUMBERS, indexes)
  {
    bytes := [];
    for i := 0 to |indexes|
      invariant bytes == EncodeAll(NUMBERS, indexes[..i])
    {
      assert indexes[..i + 1][..i] == indexes[..i];
      bytes := bytes + Encode(indexes[i], 4);
    }
    assert indexes[..|indexes|] == indexes;
  }

  method ReadList(reader: Reader) returns (xs: Option<seq<u32>>)
    modifies reader
    ensures xs.Some? <==> TakeCounted(NUMBERS, 4, old(reader.data)).Some?
    ensures xs.Some? ==> TakeCounted(NUMBERS, 4, old(reader.data)) == Some((xs.value, reader.data))
  {
    var count := reader.ReadNumber(4);
    if count.None? {
      return None;
    }
    var read: seq<u32> := [];
    ghost var start := reader.data;
    for j := 0 to count.value
      invariant TakeMany(NUMBERS, j, start) == Some((read, reader.data))
    {
      var n := reader.ReadNumber(4);
      if n.None? {
        ShortMany(NUMBERS, j + 1, count.value, start);
        return None;
      }
      Widths();
      read := read + [n.value];
    }
    return Some(read);
  }

  method ReadInpoints(reader: Reader) returns (p: Option<TxInpoints>)
    modifies reader
    ensures p.Some? <==> TakeInpoints(old(reader.data)).Some?
    ensures p.Some? ==> TakeInpoints(old(reader.data)) == Some((p.value, reader.data))
  {
    var count := reader.ReadNumber(4);
    if count.None? {
      return None;
    }
    if count.value == 0 {
      return Some(UNSET);
    }
    var parents := reader.ReadHashes(count.value);
    if parents.None? {
      return None;
    }
    var idxs := ReadLists(reader, count.value);
    return if idxs.None? then None else Some(TxInpoints(parents.value, idxs.value, false));
  }

  method ReadLists(reader: Reader, n: nat) returns (idxs: Option<seq<seq<u32>>>)
    modifies reader
    ensures idxs.Some? <==> TakeMany(LISTS, n, old(reader.data)).Some?
    ensures idxs.Some? ==> TakeMany(LISTS, n, old(reader.data)) == Some((idxs.value, reader.data))
  {
    var read: seq<seq<u32>> := [];
    for i := 0 to n
      invariant TakeMany(LISTS, i, old(reader.data)) == Some((read, reader.data))
    {
      var list := ReadList(reader);
      if list.None? {
        ShortMany(LISTS, i + 1, n, old(reader.data));
        return None;
      }
      read := read + [list.value];
    }
    return Some(read);
  }
}
