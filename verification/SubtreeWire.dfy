/**
 The serialised form of a subtree, and its three readers: everything, the node hashes only, and
 the conflicting nodes only.
 */
module SubtreeWire {
  import opened Base
  import opened Powers
  import opened LittleEndian
  import opened Codecs
  import opened Merkle
  import opened MerkleStore
  import opened Subtrees

  const MAX_INT := 0x7fff_ffff_ffff_ffff

  /** What is written. */
  datatype Image = Image(root: Hash, fees: u64, size: u64, nodes: seq<Node>, conflicting: seq<Hash>)

  function EncodeNode(n: Node): (bytes: seq<byte>)
    ensures |bytes| == 48
  {
    n.hash + Encode(n.fee, 8) + Encode(n.size, 8)
  }

  function TakeNode(data: seq<byte>): Taken<Node> {
    if |data| < 48 then None
    else
      Widths();
      Some((Node(data[..32], Decode(data[32..40]), Decode(data[40..48])), data[48..]))
  }

  const NODES: Codec<Node> := Codec((n: Node) => true, (n: Node) => EncodeNode(n), (d: seq<byte>) => TakeNode(d))

  lemma NodeRoundTrip(n: Node, rest: seq<byte>)
    ensures TakeNode(EncodeNode(n) + rest) == Some((n, rest))
  {
    var d := EncodeNode(n) + rest;
    Widths();
    DecodeEncode(n.fee, 8);
    DecodeEncode(n.size, 8);
    assert d[..32] == n.hash && d[32..40] == Encode(n.fee, 8) && d[40..48] == Encode(n.size, 8) && d[48..] == rest;
  }

  lemma NodeExact(data: seq<byte>)
    ensures TakeNode(data).Some? ==> data == EncodeNode(TakeNode(data).value.0) + TakeNode(data).value.1
  {
    if TakeNode(data).Some? {
      EncodeDecode(data[32..40]);
      EncodeDecode(data[40..48]);
      assert data == data[..32] + data[32..40] + data[40..48] + data[48..];
    }
  }

  lemma NodesFaithful()
    ensures Faithful(NODES)
  {
    forall n: Node
      ensures RoundTrips(NODES, n)
    {
      forall rest: seq<byte>
        ensures NODES.take(NODES.encode(n) + rest) == Some((n, rest))
      {
        NodeRoundTrip(n, rest);
      }
    }
    forall data: seq<byte>
      ensures TakesExactly(NODES, data)
    {
      NodeExact(data);
    }
  }

  // ----- The whole image

  function EncodeHead(img: Image): (bytes: seq<byte>)
    ensures |bytes| == 48
  {
    img.root + Encode(img.fees, 8) + Encode(img.size, 8)
  }

  function EncodeImage(img: Image): seq<byte> {
    EncodeHead(img) + (EncodeCounted(NODES, 8, img.nodes) + EncodeCounted(HASHES, 8, img.conflicting))
  }

  /** Everything, in order: the head has the form of a node. */
  function TakeImage(data: seq<byte>): Taken<Image> {
    match TakeNode(data)
    case None => None
    case Some((head, rest)) =>
      match TakeCounted(NODES, 8, rest)
      case None => None
      case Some((nodes, rest')) =>
        match TakeCounted(HASHES, 8, rest')
        case None => None
        case Some((conflicting, rest'')) => Some((Image(head.hash, head.fee, head.size, nodes, conflicting), rest''))
  }

  /** Lengths that a 64-bit count can hold. */
  predicate Countable(img: Image) {
    |img.nodes| < TWO64 && |img.conflicting| < TWO64
  }

  lemma HeadIsNode(img: Image)
    ensures EncodeHead(img) == EncodeNode(Node(img.root, img.fees, img.size))
  {
  }

  lemma {:induction false} ListsRoundTrip(nodes: seq<Node>, conflicting: seq<Hash>, rest: seq<byte>)
    requires |nodes| < TWO64 && |conflicting| < TWO64
    ensures var last := EncodeCounted(HASHES, 8, conflicting) + rest;
            && TakeCounted(NODES, 8, EncodeCounted(NODES, 8, nodes) + last) == Some((nodes, last))
            && TakeCounted(HASHES, 8, last) == Some((conflicting, rest))
  {
    HashesFaithful();
    NodesFaithful();
    Widths();
    CountedRoundTrip(NODES, 8, nodes, EncodeCounted(HASHES, 8, conflicting) + rest);
    CountedRoundTrip(HASHES, 8, conflicting, rest);
  }

  /** Reading back what was written, whatever follows it. */
  lemma {:induction false} ImageRoundTrip(img: Image, rest: seq<byte>)
    requires Countable(img)
    ensures TakeImage(EncodeImage(img) + rest) == Some((img, rest))
  {
    var body := EncodeCounted(NODES, 8, img.nodes) + (EncodeCounted(HASHES, 8, img.conflicting) + rest);
    assert EncodeImage(img) + rest == EncodeHead(img) + body;
    HeadIsNode(img);
    NodeRoundTrip(Node(img.root, img.fees, img.size), body);
    ListsRoundTrip(img.nodes, img.conflicting, rest);
  }

  lemma {:induction false} ListsExact(body: seq<byte>, nodes: seq<Node>, last: seq<byte>, conflicting: seq<Hash>,
                                      rest: seq<byte>)
    requires TakeCounted(NODES, 8, body) == Some((nodes, last))
    requires TakeCounted(HASHES, 8, last) == Some((conflicting, rest))
    ensures |nodes| < TWO64 && |conflicting| < TWO64
    ensures body == EncodeCounted(NODES, 8, nodes) + (EncodeCounted(HASHES, 8, conflicting) + rest)
  {
    HashesFaithful();
    NodesFaithful();
    Widths();
    CountedExact(NODES, 8, body);
    CountedExact(HASHES, 8, last);
  }

  /** Bytes that can be read are the bytes of what was read: there is one encoding. */
  lemma {:induction false} ImageExact(data: seq<byte>)
    ensures TakeImage(data).Some? ==>
              && Countable(TakeImage(data).value.0)
              && data == EncodeImage(TakeImage(data).value.0) + TakeImage(data).value.1
  {
    if TakeImage(data).Some? {
      var img, rest := TakeImage(data).value.0, TakeImage(data).value.1;
      var body := TakeNode(data).value.1;
      NodeExact(data);
      HeadIsNode(img);
      ListsExact(body, img.nodes, TakeCounted(NODES, 8, body).value.1, img.conflicting, rest);
      Regroup(EncodeHead(img), EncodeCounted(NODES, 8, img.nodes), EncodeCounted(HASHES, 8, img.conflicting), rest);
    }
  }

  // ----- Where the fields are

  lemma {:induction false} NodesSize(nodes: seq<Node>)
    ensures |EncodeAll(NODES, nodes)| == 48 * |nodes|
  {
    if nodes != [] {
      NodesSize(nodes[..|nodes| - 1]);
    }
  }

  lemma {:induction false} NodeAt(nodes: seq<Node>, i: nat)
    requires i < |nodes|
    ensures Has(EncodeAll(NODES, nodes), 48 * i, EncodeNode(nodes[i]))
  {
    NodesSize(nodes[..i]);
    EncodedAt(NODES, nodes, i);
  }

  /** A node's record: hash, fee and size. */
  ghost predicate HasRecord(bytes: seq<byte>, at: nat, n: Node) {
    Has(bytes, at, n.hash) && Has(bytes, at + 32, Encode(n.fee, 8)) && Has(bytes, at + 40, Encode(n.size, 8))
  }

  lemma RecordParts(n: Node)
    ensures HasRecord(EncodeNode(n), 0, n)
  {
    ThreeParts(n.hash, Encode(n.fee, 8), Encode(n.size, 8));
    assert EncodeNode(n) == n.hash + (Encode(n.fee, 8) + Encode(n.size, 8));
  }

  lemma {:induction false} RecordInner(bytes: seq<byte>, at: nat, n: Node)
    requires Has(bytes, at, EncodeNode(n))
    ensures HasRecord(bytes, at, n)
  {
    RecordParts(n);
    HasInner(bytes, at, EncodeNode(n), 0, n.hash);
    HasInner(bytes, at, EncodeNode(n), 32, Encode(n.fee, 8));
    HasInner(bytes, at, EncodeNode(n), 40, Encode(n.size, 8));
  }

  lemma {:induction false} CountedParts<T>(c: Codec<T>, xs: seq<T>, bytes: seq<byte>, at: nat)
    requires Has(bytes, at, EncodeCounted(c, 8, xs))
    ensures Has(bytes, at, Encode(|xs|, 8)) && Has(bytes, at + 8, EncodeAll(c, xs))
  {
    var n, all := Encode(|xs|, 8), EncodeAll(c, xs);
    HasMiddle([], n, all, n + all);
    HasMiddle(n, all, [], n + all);
    HasInner(bytes, at, n + all, 0, n);
    HasInner(bytes, at, n + all, 8, all);
  }

  lemma {:induction false} ImageParts(img: Image)
    ensures var b, n, m := EncodeImage(img), |img.nodes|, |img.conflicting|;
            && |b| == 64 + 48 * n + 32 * m
            && Has(b, 0, EncodeHead(img)) && Has(b, 48, Encode(n, 8)) && Has(b, 56, EncodeAll(NODES, img.nodes))
            && Has(b, 56 + 48 * n, Encode(m, 8)) && Has(b, 64 + 48 * n, EncodeAll(HASHES, img.conflicting))
  {
    NodesSize(img.nodes);
    HashesSize(img.conflicting);
    ThreeParts(EncodeHead(img), EncodeCounted(NODES, 8, img.nodes), EncodeCounted(HASHES, 8, img.conflicting));
    CountedParts(NODES, img.nodes, EncodeImage(img), 48);
    CountedParts(HASHES, img.conflicting, EncodeImage(img), 56 + 48 * |img.nodes|);
  }

  lemma {:induction false} NodesInner(bytes: seq<byte>, at: nat, nodes: seq<Node>, i: nat)
    requires Has(bytes, at, EncodeAll(NODES, nodes)) && i < |nodes|
    ensures HasRecord(bytes, at + 48 * i, nodes[i])
  {
    NodeAt(nodes, i);
    HasInner(bytes, at, EncodeAll(NODES, nodes), 48 * i, EncodeNode(nodes[i]));
    RecordInner(bytes, at + 48 * i, nodes[i]);
  }

  lemma {:induction false} HashesInner(bytes: seq<byte>, at: nat, hashes: seq<Hash>, i: nat)
    requires Has(bytes, at, EncodeAll(HASHES, hashes)) && i < |hashes|
    ensures Has(bytes, at + 32 * i, hashes[i])
  {
    HashAt(hashes, i);
    HasInner(bytes, at, EncodeAll(HASHES, hashes), 32 * i, hashes[i]);
  }

  /** Root, fee total and size total; the number of nodes, and their records; the number of conflicting
      nodes, and their hashes. */
  lemma {:induction false} ImageLayout(img: Image)
    ensures var b, n, m := EncodeImage(img), |img.nodes|, |img.conflicting|;
            && |b| == 64 + 48 * n + 32 * m
            && HasRecord(b, 0, Node(img.root, img.fees, img.size))
            && Has(b, 48, Encode(n, 8)) && Has(b, 56 + 48 * n, Encode(m, 8))
            && (forall i :: 0 <= i < n ==> HasRecord(b, 56 + 48 * i, img.nodes[i]))
            && forall j :: 0 <= j < m ==> Has(b, 64 + 48 * n + 32 * j, img.conflicting[j])
  {
    var b, n := EncodeImage(img), |img.nodes|;
    ImageParts(img);
    HeadIsNode(img);
    RecordInner(b, 0, Node(img.root, img.fees, img.size));
    forall i | 0 <= i < n
      ensures HasRecord(b, 56 + 48 * i, img.nodes[i])
    {
      NodesInner(b, 56, img.nodes, i);
    }
    forall j | 0 <= j < |img.conflicting|
      ensures Has(b, 64 + 48 * n + 32 * j, img.conflicting[j])
    {
      HashesInner(b, 64 + 48 * n, img.conflicting, j);
    }
  }

  // ----- The node hashes only

  function SerializeNodes(nodes: seq<Node>): seq<byte> {
    if nodes == [] then [] else SerializeNodes(nodes[..|nodes| - 1]) + nodes[|nodes| - 1].hash
  }

  /** The hashes one after the other. */
  lemma SerializedHash(nodes: seq<Node>, i: nat)
    requires i < |nodes|
    ensures |SerializeNodes(nodes)| == 32 * |nodes| && Has(SerializeNodes(nodes), 32 * i, nodes[i].hash)
  {
    SerializedAre(nodes);
    HashesSize(Hashes(nodes));
    HashAt(Hashes(nodes), i);
  }

  lemma {:induction false} SerializedAre(nodes: seq<Node>)
    ensures SerializeNodes(nodes) == EncodeAll(HASHES, Hashes(nodes))
  {
    if nodes != [] {
      var init := nodes[..|nodes| - 1];
      SerializedAre(init);
      assert Hashes(nodes)[..|nodes| - 1] == Hashes(init);
    }
  }

  /** Skips the head, and keeps 32 of every 48 bytes. */
  method DeserializeNodesFromReader(data: seq<byte>) returns (hashes: Option<seq<byte>>)
    ensures hashes == match TakeNode(data)
                      case None => None
                      case Some((_, rest)) =>
                        if TakeCounted(NODES, 8, rest).None? then None
                        else Some(SerializeNodes(TakeCounted(NODES, 8, rest).value.0))
  {
    var reader := new Reader(data);
    var head := reader.ReadFull(56);
    if head.None? {
      return None;
    }
    ghost var rest := TakeNode(data).value.1;
    assert head.value[48..56] == rest[..8] && reader.data == rest[8..];
    var numLeaves := Decode(head.value[48..56]);
    var bytes: seq<byte> := [];
    ghost var nodes: seq<Node> := [];
    for i := 0 to numLeaves
      invariant TakeMany(NODES, i, rest[8..]) == Some((nodes, reader.data))
      invariant bytes == SerializeNodes(nodes)
    {
      ghost var next := TakeNode(reader.data);
      var record := reader.ReadFull(48);
      if record.None? {
        ShortMany(NODES, i + 1, numLeaves, rest[8..]);
        return None;
      }
      bytes := bytes + record.value[..32];
      assert (nodes + [next.value.0])[..i] == nodes;
      nodes := nodes + [next.value.0];
    }
    return Some(bytes);
  }

  // ----- The conflicting nodes only

  /** 64-bit signed multiplication wraps around. */
  function Signed64(x: int): int {
    var m := x % TWO64;
    if m <= MAX_INT then m else m - TWO64
  }

  /** The one 64-bit signed integer that is equal modulo 2^64. */
  lemma SignedRange(x: int)
    ensures -0x8000_0000_0000_0000 <= Signed64(x) < 0x8000_0000_0000_0000
    ensures (x - Signed64(x)) % 0x1_0000_0000_0000_0000 == 0
  {
    var q, m := x / TWO64, x % TWO64;
    assert x - m == q * TWO64 && x - (m - TWO64) == (q + 1) * TWO64;
    MultipleOf(q, TWO64);
    MultipleOf(q + 1, TWO64);
  }

  lemma MultipleOf(q: int, d: nat)
    requires d > 0
    ensures (q * d) % d == 0
  {
    FloorUnique(q * d, d, q);
  }

  function Skip(n: int, data: seq<byte>): seq<byte> {
    if n < 0 then data else if n <= |data| then data[n..] else []
  }

  /** Errors of the two skips are ignored. */
  function TakeConflicting(data: seq<byte>): Option<seq<Hash>> {
    match TakeNumber(8, Skip(48, data))
    case None => None
    case Some((n, rest)) =>
      if n > MAX_INT then None
      else
        var taken := TakeCounted(HASHES, 8, Skip(Signed64(48 * n), rest));
        if taken.None? then None else Some(taken.value.0)
  }

  method DeserializeSubtreeConflictingFromReader(data: seq<byte>) returns (conflicting: Option<seq<Hash>>)
    ensures conflicting == TakeConflicting(data)
  {
    var reader := new Reader(data);
    reader.Discard(48);
    var numLeaves := reader.ReadNumber(8);
    if numLeaves.None? || numLeaves.value > MAX_INT {
      return None;
    }
    reader.Discard(Signed64(48 * numLeaves.value));
    var count := reader.ReadNumber(8);
    if count.None? {
      return None;
    }
    conflicting := reader.ReadHashes(count.value);
  }

  lemma SkipAppend(a: seq<byte>, rest: seq<byte>)
    ensures Skip(|a|, a + rest) == rest
  {
  }

  lemma SmallProduct(n: nat)
    requires 48 * n <= MAX_INT
    ensures Signed64(48 * n) == 48 * n
  {
  }

  /** The conflicting-nodes reader on a head, a count, that many nodes, and the rest. */
  lemma ConflictingAfter(head: seq<byte>, n: nat, nodes: seq<byte>, last: seq<byte>, data: seq<byte>)
    requires |head| == 48 && |nodes| == 48 * n <= MAX_INT
    requires data == head + (Encode(n, 8) + (nodes + last))
    ensures TakeConflicting(data) ==
            if TakeCounted(HASHES, 8, last).None? then None else Some(TakeCounted(HASHES, 8, last).value.0)
  {
    SkipAppend(head, Encode(n, 8) + (nodes + last));
    Widths();
    NumberRoundTrip(n, 8, nodes + last);
    SmallProduct(n);
    SkipAppend(nodes, last);
  }

  /** Whenever the full reader accepts, the other two give the same nodes and the same
      conflicting nodes; the last one needs the size of the nodes to fit a 64-bit integer. */
  lemma ReadersAgree(data: seq<byte>, img: Image, rest: seq<byte>)
    requires TakeImage(data) == Some((img, rest))
    ensures TakeNode(data).Some? && TakeCounted(NODES, 8, TakeNode(data).value.1).Some?
    ensures TakeCounted(NODES, 8, TakeNode(data).value.1).value.0 == img.nodes
    ensures 48 * |img.nodes| <= MAX_INT ==> TakeConflicting(data) == Some(img.conflicting)
  {
    if 48 * |img.nodes| <= MAX_INT {
      ImageExact(data);
      ConflictingAgrees(data, img, rest);
    }
  }

  lemma ConflictingAgrees(data: seq<byte>, img: Image, rest: seq<byte>)
    requires Countable(img) && data == EncodeImage(img) + rest && 48 * |img.nodes| <= MAX_INT
    ensures TakeConflicting(data) == Some(img.conflicting)
  {
    var last := EncodeCounted(HASHES, 8, img.conflicting) + rest;
    var nodes := EncodeAll(NODES, img.nodes);
    NodesSize(img.nodes);
    assert data == EncodeHead(img) + (Encode(|img.nodes|, 8) + (nodes + last));
    ConflictingAfter(EncodeHead(img), |img.nodes|, nodes, last, data);
    HashesFaithful();
    Widths();
    CountedRoundTrip(HASHES, 8, img.conflicting, rest);
  }

  // ----- Writing and restoring the object

  method SerializeNodeList(nodes: seq<Node>) returns (bytes: seq<byte>)
    ensures bytes == EncodeAll(NODES, nodes)
  {
    bytes := [];
    for i := 0 to |nodes|
      invariant bytes == EncodeAll(NODES, nodes[..i])
    {
      assert nodes[..i + 1][..i] == nodes[..i];
      bytes := bytes + (nodes[i].hash + Encode(nodes[i].fee, 8) + Encode(nodes[i].size, 8));
    }
    assert nodes[..|nodes|] == nodes;
  }

  method SerializeHashList(hashes: seq<Hash>) returns (bytes: seq<byte>)
    ensures bytes == EncodeAll(HASHES, hashes)
  {
    bytes := [];
    for i := 0 to |hashes|
      invariant bytes == EncodeAll(HASHES, hashes[..i])
    {
      assert hashes[..i + 1][..i] == hashes[..i];
      bytes := bytes + hashes[i];
    }
    assert hashes[..|hashes|] == hashes;
  }

  /** What a nonempty subtree writes: its root is computed first if it is not cached. */
  ghost function ImageOf(st: Subtree): Image
    requires st.nodes != []
    reads st
  {
    Image(StoreRoot(st.H, Hashes(st.nodes)), st.fees, st.sizeInBytes, st.nodes, st.conflictingNodes)
  }

  method Serialize(st: Subtree) returns (bytes: seq<byte>)
    requires st.Valid() && st.nodes != []
    modifies st`rootHash
    ensures st.Valid() && bytes == EncodeImage(ImageOf(st))
  {
    var root := st.RootHash();
    var nodes := SerializeNodeList(st.nodes);
    var conflicting := SerializeHashList(st.conflictingNodes);
    bytes := root.value + Encode(st.fees, 8) + Encode(st.sizeInBytes, 8);
    bytes := bytes + (Encode(|st.nodes|, 8) + nodes + (Encode(|st.conflictingNodes|, 8) + conflicting));
  }

  /** One node record, read in one go. */
  method ReadNode(reader: Reader) returns (node: Option<Node>)
    modifies reader
    ensures node.Some? <==> TakeNode(old(reader.data)).Some?
    ensures node.Some? ==> TakeNode(old(reader.data)) == Some((node.value, reader.data))
  {
    var record := reader.ReadFull(48);
    if record.None? {
      return None;
    }
    var r := record.value;
    ghost var d := old(reader.data);
    assert r[..32] == d[..32] && r[32..40] == d[32..40] && r[40..48] == d[40..48];
    Widths();
    return Some(Node(r[..32], Decode(r[32..40]), Decode(r[40..48])));
  }

  method ReadNodes(reader: Reader, n: nat) returns (nodes: Option<seq<Node>>)
    modifies reader
    ensures nodes.Some? <==> TakeMany(NODES, n, old(reader.data)).Some?
    ensures nodes.Some? ==> TakeMany(NODES, n, old(reader.data)) == Some((nodes.value, reader.data))
  {
    var read: seq<Node> := [];
    for i := 0 to n
      invariant TakeMany(NODES, i, old(reader.data)) == Some((read, reader.data))
    {
      var node := ReadNode(reader);
      if node.None? {
        ShortMany(NODES, i + 1, n, old(reader.data));
        return None;
      }
      read := read + [node.value];
    }
    return Some(read);
  }

  /** Root, fees and size, one after the other. */
  method ReadHead(reader: Reader) returns (head: Option<Node>)
    modifies reader
    ensures head.Some? <==> TakeNode(old(reader.data)).Some?
    ensures head.Some? ==> TakeNode(old(reader.data)) == Some((head.value, reader.data))
  {
    ghost var d := reader.data;
    var root := reader.ReadHash();
    if root.None? {
      return None;
    }
    var fees := reader.ReadNumber(8);
    if fees.None? {
      return None;
    }
    var size := reader.ReadNumber(8);
    if size.None? {
      return None;
    }
    Widths();
    assert d[32..][..8] == d[32..40] && d[40..][..8] == d[40..48];
    assert d[32..][8..] == d[40..] && d[40..][8..] == d[48..];
    return Some(Node(root.value, fees.value, size.value));
  }

  /** Everything, field by field. */
  method ReadImage(reader: Reader) returns (img: Option<Image>)
    modifies reader
    ensures img.Some? <==> TakeImage(old(reader.data)).Some?
    ensures img.Some? ==> TakeImage(old(reader.data)) == Some((img.value, reader.data))
  {
    var head := ReadHead(reader);
    if head.None? {
      return None;
    }
    var numLeaves := reader.ReadNumber(8);
    if numLeaves.None? {
      return None;
    }
    var nodes := ReadNodes(reader, numLeaves.value);
    if nodes.None? {
      return None;
    }
    var count := reader.ReadNumber(8);
    if count.None? {
      return None;
    }
    var conflicting := reader.ReadHashes(count.value);
    if conflicting.None? {
      return None;
    }
    return Some(Image(head.value.hash, head.value.fee, head.value.size, nodes.value, conflicting.value));
  }

  /** Writing a nonempty subtree and reading it back restores root, totals, nodes and
      conflicting nodes; the capacity becomes the number of leaves. */
  method SerializeThenDeserialize(st: Subtree) returns (back: Subtree)
    requires st.Valid() && st.nodes != [] && |st.nodes| < TWO64 && |st.conflictingNodes| < TWO64
    modifies st`rootHash
    ensures fresh(back) && back.Valid()
    ensures back.rootHash == Some(StoreRoot(st.H, Hashes(st.nodes)))
    ensures back.nodes == st.nodes && back.fees == st.fees && back.sizeInBytes == st.sizeInBytes
    ensures back.conflictingNodes == st.conflictingNodes
    ensures back.treeSize == |st.nodes| && back.height == CeilLog2(|st.nodes|)
  {
    var bytes := Serialize(st);
    ImageRoundTrip(ImageOf(st), []);
    assert bytes + [] == bytes;
    var reader := new Reader(bytes);
    var img := ReadImage(reader);
    back := new Subtree.Restored(st.H, img.value.root, img.value.fees, img.value.size, img.value.nodes,
      img.value.conflicting);
  }
}
