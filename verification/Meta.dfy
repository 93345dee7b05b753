/** The metadata of a subtree: the parents of each of its transactions. */
module Metas {
  import opened Base
  import opened LittleEndian
  import opened Codecs
  import opened Inpoints
  import opened MerkleStore
  import opened Subtrees

  const MAX_UINT32 := 0xffff_ffff

  // ----- The encoding

  predicate ReadableBack(p: TxInpoints) {
    Encodable(p) && Normal(p) == p
  }

  const INPOINTS: Codec<TxInpoints> :=
    Codec((p: TxInpoints) => ReadableBack(p), (p: TxInpoints) => EncodeInpoints(p), (d: seq<byte>) => TakeInpoints(d))

  lemma InpointsFaithful()
    ensures Faithful(INPOINTS)
  {
    forall p: TxInpoints
      ensures RoundTrips(INPOINTS, p)
    {
      if ReadableBack(p) {
        forall rest: seq<byte>
          ensures INPOINTS.take(INPOINTS.encode(p) + rest) == Some((p, rest))
        {
          InpointsRoundTrip(p, rest);
        }
      }
    }
    forall data: seq<byte>
      ensures TakesExactly(INPOINTS, data)
    {
      if TakeInpoints(data).Some? {
        InpointsExact(data, TakeInpoints(data).value.0, TakeInpoints(data).value.1);
      }
    }
  }

  function EncodeMeta(root: Hash, ps: seq<TxInpoints>): seq<byte> {
    root + EncodeCounted(INPOINTS, 4, ps)
  }

  function TakeMeta(data: seq<byte>): Taken<(Hash, seq<TxInpoints>)> {
    match TakeHash(data)
    case None => None
    case Some((root, rest)) =>
      match TakeCounted(INPOINTS, 4, rest)
      case None => None
      case Some((ps, rest')) => Some(((root, ps), rest'))
  }

  function Normals(ps: seq<TxInpoints>): (ns: seq<TxInpoints>)
    ensures |ns| == |ps|
  {
    seq(|ps|, i requires 0 <= i < |ps| => Normal(ps[i]))
  }

  lemma {:induction false} SameBytes(ps: seq<TxInpoints>)
    ensures EncodeAll(INPOINTS, Normals(ps)) == EncodeAll(INPOINTS, ps)
  {
    if ps != [] {
      var n := |ps| - 1;
      SameBytes(ps[..n]);
      assert Normals(ps)[..n] == Normals(ps[..n]);
      assert EncodeInpoints(Normal(ps[n])) == EncodeInpoints(ps[n]);
    }
  }

  /** Everything comes back, except that empty lists become unset ones. */
  lemma MetaRoundTrip(root: Hash, ps: seq<TxInpoints>, rest: seq<byte>)
    requires |ps| <= MAX_UINT32 && AllEncodable(ps)
    ensures TakeMeta(EncodeMeta(root, ps) + rest) == Some(((root, Normals(ps)), rest))
  {
    InpointsFaithful();
    Widths();
    SameBytes(ps);
    var body := EncodeCounted(INPOINTS, 4, Normals(ps)) + rest;
    assert EncodeMeta(root, ps) + rest == root + body;
    TakeAppend(root, body);
    CountedRoundTrip(INPOINTS, 4, Normals(ps), rest);
  }

  /** The root, the number of entries in four bytes, then the entries one after the other. */
  lemma {:induction false} MetaLayout(root: Hash, ps: seq<TxInpoints>, i: nat)
    requires i < |ps|
    ensures var b := EncodeMeta(root, ps);
            && Has(b, 0, root) && Has(b, 32, Encode(|ps|, 4)) && Has(b, 36, EncodeAll(INPOINTS, ps))
            && Has(b, 36 + |EncodeAll(INPOINTS, ps[..i])|, EncodeInpoints(ps[i]))
  {
    ThreeParts(root, Encode(|ps|, 4), EncodeAll(INPOINTS, ps));
    EncodedAt(INPOINTS, ps, i);
    HasInner(EncodeMeta(root, ps), 36, EncodeAll(INPOINTS, ps), |EncodeAll(INPOINTS, ps[..i])|, EncodeInpoints(ps[i]));
  }

  predicate AllEncodable(ps: seq<TxInpoints>) {
    forall i :: 0 <= i < |ps| ==> Encodable(ps[i])
  }

  /** A list can be written when no transaction but the first has unset parents. */
  predicate Writable(ps: seq<TxInpoints>) {
    forall i :: 0 < i < |ps| ==> !ps[i].unset
  }

  lemma WritableAgain(ps: seq<TxInpoints>)
    ensures Writable(Normals(ps)) <==> forall i :: 0 < i < |ps| ==> ps[i].parents != []
  {
    if Writable(Normals(ps)) {
      forall i | 0 < i < |ps|
        ensures ps[i].parents != []
      {
        assert !Normals(ps)[i].unset;
      }
    }
  }

  // ----- The object

  class Meta {
    const subtree: Subtree
    var rootHash: Hash
    var txInpoints: seq<TxInpoints>

    /** One entry for every place in the subtree. */
    ghost predicate Valid()
      reads this, subtree
    {
      |txInpoints| == subtree.treeSize && |subtree.nodes| <= subtree.treeSize && subtree.Valid()
    }

    constructor (subtree: Subtree)
      requires subtree.Valid() && |subtree.nodes| <= subtree.treeSize
      ensures this.subtree == subtree && Valid()
      ensures forall i :: 0 <= i < |txInpoints| ==> txInpoints[i] == UNSET
    {
      this.subtree := subtree;
      rootHash := ZERO;
      txInpoints := seq(subtree.treeSize, i => UNSET);
    }

    method SetTxInpoints(idx: nat, p: TxInpoints) returns (ok: bool)
      requires Valid()
      modifies this`txInpoints
      ensures Valid() && (ok <==> idx < |old(txInpoints)|)
      ensures txInpoints == if ok then old(txInpoints)[idx := p] else old(txInpoints)
    {
      if idx >= |txInpoints| {
        return false;
      }
      txInpoints := txInpoints[idx := p];
      return true;
    }

    /** Writes the root and one entry per node. */
    method Serialize() returns (bytes: Option<seq<byte>>)
      requires Valid() && subtree.nodes != []
      modifies this`rootHash, subtree`rootHash
      ensures Valid()
      ensures AllEncodable(txInpoints[..|subtree.nodes|]) ==>
                (bytes.Some? <==> Writable(txInpoints[..|subtree.nodes|]) && |subtree.nodes| <= MAX_UINT32)
      ensures AllEncodable(txInpoints[..|subtree.nodes|]) && bytes.Some? ==>
                bytes.value == EncodeMeta(StoreRoot(subtree.H, Hashes(subtree.nodes)), txInpoints[..|subtree.nodes|])
    {
      var n := |subtree.nodes|;
      var set_ := ParentsSet(n);
      if !set_ {
        return None;
      }
      var root := subtree.RootHash();
      rootHash := root.value;
      if n > MAX_UINT32 {
        return None;
      }
      var entries := SerializeTxInpoints(n);
      if entries.None? {
        return None;
      }
      bytes := Some(rootHash + (Encode(n, 4) + entries.value));
    }

    method ParentsSet(n: nat) returns (ok: bool)
      requires n <= |txInpoints|
      ensures ok <==> Writable(txInpoints[..n])
    {
      for i := 0 to n
        invariant forall j :: 0 < j < i ==> !txInpoints[j].unset
      {
        if i != 0 && txInpoints[i].unset {
          assert txInpoints[..n][i].unset;
          return false;
        }
      }
      return true;
    }

    method SerializeTxInpoints(n: nat) returns (bytes: Option<seq<byte>>)
      requires n <= |txInpoints|
      ensures AllEncodable(txInpoints[..n]) ==> bytes == Some(EncodeAll(INPOINTS, txInpoints[..n]))
    {
      var written: seq<byte> := [];
      for i := 0 to n
        invariant AllEncodable(txInpoints[..n]) ==> written == EncodeAll(INPOINTS, txInpoints[..i])
      {
        assert txInpoints[..n][i] == txInpoints[i];
        var entry := Inpoints.Serialize(txInpoints[i]);
        if entry.None? {
          return None;
        }
        assert txInpoints[..i + 1][..i] == txInpoints[..i];
        written := written + entry.value;
      }
      return Some(written);
    }

    /** Reads the entries into the first places; the others are unset. More entries than places
        count as a failure here. */
    method Deserialize(data: seq<byte>) returns (ok: bool)
      requires Valid()
      modifies this
      ensures ok <==> TakeMeta(data).Some? && |TakeMeta(data).value.0.1| <= subtree.treeSize
      ensures ok ==> Valid() && rootHash == TakeMeta(data).value.0.0
      ensures ok ==> txInpoints == FilledUp(TakeMeta(data).value.0.1, subtree.treeSize)
    {
      var reader := new Reader(data);
      var root := reader.ReadHash();
      if root.None? {
        return false;
      }
      rootHash := root.value;
      var count := reader.ReadNumber(4);
      if count.None? {
        return false;
      }
      var entries := ReadEntries(reader, count.value);
      if entries.None? || |entries.value| > subtree.treeSize {
        return false;
      }
      txInpoints := entries.value + seq(subtree.treeSize - |entries.value|, i => UNSET);
      return true;
    }
  }

  function FilledUp(ps: seq<TxInpoints>, size: nat): seq<TxInpoints>
    requires |ps| <= size
  {
    ps + seq(size - |ps|, i => UNSET)
  }

  method ReadEntries(reader: Reader, n: nat) returns (ps: Option<seq<TxInpoints>>)
    modifies reader
    ensures ps.Some? <==> TakeMany(INPOINTS, n, old(reader.data)).Some?
    ensures ps.Some? ==> TakeMany(INPOINTS, n, old(reader.data)) == Some((ps.value, reader.data))
  {
    var read: seq<TxInpoints> := [];
    for i := 0 to n
      invariant TakeMany(INPOINTS, i, old(reader.data)) == Some((read, reader.data))
    {
      var p := ReadInpoints(reader);
      if p.None? {
        ShortMany(INPOINTS, i + 1, n, old(reader.data));
        return None;
      }
      read := read + [p.value];
    }
    return Some(read);
  }

  /** Metadata with the given entries in the first places. */
  method FromEntries(subtree: Subtree, ps: seq<TxInpoints>) returns (m: Meta)
    requires subtree.Valid() && |subtree.nodes| <= subtree.treeSize && |ps| <= subtree.treeSize
    ensures fresh(m) && m.subtree == subtree && m.Valid() && m.txInpoints == FilledUp(ps, subtree.treeSize)
  {
    m := new Meta(subtree);
    for i := 0 to |ps|
      invariant m.subtree == subtree && m.Valid() && m.txInpoints == FilledUp(ps[..i], subtree.treeSize)
      modifies m
    {
      var ok := m.SetTxInpoints(i, ps[i]);
    }
    assert ps[..|ps|] == ps;
  }

  /** Writing the metadata of a subtree and reading it into new metadata of the same subtree. */
  method WriteThenRead(m: Meta) returns (back: Option<Meta>)
    requires m.Valid() && m.subtree.nodes != [] && |m.subtree.nodes| <= MAX_UINT32
    requires AllEncodable(m.txInpoints[..|m.subtree.nodes|])
    modifies m`rootHash, m.subtree`rootHash
    ensures back.Some? <==> Writable(m.txInpoints[..|m.subtree.nodes|])
    ensures back.Some? ==>
              && back.value.Valid() && back.value.subtree == m.subtree
              && back.value.rootHash == StoreRoot(m.subtree.H, Hashes(m.subtree.nodes))
              && forall i :: 0 <= i < |m.txInpoints| ==>
                   back.value.txInpoints[i] == if i < |m.subtree.nodes| then Normal(m.txInpoints[i]) else UNSET
    ensures back.Some? ==>
              (Writable(back.value.txInpoints[..|m.subtree.nodes|]) <==>
               forall i :: 0 < i < |m.subtree.nodes| ==> m.txInpoints[i].parents != [])
  {
    var bytes := m.Serialize();
    if bytes.None? {
      return None;
    }
    ghost var ps := m.txInpoints[..|m.subtree.nodes|];
    ghost var root := StoreRoot(m.subtree.H, Hashes(m.subtree.nodes));
    MetaRoundTrip(root, ps, []);
    assert bytes.value + [] == bytes.value;
    var meta := new Meta(m.subtree);
    var ok := meta.Deserialize(bytes.value);
    assert meta.txInpoints[..|ps|] == Normals(ps);
    WritableAgain(ps);
    return Some(meta);
  }
}
