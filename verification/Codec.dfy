/**
 Self-delimiting encodings: decoding the bytes of a value followed by anything gives the value
 back and leaves what followed.
 */
module Codecs {
  import opened Base
  import opened LittleEndian

  /** A value and the bytes after it; None when the bytes run out. */
  type Taken<T> = Option<(T, seq<byte>)>

  datatype Codec<!T> = Codec(ok: T -> bool, encode: T -> seq<byte>, take: seq<byte> -> Taken<T>)

  ghost predicate RoundTrips<T(!new)>(c: Codec<T>, x: T) {
    c.ok(x) ==> forall rest :: c.take(c.encode(x) + rest) == Some((x, rest))
  }

  ghost predicate TakesExactly<T(!new)>(c: Codec<T>, data: seq<byte>) {
    c.take(data).Some? ==> c.ok(c.take(data).value.0) && data == c.encode(c.take(data).value.0) + c.take(data).value.1
  }

  /** Encoding and decoding undo each other, both ways. */
  ghost predicate Faithful<T(!new)>(c: Codec<T>) {
    (forall x :: RoundTrips(c, x)) && (forall data :: TakesExactly(c, data))
  }

  // ----- Fixed widths

  function Take(n: nat, data: seq<byte>): Taken<seq<byte>> {
    if n <= |data| then Some((data[..n], data[n..])) else None
  }

  lemma TakeAppend(a: seq<byte>, rest: seq<byte>)
    ensures Take(|a|, a + rest) == Some((a, rest))
  {
    assert (a + rest)[..|a|] == a && (a + rest)[|a|..] == rest;
  }

  lemma TakeExact(n: nat, data: seq<byte>)
    ensures Take(n, data).Some? ==>
              data == Take(n, data).value.0 + Take(n, data).value.1 && |Take(n, data).value.0| == n
  {
  }

  function TakeNumber(width: nat, data: seq<byte>): (taken: Taken<nat>)
    ensures taken.Some? ==> taken.value.0 < Limit(width)
  {
    match Take(width, data)
    case None => None
    case Some((bytes, rest)) => Some((Decode(bytes), rest))
  }

  lemma NumberRoundTrip(n: nat, width: nat, rest: seq<byte>)
    requires n < Limit(width)
    ensures TakeNumber(width, Encode(n, width) + rest) == Some((n, rest))
  {
    TakeAppend(Encode(n, width), rest);
    DecodeEncode(n, width);
  }

  lemma NumberExact(width: nat, data: seq<byte>)
    ensures TakeNumber(width, data).Some? ==>
              data == Encode(TakeNumber(width, data).value.0, width) + TakeNumber(width, data).value.1
  {
    TakeExact(width, data);
    if TakeNumber(width, data).Some? {
      EncodeDecode(Take(width, data).value.0);
    }
  }

  function TakeHash(data: seq<byte>): Taken<Hash> {
    if |data| < 32 then None else Some((data[..32], data[32..]))
  }

  const HASHES: Codec<Hash> := Codec((h: Hash) => true, (h: Hash) => h, (d: seq<byte>) => TakeHash(d))

  lemma HashesFaithful()
    ensures Faithful(HASHES)
  {
    forall h: Hash
      ensures RoundTrips(HASHES, h)
    {
      forall rest: seq<byte>
        ensures HASHES.take(HASHES.encode(h) + rest) == Some((h, rest))
      {
        TakeAppend(h, rest);
      }
    }
    forall data: seq<byte>
      ensures TakesExactly(HASHES, data)
    {
    }
  }

  // ----- Lists

  function EncodeAll<T>(c: Codec<T>, xs: seq<T>): seq<byte> {
    if xs == [] then [] else EncodeAll(c, xs[..|xs| - 1]) + c.encode(xs[|xs| - 1])
  }

  /** n values, one after the other. */
  function TakeMany<T>(c: Codec<T>, n: nat, data: seq<byte>): (taken: Taken<seq<T>>)
    ensures taken.Some? ==> |taken.value.0| == n
  {
    if n == 0 then Some(([], data))
    else
      match TakeMany(c, n - 1, data)
      case None => None
      case Some((xs, rest)) => Append(xs, c.take(rest))
  }

  function Append<T>(xs: seq<T>, taken: Taken<T>): Taken<seq<T>> {
    if taken.None? then None else Some((xs + [taken.value.0], taken.value.1))
  }

  ghost predicate AllOk<T>(c: Codec<T>, xs: seq<T>) {
    forall i :: 0 <= i < |xs| ==> c.ok(xs[i])
  }

  lemma {:induction false} ManyRoundTrip<T(!new)>(c: Codec<T>, xs: seq<T>, rest: seq<byte>)
    requires Faithful(c) && AllOk(c, xs)
    ensures TakeMany(c, |xs|, EncodeAll(c, xs) + rest) == Some((xs, rest))
    decreases |xs|
  {
    if xs == [] {
      assert EncodeAll(c, xs) + rest == rest;
    } else {
      var init, x := xs[..|xs| - 1], xs[|xs| - 1];
      ManyRoundTrip(c, init, c.encode(x) + rest);
      assert EncodeAll(c, xs) + rest == EncodeAll(c, init) + (c.encode(x) + rest);
      assert RoundTrips(c, x);
      assert xs == init + [x];
    }
  }

  lemma {:induction false} ManyExact<T(!new)>(c: Codec<T>, n: nat, data: seq<byte>)
    requires Faithful(c)
    ensures TakeMany(c, n, data).Some? ==>
              && AllOk(c, TakeMany(c, n, data).value.0)
              && data == EncodeAll(c, TakeMany(c, n, data).value.0) + TakeMany(c, n, data).value.1
  {
    if n > 0 && TakeMany(c, n, data).Some? {
      ManyExact(c, n - 1, data);
      var xs, last := TakeMany(c, n - 1, data).value.0, TakeMany(c, n - 1, data).value.1;
      assert TakesExactly(c, last);
      EncodeAppend(c, xs, c.take(last).value.0, c.take(last).value.1);
    }
  }

  lemma EncodeAppend<T>(c: Codec<T>, xs: seq<T>, x: T, rest: seq<byte>)
    ensures EncodeAll(c, xs) + (c.encode(x) + rest) == EncodeAll(c, xs + [x]) + rest
  {
    assert (xs + [x])[..|xs|] == xs;
  }

  lemma {:induction false} EncodeAllAppend<T>(c: Codec<T>, a: seq<T>, b: seq<T>)
    ensures EncodeAll(c, a + b) == EncodeAll(c, a) + EncodeAll(c, b)
    decreases |b|
  {
    if b == [] {
      assert a + b == a;
    } else {
      var init, last := b[..|b| - 1], b[|b| - 1];
      EncodeAllAppend(c, a, init);
      assert (a + b)[..|a + b| - 1] == a + init;
    }
  }

  lemma Regroup(a: seq<byte>, b: seq<byte>, c: seq<byte>, rest: seq<byte>)
    ensures a + (b + (c + rest)) == a + (b + c) + rest
  {
  }

  /** The bytes of the part are there, from that position on. */
  predicate Has(bytes: seq<byte>, at: nat, part: seq<byte>) {
    at + |part| <= |bytes| && bytes[at..at + |part|] == part
  }

  lemma HasMiddle(a: seq<byte>, b: seq<byte>, c: seq<byte>, whole: seq<byte>)
    requires whole == a + b + c
    ensures Has(whole, |a|, b)
  {
  }

  lemma ThreeParts(a: seq<byte>, b: seq<byte>, c: seq<byte>)
    ensures Has(a + (b + c), 0, a) && Has(a + (b + c), |a|, b) && Has(a + (b + c), |a| + |b|, c)
  {
    var whole := a + (b + c);
    HasMiddle([], a, b + c, whole);
    HasMiddle(a, b, c, whole);
    HasMiddle(a + b, c, [], whole);
  }

  lemma HasInner(bytes: seq<byte>, at: nat, part: seq<byte>, i: nat, inner: seq<byte>)
    requires Has(bytes, at, part) && Has(part, i, inner)
    ensures Has(bytes, at + i, inner)
  {
    assert forall k :: 0 <= k < |part| ==> bytes[at + k] == part[k];
    forall k | 0 <= k < |inner|
      ensures bytes[at + i + k] == inner[k]
    {
      assert part[i..i + |inner|][k] == part[i + k];
    }
  }

  /** Where the encoding of one value of a list is. */
  lemma {:induction false} EncodedAt<T>(c: Codec<T>, xs: seq<T>, i: nat)
    requires i < |xs|
    ensures Has(EncodeAll(c, xs), |EncodeAll(c, xs[..i])|, c.encode(xs[i]))
  {
    EncodeAllAppend(c, xs[..i + 1], xs[i + 1..]);
    assert xs == xs[..i + 1] + xs[i + 1..] && xs[..i + 1][..i] == xs[..i];
    HasMiddle(EncodeAll(c, xs[..i]), c.encode(xs[i]), EncodeAll(c, xs[i + 1..]), EncodeAll(c, xs));
  }

  lemma {:induction false} HashesSize(hs: seq<Hash>)
    ensures |EncodeAll(HASHES, hs)| == 32 * |hs|
  {
    if hs != [] {
      HashesSize(hs[..|hs| - 1]);
    }
  }

  lemma {:induction false} HashAt(hs: seq<Hash>, i: nat)
    requires i < |hs|
    ensures Has(EncodeAll(HASHES, hs), 32 * i, hs[i])
  {
    HashesSize(hs[..i]);
    EncodedAt(HASHES, hs, i);
  }

  /** A list behind its length. */
  function EncodeCounted<T>(c: Codec<T>, width: nat, xs: seq<T>): seq<byte> {
    Encode(|xs|, width) + EncodeAll(c, xs)
  }

  function TakeCounted<T>(c: Codec<T>, width: nat, data: seq<byte>): Taken<seq<T>> {
    match TakeNumber(width, data)
    case None => None
    case Some((n, rest)) => TakeMany(c, n, rest)
  }

  ghost predicate CountedOk<T>(c: Codec<T>, width: nat, xs: seq<T>) {
    |xs| < Limit(width) && AllOk(c, xs)
  }

  lemma CountedRoundTrip<T(!new)>(c: Codec<T>, width: nat, xs: seq<T>, rest: seq<byte>)
    requires Faithful(c) && CountedOk(c, width, xs)
    ensures TakeCounted(c, width, EncodeCounted(c, width, xs) + rest) == Some((xs, rest))
  {
    assert EncodeCounted(c, width, xs) + rest == Encode(|xs|, width) + (EncodeAll(c, xs) + rest);
    NumberRoundTrip(|xs|, width, EncodeAll(c, xs) + rest);
    ManyRoundTrip(c, xs, rest);
  }

  lemma CountedExact<T(!new)>(c: Codec<T>, width: nat, data: seq<byte>)
    requires Faithful(c)
    ensures TakeCounted(c, width, data).Some? ==>
              && CountedOk(c, width, TakeCounted(c, width, data).value.0)
              && data == EncodeCounted(c, width, TakeCounted(c, width, data).value.0)
                 + TakeCounted(c, width, data).value.1
  {
    if TakeCounted(c, width, data).Some? {
      NumberExact(width, data);
      var n, rest := TakeNumber(width, data).value.0, TakeNumber(width, data).value.1;
      ManyExact(c, n, rest);
      var xs, left := TakeMany(c, n, rest).value.0, TakeMany(c, n, rest).value.1;
      assert Encode(n, width) + (EncodeAll(c, xs) + left) == EncodeCounted(c, width, xs) + left;
    }
  }

  // ----- A cursor over bytes

  /** What is left to read. */
  class Reader {
    var data: seq<byte>

    constructor (data: seq<byte>)
      ensures this.data == data
    {
      this.data := data;
    }

    /** Exactly n bytes; a short read fails and uses up what there was. */
    method ReadFull(n: nat) returns (bytes: Option<seq<byte>>)
      modifies this
      ensures bytes.Some? <==> n <= |old(data)|
      ensures bytes.Some? ==> Take(n, old(data)) == Some((bytes.value, data))
      ensures bytes.None? ==> data == []
    {
      if n > |data| {
        data := [];
        return None;
      }
      bytes := Some(data[..n]);
      data := data[n..];
    }

    /** Skips up to n bytes; a negative count skips nothing. */
    method Discard(n: int)
      modifies this
      ensures data == if n < 0 then old(data) else if n <= |old(data)| then old(data)[n..] else []
    {
      if n > |data| {
        data := [];
      } else if n >= 0 {
        data := data[n..];
      }
    }

    method ReadNumber(width: nat) returns (n: Option<nat>)
      modifies this
      ensures n.Some? <==> TakeNumber(width, old(data)).Some?
      ensures n.Some? ==> TakeNumber(width, old(data)) == Some((n.value, data))
    {
      var bytes := ReadFull(width);
      return if bytes.None? then None else Some(Decode(bytes.value));
    }

    method ReadHash() returns (h: Option<Hash>)
      modifies this
      ensures h.Some? <==> TakeHash(old(data)).Some?
      ensures h.Some? ==> TakeHash(old(data)) == Some((h.value, data))
    {
      var bytes := ReadFull(32);
      return if bytes.None? then None else Some(bytes.value);
    }

    method ReadHashes(n: nat) returns (hs: Option<seq<Hash>>)
      modifies this
      ensures hs.Some? <==> TakeMany(HASHES, n, old(data)).Some?
      ensures hs.Some? ==> TakeMany(HASHES, n, old(data)) == Some((hs.value, data))
    {
      var read: seq<Hash> := [];
      for i := 0 to n
        invariant TakeMany(HASHES, i, old(data)) == Some((read, data))
      {
        var h := ReadHash();
        if h.None? {
          ShortMany(HASHES, i + 1, n, old(data));
          return None;
        }
        read := read + [h.value];
      }
      return Some(read);
    }
  }

  /** When fewer values cannot be taken, more cannot either. */
  lemma {:induction false} ShortMany<T>(c: Codec<T>, m: nat, n: nat, data: seq<byte>)
    requires m <= n && TakeMany(c, m, data).None?
    ensures TakeMany(c, n, data).None?
    decreases n
  {
    if m < n {
      ShortMany(c, m, n - 1, data);
    }
  }
}
