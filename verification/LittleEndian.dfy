/** Fixed-width little-endian integers. */
module LittleEndian {
  import opened Base

  function Limit(width: nat): (limit: nat)
    ensures limit >= 1
  {
    if width == 0 then 1 else 256 * Limit(width - 1)
  }

  function Encode(n: nat, width: nat): (bytes: seq<byte>)
    ensures |bytes| == width
  {
    if width == 0 then [] else [n % 256] + Encode(n / 256, width - 1)
  }

  function Decode(bytes: seq<byte>): (n: nat)
    ensures n < Limit(|bytes|)
  {
    if bytes == [] then 0 else bytes[0] + 256 * Decode(bytes[1..])
  }

  /** Byte i counts 256^i: the low byte comes first. */
  lemma {:induction false} EncodedByte(n: nat, width: nat, i: nat)
    requires i < width
    ensures Encode(n, width)[i] == n / Limit(i) % 256
  {
    if i > 0 {
      EncodedByte(n / 256, width - 1, i - 1);
      DivideTwice(n, Limit(i - 1));
    }
  }

  lemma DivideTwice(n: nat, b: nat)
    requires b > 0
    ensures n / 256 / b == n / (256 * b)
  {
    var m := n / 256;
    var q, r := m / b, m % b;
    assert q * (256 * b) == 256 * (q * b);
    FloorUnique(n, 256 * b, q);
  }

  lemma LowByteFirst()
    ensures Encode(0x0102_0304, 4) == [4, 3, 2, 1]
    ensures Limit(0) == 1 && Limit(1) == 0x100 && Limit(2) == 0x1_0000 && Limit(3) == 0x100_0000
  {
    EncodedByte(0x0102_0304, 4, 0);
    EncodedByte(0x0102_0304, 4, 1);
    EncodedByte(0x0102_0304, 4, 2);
    EncodedByte(0x0102_0304, 4, 3);
  }

  lemma {:induction false} DecodeEncode(n: nat, width: nat)
    requires n < Limit(width)
    ensures Decode(Encode(n, width)) == n
  {
    if width > 0 {
      DecodeEncode(n / 256, width - 1);
      assert Encode(n, width)[1..] == Encode(n / 256, width - 1);
    }
  }

  lemma LowByte(low: byte, high: nat)
    ensures (low + 256 * high) % 256 == low && (low + 256 * high) / 256 == high
  {
  }

  lemma {:induction false} EncodeDecode(bytes: seq<byte>)
    ensures Encode(Decode(bytes), |bytes|) == bytes
  {
    if bytes != [] {
      EncodeDecode(bytes[1..]);
      LowByte(bytes[0], Decode(bytes[1..]));
      assert bytes == [bytes[0]] + bytes[1..];
    }
  }

  lemma Widths()
    ensures Limit(4) == 0x1_0000_0000
    ensures Limit(8) == 0x1_0000_0000_0000_0000
  {
    assert Limit(2) == 0x1_0000;
    assert Limit(4) == 256 * Limit(3);
    assert Limit(6) == 256 * Limit(5);
    assert Limit(8) == 256 * Limit(7);
  }
}

/** The 80-byte block header. */
module BlockHeaders {
  import opened Base
  import opened LittleEndian

  type i32 = x: int | -0x8000_0000 <= x < 0x8000_0000

  datatype Header = Header(version: i32, prevHash: Hash, merkleRoot: Hash, timestamp: u32, bits: u32, nonce: u32)

  const HEADER_SIZE := 80

  /** Two's complement. */
  function Unsigned(v: i32): u32 {
    if v < 0 then v + 0x1_0000_0000 else v
  }

  function Signed(u: u32): i32 {
    if u < 0x8000_0000 then u else u - 0x1_0000_0000
  }

  function Bytes(h: Header): (bytes: seq<byte>)
    ensures |bytes| == HEADER_SIZE
  {
    Encode(Unsigned(h.version), 4) + h.prevHash + h.merkleRoot +
    Encode(h.timestamp, 4) + Encode(h.bits, 4) + Encode(h.nonce, 4)
  }

  function ReadU32(bytes: seq<byte>, at: nat): u32
    requires at + 4 <= |bytes|
  {
    Widths();
    Decode(bytes[at..at + 4])
  }

  /** Fails exactly when the slice does not have 80 bytes. */
  function NewHeaderFromBytes(data: seq<byte>): (h: Option<Header>)
    ensures h.Some? <==> |data| == HEADER_SIZE
  {
    if |data| != HEADER_SIZE then None
    else Some(Header(Signed(ReadU32(data, 0)), data[4..36], data[36..68],
                     ReadU32(data, 68), ReadU32(data, 72), ReadU32(data, 76)))
  }

  /** Where the fields are: the version as two's complement, numbers with the low byte first. */
  lemma HeaderLayout(h: Header)
    ensures var b := Bytes(h);
            && b[..4] == Encode(if h.version < 0 then h.version + 0x1_0000_0000 else h.version, 4)
            && b[4..36] == h.prevHash && b[36..68] == h.merkleRoot
            && b[68..72] == Encode(h.timestamp, 4) && b[72..76] == Encode(h.bits, 4) && b[76..] == Encode(h.nonce, 4)
  {
  }

  lemma ReadEncoded(bytes: seq<byte>, at: nat, n: u32)
    requires at + 4 <= |bytes| && bytes[at..at + 4] == Encode(n, 4)
    ensures ReadU32(bytes, at) == n
  {
    Widths();
    DecodeEncode(n, 4);
  }

  lemma HeaderRoundTrip(h: Header)
    ensures NewHeaderFromBytes(Bytes(h)) == Some(h)
  {
    var b := Bytes(h);
    assert b[0..4] == Encode(Unsigned(h.version), 4);
    assert b[68..72] == Encode(h.timestamp, 4);
    assert b[72..76] == Encode(h.bits, 4);
    assert b[76..80] == Encode(h.nonce, 4);
    ReadEncoded(b, 0, Unsigned(h.version));
    ReadEncoded(b, 68, h.timestamp);
    ReadEncoded(b, 72, h.bits);
    ReadEncoded(b, 76, h.nonce);
    assert b[4..36] == h.prevHash && b[36..68] == h.merkleRoot;
  }

  /** No two 80-byte strings parse to the same header. */
  lemma BytesRoundTrip(data: seq<byte>)
    requires |data| == HEADER_SIZE
    ensures Bytes(NewHeaderFromBytes(data).value) == data
  {
    EncodeDecode(data[0..4]);
    EncodeDecode(data[68..72]);
    EncodeDecode(data[72..76]);
    EncodeDecode(data[76..80]);
    assert data == data[0..4] + data[4..36] + data[36..68] + data[68..72] + data[72..76] + data[76..80];
  }
}
