/**
 * Bytes and the fixed-width big-endian ("network byte order") integer
 * fields that struct.pack('!I') and struct.pack('!Q') produce.
 */
module Bytes {

  newtype byte = x: int | 0 <= x < 256

  const U32_LIMIT: int := 0x1_0000_0000
  const U64_LIMIT: int := 0x1_0000_0000_0000_0000

  /** 256 to the power n: the number of values an n-byte field can hold. */
  function Pow256(n: nat): (r: nat)
    ensures r >= 1
  {
    if n == 0 then 1 else 256 * Pow256(n - 1)
  }

  lemma Pow256Widths()
    ensures Pow256(4) == U32_LIMIT
    ensures Pow256(8) == U64_LIMIT
  {
  }

  /** The n-byte big-endian encoding of x. */
  function EncodeBE(x: nat, n: nat): (r: seq<byte>)
    requires x < Pow256(n)
    ensures |r| == n
  {
    if n == 0 then [] else EncodeBE(x / 256, n - 1) + [(x % 256) as byte]
  }

  /** The unsigned value of a big-endian byte string (struct.unpack). */
  function DecodeBE(b: seq<byte>): (r: nat)
  {
    if b == [] then 0 else DecodeBE(b[..|b| - 1]) * 256 + b[|b| - 1] as int
  }

  lemma {:induction false} DecodeBEBound(b: seq<byte>)
    ensures DecodeBE(b) < Pow256(|b|)
  {
    if b != [] {
      DecodeBEBound(b[..|b| - 1]);
    }
  }

  /** Decoding an encoded field gives the value back. */
  lemma {:induction false} DecodeEncodeBE(x: nat, n: nat)
    requires x < Pow256(n)
    ensures DecodeBE(EncodeBE(x, n)) == x
  {
    if n > 0 {
      var r := EncodeBE(x, n);
      assert r[..n - 1] == EncodeBE(x / 256, n - 1);
      DecodeEncodeBE(x / 256, n - 1);
    }
  }

  /** Encoding a decoded field gives the bytes back: the format has no redundancy. */
  lemma {:induction false} EncodeDecodeBE(b: seq<byte>)
    ensures DecodeBE(b) < Pow256(|b|)
    ensures EncodeBE(DecodeBE(b), |b|) == b
  {
    DecodeBEBound(b);
    if b != [] {
      var p := b[..|b| - 1];
      EncodeDecodeBE(p);
      var x := DecodeBE(b);
      assert x / 256 == DecodeBE(p);
      assert x % 256 == b[|b| - 1] as int;
      assert b == p + [b[|b| - 1]];
    }
  }

  /** struct.pack('!I', x): defined only on 0 <= x < 2^32. */
  function EncodeU32(x: nat): (r: seq<byte>)
    requires x < U32_LIMIT
    ensures |r| == 4 && DecodeBE(r) == x
  {
    Pow256Widths();
    DecodeEncodeBE(x, 4);
    EncodeBE(x, 4)
  }

  /** struct.pack('!Q', x): defined only on 0 <= x < 2^64. */
  function EncodeU64(x: nat): (r: seq<byte>)
    requires x < U64_LIMIT
    ensures |r| == 8 && DecodeBE(r) == x
  {
    Pow256Widths();
    DecodeEncodeBE(x, 8);
    EncodeBE(x, 8)
  }

  lemma DecodeU32Bound(b: seq<byte>)
    requires |b| == 4
    ensures DecodeBE(b) < U32_LIMIT && EncodeU32(DecodeBE(b)) == b
  {
    Pow256Widths();
    EncodeDecodeBE(b);
  }

  lemma DecodeU64Bound(b: seq<byte>)
    requires |b| == 8
    ensures DecodeBE(b) < U64_LIMIT && EncodeU64(DecodeBE(b)) == b
  {
    Pow256Widths();
    EncodeDecodeBE(b);
  }
}
