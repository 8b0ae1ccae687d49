/** Byte values, Java's signed casts, powers of two and the big-endian integer
    layout that `java.nio.ByteBuffer` uses for `putInt`/`putLong`/`getInt`/`getLong`. */
module Bytes {

  /** A byte as its unsigned bit pattern (Java's `b & 0xFF`). */
  type Byte = b: int | 0 <= b < 256

  const TWO_31: int := 0x8000_0000
  const TWO_32: int := 0x1_0000_0000
  const TWO_63: int := 0x8000_0000_0000_0000
  const TWO_64: int := 0x1_0000_0000_0000_0000

  /** Java's widening `(int)b` of a signed `byte`: a value in -128..127 with the same low eight bits. */
  function Signed(b: Byte): (r: int)
    ensures -128 <= r < 128
    ensures Truncate(r) == b
  {
    if b < 128 then b else b - 256
  }

  /** Java's narrowing cast `(byte)x`: only the low eight bits survive. */
  function Truncate(x: int): Byte
  {
    x % 256
  }

  function Pow2(n: nat): (r: nat)
    ensures r >= 1
  {
    if n == 0 then 1 else 2 * Pow2(n - 1)
  }

  function Pow256(k: nat): (r: nat)
    ensures r >= 1
  {
    if k == 0 then 1 else 256 * Pow256(k - 1)
  }

  /** The k bytes, most significant first, of an unsigned value below 256^k. */
  function ToBigEndian(u: nat, k: nat): (r: seq<Byte>)
    requires u < Pow256(k)
    ensures |r| == k
  {
    if k == 0 then [] else ToBigEndian(u / 256, k - 1) + [u % 256]
  }

  /** The unsigned value of a big-endian byte sequence. */
  function FromBigEndian(bs: seq<Byte>): (r: nat)
    ensures r < Pow256(|bs|)
  {
    if bs == [] then 0 else FromBigEndian(bs[..|bs| - 1]) * 256 + bs[|bs| - 1]
  }

  lemma {:induction false} FromToBigEndian(u: nat, k: nat)
    requires u < Pow256(k)
    ensures FromBigEndian(ToBigEndian(u, k)) == u
  {
    if k > 0 {
      var r := ToBigEndian(u, k);
      assert r[..k - 1] == ToBigEndian(u / 256, k - 1);
      FromToBigEndian(u / 256, k - 1);
    }
  }

  lemma {:induction false} ToFromBigEndian(bs: seq<Byte>)
    ensures ToBigEndian(FromBigEndian(bs), |bs|) == bs
  {
    if bs != [] {
      var n := |bs| - 1;
      var u := FromBigEndian(bs);
      assert u / 256 == FromBigEndian(bs[..n]);
      assert u % 256 == bs[n];
      ToFromBigEndian(bs[..n]);
      assert bs == bs[..n] + [bs[n]];
    }
  }

  predicate IsInt32(x: int) { -TWO_31 <= x < TWO_31 }

  predicate IsInt64(x: int) { -TWO_63 <= x < TWO_63 }

  /** `ByteBuffer.putInt`: the two's-complement value in four bytes, most significant first. */
  function PutInt(x: int): (r: seq<Byte>)
    requires IsInt32(x)
    ensures |r| == 4
  {
    assert Pow256(4) == TWO_32;
    ToBigEndian(if x < 0 then x + TWO_32 else x, 4)
  }

  /** `ByteBuffer.getInt`: four big-endian bytes read as a signed 32-bit value. */
  function GetInt(bs: seq<Byte>): (r: int)
    requires |bs| == 4
    ensures IsInt32(r)
  {
    assert Pow256(4) == TWO_32;
    var u := FromBigEndian(bs);
    if u < TWO_31 then u else u - TWO_32
  }

  /** `ByteBuffer.putLong`: the two's-complement value in eight bytes, most significant first. */
  function PutLong(x: int): (r: seq<Byte>)
    requires IsInt64(x)
    ensures |r| == 8
  {
    assert Pow256(8) == TWO_64;
    ToBigEndian(if x < 0 then x + TWO_64 else x, 8)
  }

  /** `ByteBuffer.getLong`: eight big-endian bytes read as a signed 64-bit value. */
  function GetLong(bs: seq<Byte>): (r: int)
    requires |bs| == 8
    ensures IsInt64(r)
  {
    assert Pow256(8) == TWO_64;
    var u := FromBigEndian(bs);
    if u < TWO_63 then u else u - TWO_64
  }

  lemma {:induction false} GetPutInt(x: int)
    requires IsInt32(x)
    ensures GetInt(PutInt(x)) == x
  {
    assert Pow256(4) == TWO_32;
    FromToBigEndian(if x < 0 then x + TWO_32 else x, 4);
  }

  lemma {:induction false} PutGetInt(bs: seq<Byte>)
    requires |bs| == 4
    ensures PutInt(GetInt(bs)) == bs
  {
    assert Pow256(4) == TWO_32;
    ToFromBigEndian(bs);
  }

  lemma {:induction false} GetPutLong(x: int)
    requires IsInt64(x)
    ensures GetLong(PutLong(x)) == x
  {
    assert Pow256(8) == TWO_64;
    FromToBigEndian(if x < 0 then x + TWO_64 else x, 8);
  }

  lemma {:induction false} PutGetLong(bs: seq<Byte>)
    requires |bs| == 8
    ensures PutLong(GetLong(bs)) == bs
  {
    assert Pow256(8) == TWO_64;
    ToFromBigEndian(bs);
  }

  /** The n bytes a stream read of n bytes into a fresh (zeroed) buffer leaves there,
      starting at position pos: what is left of s, padded with zeros. */
  function ReadPadded(s: seq<Byte>, pos: nat, n: nat): (r: seq<Byte>)
    ensures |r| == n
  {
    seq(n, k requires 0 <= k < n => if pos + k < |s| then s[pos + k] else 0)
  }

  /** Where the archive holds all n bytes, they are read as they are. */
  lemma {:induction false} ReadPaddedInside(s: seq<Byte>, pos: nat, n: nat)
    requires pos + n <= |s|
    ensures ReadPadded(s, pos, n) == s[pos..pos + n]
  {
  }
}
