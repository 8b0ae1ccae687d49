/** The one-bit-at-a-time accumulator that the Huffman and arithmetic codecs inline:
    bits are ORed into the current byte from the least significant end, a byte is
    written every eight bits, and one final (possibly empty) byte is always written.
    Reading takes bit `k` from bit `k % 8` of byte `k / 8`; a read past the end of the
    stream yields Java's `(byte)-1`, all of whose bits are 1. */
module BitPacking {
  import opened Bytes

  type Bit = b: int | 0 <= b < 2

  /** Bit k of x, counted from the least significant end: Java's `(x >> k) & 1`. */
  function BitOf(x: nat, k: nat): Bit
  {
    if k == 0 then x % 2 else BitOf(x / 2, k - 1)
  }

  /** Java's `c << k` for a single bit c. */
  function Shl(c: Bit, k: nat): nat
  {
    if c == 0 then 0 else Pow2(k)
  }

  /** The byte whose bit i is bits[i] (least significant first) and whose other bits are 0. */
  function PackByte(bits: seq<Bit>): (r: nat)
    ensures r < Pow2(|bits|)
  {
    if bits == [] then 0 else bits[0] + 2 * PackByte(bits[1..])
  }

  lemma {:induction false} Pow2Monotone(a: nat, b: nat)
    requires a <= b
    ensures Pow2(a) <= Pow2(b)
  {
    if a < b {
      Pow2Monotone(a, b - 1);
    }
  }

  /** Reading bit k of a packed byte gives back the k-th bit packed into it. */
  lemma {:induction false} BitOfPackByte(bits: seq<Bit>, k: nat)
    requires k < |bits|
    ensures BitOf(PackByte(bits), k) == bits[k]
  {
    if k > 0 {
      BitOfPackByte(bits[1..], k - 1);
    }
  }

  /** ORing bit c into the first free position of a partly filled byte. */
  lemma {:induction false} PackByteSnoc(bits: seq<Bit>, c: Bit)
    ensures PackByte(bits + [c]) == PackByte(bits) + Shl(c, |bits|)
  {
    if bits != [] {
      assert (bits + [c])[1..] == bits[1..] + [c];
      PackByteSnoc(bits[1..], c);
    }
  }

  /** What the accumulator writes for a bit string: one byte per complete group of eight
      bits and one final byte holding the remaining bits padded with zeros (a zero byte
      when no bits remain). */
  function Packed(bits: seq<Bit>): (r: seq<Byte>)
    ensures |r| == |bits| / 8 + 1
    decreases |bits|
  {
    Pow2Monotone(if |bits| < 8 then |bits| else 8, 8);
    if |bits| < 8 then [PackByte(bits)] else [PackByte(bits[..8])] + Packed(bits[8..])
  }

  /** The byte at index j of a stream, or `(byte)-1` = 0xFF once the stream is exhausted. */
  function ByteAt(body: seq<Byte>, j: nat): Byte
  {
    if j < |body| then body[j] else 255
  }

  /** Bit k of a stream as the decoders read it. */
  function BitAt(body: seq<Byte>, k: nat): Bit
  {
    BitOf(ByteAt(body, k / 8), k % 8)
  }

  /** Unpacking inverts packing: every packed bit is read back at its own position. */
  lemma {:induction false} PackedBitAt(bits: seq<Bit>, k: nat)
    requires k < |bits|
    ensures BitAt(Packed(bits), k) == bits[k]
  {
    if |bits| < 8 {
      BitOfPackByte(bits, k);
    } else if k < 8 {
      BitOfPackByte(bits[..8], k);
    } else {
      PackedBitAt(bits[8..], k - 8);
      assert (k - 8) / 8 == k / 8 - 1 && (k - 8) % 8 == k % 8;
    }
  }

  /** The last byte of a packing holds only the |bits| % 8 bits left over. */
  lemma {:induction false} PackedLast(bits: seq<Bit>)
    ensures Packed(bits)[|bits| / 8] < Pow2(|bits| % 8)
    decreases |bits|
  {
    if |bits| >= 8 {
      PackedLast(bits[8..]);
      assert Packed(bits)[|bits| / 8] == Packed(bits[8..])[|bits[8..]| / 8];
    }
  }

  /** The accumulator step on a partly filled final byte: bit c goes into position
      |bits| % 8 of the last byte, and when that completes the byte, a fresh zero byte follows. */
  function PackStep(p: seq<Byte>, n: nat, c: Bit): seq<Byte>
    requires |p| > 0 && n < 8 && p[|p| - 1] < Pow2(n)
  {
    Pow2Monotone(n + 1, 8);
    var last := p[|p| - 1] + Shl(c, n);
    if n == 7 then p[..|p| - 1] + [last, 0] else p[..|p| - 1] + [last]
  }

  lemma {:induction false} PackedSnocShort(bits: seq<Bit>, c: Bit)
    requires |bits| < 8
    ensures Packed(bits)[|bits| / 8] < Pow2(|bits| % 8)
    ensures Packed(bits + [c]) == PackStep(Packed(bits), |bits|, c)
  {
    PackedLast(bits);
    PackByteSnoc(bits, c);
    if |bits| == 7 {
      assert (bits + [c])[..8] == bits + [c];
      assert (bits + [c])[8..] == [];
    }
  }

  /** One more bit changes only the last byte of the packing, by ORing the bit into the
      first free position, and a completed byte is followed by a fresh zero byte. */
  lemma {:induction false} PackedSnoc(bits: seq<Bit>, c: Bit)
    ensures Packed(bits)[|bits| / 8] < Pow2(|bits| % 8)
    ensures Packed(bits + [c]) == PackStep(Packed(bits), |bits| % 8, c)
    decreases |bits|
  {
    PackedLast(bits);
    if |bits| < 8 {
      PackedSnocShort(bits, c);
    } else {
      var rest := bits[8..];
      var x := PackByte(bits[..8]);
      assert (bits + [c])[..8] == bits[..8];
      assert (bits + [c])[8..] == rest + [c];
      assert Packed(bits + [c]) == [x] + Packed(rest + [c]);
      PackedSnoc(rest, c);
      PackedLast(rest);
      assert |rest| % 8 == |bits| % 8;
      PackStepCons(x, Packed(rest), |bits| % 8, c);
    }
  }

  lemma {:induction false} PackStepCons(x: Byte, p: seq<Byte>, n: nat, c: Bit)
    requires |p| > 0 && n < 8 && p[|p| - 1] < Pow2(n)
    ensures PackStep([x] + p, n, c) == [x] + PackStep(p, n, c)
  {
    assert ([x] + p)[..|p|] == [x] + p[..|p| - 1];
  }

  /** A run of zero bits packs into zero bytes, so every bit the decoder reads inside the
      packing is 0. */
  lemma {:induction false} PackedZeros(bits: seq<Bit>)
    requires forall i :: 0 <= i < |bits| ==> bits[i] == 0
    ensures forall j :: 0 <= j < |Packed(bits)| ==> Packed(bits)[j] == 0
    decreases |bits|
  {
    if |bits| < 8 {
      ZeroPackByte(bits);
    } else {
      ZeroPackByte(bits[..8]);
      PackedZeros(bits[8..]);
    }
  }

  lemma {:induction false} ZeroPackByte(bits: seq<Bit>)
    requires forall i :: 0 <= i < |bits| ==> bits[i] == 0
    ensures PackByte(bits) == 0
  {
    if bits != [] {
      ZeroPackByte(bits[1..]);
    }
  }

  lemma {:induction false} BitOfZero(k: nat)
    ensures BitOf(0, k) == 0
  {
    if k > 0 {
      BitOfZero(k - 1);
    }
  }

  /** One accumulator step: bit c goes into the free position |bits| % 8 of the last byte,
      and a byte completed by it is followed by a fresh zero byte. */
  lemma {:induction false} PackBit(out: seq<Byte>, crt: Byte, bits: seq<Bit>, c: Bit)
    requires out + [crt] == Packed(bits)
    ensures crt + Shl(c, |bits| % 8) < 256
    ensures |bits| % 8 < 7 ==> Packed(bits + [c]) == out + [crt + Shl(c, |bits| % 8)]
    ensures |bits| % 8 == 7 ==> Packed(bits + [c]) == out + [crt + Shl(c, 7), 0]
  {
    PackedSnoc(bits, c);
    var p := out + [crt];
    assert p[|p| - 1] == crt && p[..|p| - 1] == out;
    Pow2Monotone(|bits| % 8 + 1, 8);
  }

  lemma {:induction false} AppendSnoc(done: seq<Bit>, code: seq<Bit>, j: nat)
    requires j < |code|
    ensures (done + code[..j]) + [code[j]] == done + code[..j + 1]
  {
    assert code[..j + 1] == code[..j] + [code[j]];
  }

  /** One run of the accumulator over `more`: each bit is ORed into `crt` at `byteIndex`,
      and a byte is written and `crt` cleared once eight bits are in. */
  method Accumulate(out0: seq<Byte>, crt0: Byte, byteIndex0: int, ghost done: seq<Bit>, more: seq<Bit>)
    returns (out: seq<Byte>, crt: Byte, byteIndex: int)
    requires out0 + [crt0] == Packed(done) && byteIndex0 == |done| % 8
    ensures out + [crt] == Packed(done + more) && byteIndex == |done + more| % 8
  {
    out, crt, byteIndex := out0, crt0, byteIndex0;
    assert done + more[..0] == done;
    for j := 0 to |more|
      invariant out + [crt] == Packed(done + more[..j])
      invariant byteIndex == |done + more[..j]| % 8
    {
      PackBit(out, crt, done + more[..j], more[j]);
      AppendSnoc(done, more, j);
      crt := crt + Shl(more[j], byteIndex);
      byteIndex := byteIndex + 1;
      if byteIndex == 8 {
        out := out + [crt];
        crt := 0;
        byteIndex := 0;
      }
    }
    assert more[..|more|] == more;
  }
}
