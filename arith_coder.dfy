/** The integer parts of the arithmetic coder: the binary search of the decoder over the
    cumulative distribution, the initial uniform distribution, the bit accumulator of the
    encoder and the bit reader of the decoder, and the mode guards of `compress` and
    `decompress`. The interval arithmetic that decides which bits are emitted is not
    modelled: the encoder is given those bits, one batch per input byte plus the trailing
    bits. The archive is the original size as an 8-byte long followed by the packed bits. */
module ArithCoder {
  import opened Bytes
  import opened BitPacking
  import opened AbstractCompressor

  /* ---------------------------------------------------------------------------------- */
  /* searchRange                                                                          */

  /** A cumulative distribution never decreases. */
  predicate Sorted(d: seq<real>)
  {
    forall i, j :: 0 <= i < j < |d| ==> d[i] <= d[j]
  }

  /** The reference answer, by a scan from the right: the largest index whose entry is at
      most acc, or -1 when there is none. */
  function LowIndex(d: seq<real>, acc: real): (r: int)
    ensures -1 <= r < |d|
    ensures r >= 0 ==> d[r] <= acc
    ensures forall i :: r < i < |d| ==> acc < d[i]
  {
    if |d| == 0 then -1
    else if d[|d| - 1] <= acc then |d| - 1
    else LowIndex(d[..|d| - 1], acc)
  }

  /** `searchRange(distri, acc)`: `start` and `end` bracket the answer, every probe lies
      strictly between them, and the gap shrinks each round. Whatever the array holds, the
      result has an entry at most acc at its own index (unless it is -1) and an entry above
      acc just after it (unless it is the last index); on a sorted array it is the largest
      index whose entry is at most acc. */
  method SearchRange(distri: array<real>, acc: real) returns (start: int)
    ensures -1 <= start < distri.Length
    ensures start >= 0 ==> distri[start] <= acc
    ensures start + 1 < distri.Length ==> acc < distri[start + 1]
    ensures Sorted(distri[..]) ==> start == LowIndex(distri[..], acc)
  {
    start := -1;
    var end := distri.Length;
    while start < end - 1
      invariant -1 <= start < end <= distri.Length
      invariant start >= 0 ==> distri[start] <= acc
      invariant end < distri.Length ==> acc < distri[end]
      decreases end - start
    {
      // end - start >= 2 and start >= -1, so end + start >= 0: Java's division, which
      // truncates toward zero, and Dafny's agree here
      var middle := (end + start) / 2;
      if acc >= distri[middle] {
        start := middle;
      } else {
        end := middle;
      }
    }
    Bracketed(distri[..], acc, start);
  }

  /** On a sorted distribution, an index bracketing acc is the reference answer. */
  lemma {:induction false} Bracketed(d: seq<real>, acc: real, s: int)
    requires -1 <= s < |d|
    requires s >= 0 ==> d[s] <= acc
    requires s + 1 < |d| ==> acc < d[s + 1]
    ensures Sorted(d) ==> s == LowIndex(d, acc)
  {
    if Sorted(d) {
      forall i | s < i < |d|
        ensures acc < d[i]
      {
        assert d[s + 1] <= d[i];
      }
    }
  }

  /* ---------------------------------------------------------------------------------- */
  /* The initial distribution                                                             */

  /** Entry i of the uniform distribution over the 256 byte values is i / 256. */
  function Uniform(): (d: seq<real>)
    ensures |d| == 256
  {
    seq(256, i => i as real / 256.0)
  }

  /** The loop that fills `distri` before coding starts: entry 0 stays 0 and each entry is
      1/256 above the one before. These sums are exact in binary floating point, so the
      real-valued model loses nothing here. */
  method InitialDistribution() returns (distri: array<real>)
    ensures fresh(distri) && distri[..] == Uniform()
  {
    distri := new real[256](_ => 0.0);
    for i := 1 to 256
      invariant forall j :: 0 <= j < i ==> distri[j] == j as real / 256.0
    {
      distri[i] := distri[i - 1] + 1.0 / 256.0;
    }
  }

  lemma {:induction false} UniformSorted()
    ensures Sorted(Uniform())
  {
    var d := Uniform();
    forall i, j | 0 <= i < j < 256
      ensures d[i] <= d[j]
    {
      assert d[i] == i as real / 256.0 && d[j] == j as real / 256.0;
    }
  }

  /** Against the initial distribution, an accumulated value in [0, 1) selects the byte r
      whose interval [r / 256, (r + 1) / 256) holds it; the interval of 255 ends at 1, as
      the decoder's `rangeHigh` says. */
  lemma {:induction false} UniformInterval(acc: real)
    requires 0.0 <= acc < 1.0
    ensures var r := LowIndex(Uniform(), acc);
            && 0 <= r < 256
            && r as real / 256.0 <= acc < (r + 1) as real / 256.0
  {
    var d := Uniform();
    var r := LowIndex(d, acc);
    assert d[0] == 0.0;
    if r < 255 {
      assert d[r + 1] == (r + 1) as real / 256.0;
    }
  }

  /* ---------------------------------------------------------------------------------- */
  /* The bit accumulator of compress                                                      */

  /** The bits of all batches, in order. */
  function Joined(batches: seq<seq<Bit>>): (r: seq<Bit>)
  {
    if batches == [] then [] else Joined(batches[..|batches| - 1]) + batches[|batches| - 1]
  }

  /** The output loops of `compress`: the batch of every input byte, then the trailing
      bits, go through the accumulator, and the last byte is always written because
      `byteIndex < 8` always holds. */
  method WriteBits(batches: seq<seq<Bit>>, trailing: seq<Bit>) returns (out: seq<Byte>)
    ensures out == Packed(Joined(batches) + trailing)
  {
    out := [];
    var crt: Byte := 0;
    var byteIndex := 0;
    assert [crt] == Packed([]);
    for i := 0 to |batches|
      invariant out + [crt] == Packed(Joined(batches[..i]))
      invariant byteIndex == |Joined(batches[..i])| % 8
    {
      assert batches[..i + 1][..i] == batches[..i];
      out, crt, byteIndex := Accumulate(out, crt, byteIndex, Joined(batches[..i]), batches[i]);
    }
    assert batches[..|batches|] == batches;
    out, crt, byteIndex := Accumulate(out, crt, byteIndex, Joined(batches), trailing);
    out := out + [crt];
  }

  /* ---------------------------------------------------------------------------------- */
  /* The bit reader of decompress                                                         */

  /** The reading half of the decoding loop, for n bits: bit `byteIndex` of the current
      byte, and after eight bits the next byte of the stream, counted in `readSize` (which
      starts at 3). Java's `(crtByte >> byteIndex) & 1` on the sign-extended byte takes bit
      `byteIndex` of its eight bits. */
  method ReadBits(body: seq<Byte>, n: nat) returns (bits: seq<Bit>, readSize: int)
    ensures |bits| == n
    ensures forall k :: 0 <= k < n ==> bits[k] == BitAt(body, k)
    ensures readSize == 3 + n / 8
  {
    var byteIndex := 0;
    var byteNo := 0;
    var crtByte := ByteAt(body, 0);
    readSize := 3;
    bits := [];
    while |bits| < n
      invariant |bits| <= n
      invariant 0 <= byteIndex < 8 && |bits| == 8 * byteNo + byteIndex
      invariant crtByte == ByteAt(body, byteNo) && readSize == 3 + byteNo
      invariant forall k :: 0 <= k < |bits| ==> bits[k] == BitAt(body, k)
    {
      bits := bits + [BitOf(crtByte, byteIndex)];
      byteIndex := byteIndex + 1;
      if byteIndex == 8 {
        byteNo := byteNo + 1;
        crtByte := ByteAt(body, byteNo);
        readSize := readSize + 1;
        byteIndex := 0;
      }
    }
  }

  /** What the reader gets from a packed stream: the packed bits in their order, then zero
      padding to the end of the last byte, then ones once the stream is exhausted. */
  lemma {:induction false} ReadBack(bits: seq<Bit>, k: nat)
    ensures BitAt(Packed(bits), k) ==
      if k < |bits| then bits[k]
      else if k < 8 * (|bits| / 8 + 1) then 0
      else 1
  {
    if k < |bits| {
      PackedBitAt(bits, k);
    } else if k < 8 * (|bits| / 8 + 1) {
      assert k / 8 == |bits| / 8 && k % 8 >= |bits| % 8;
      PackedLast(bits);
      BitOfSmall(Packed(bits)[|bits| / 8], |bits| % 8, k % 8);
    } else {
      BitOfOnes(8, k % 8);
    }
  }

  /** The bits of x from position m up are 0 when x < 2^m. */
  lemma {:induction false} BitOfSmall(x: nat, m: nat, k: nat)
    requires x < Pow2(m) && m <= k
    ensures BitOf(x, k) == 0
  {
    if m == 0 {
      BitOfZero(k);
    } else {
      BitOfSmall(x / 2, m - 1, k - 1);
    }
  }

  /** The low m bits of 2^m - 1 are 1; with m = 8 this is the byte 0xFF. */
  lemma {:induction false} BitOfOnes(m: nat, k: nat)
    requires k < m
    ensures BitOf(Pow2(m) - 1, k) == 1
  {
    var x := Pow2(m - 1);
    assert Pow2(m) - 1 == 2 * (x - 1) + 1;
    if k > 0 {
      assert (Pow2(m) - 1) / 2 == x - 1;
      BitOfOnes(m - 1, k - 1);
    }
  }

  /* ---------------------------------------------------------------------------------- */
  /* compress and decompress                                                              */

  /** `compress()`, given the bits the interval coder emits for each input byte and the
      trailing bits: refused outside Compress mode; otherwise it writes the size header and
      the packed bits, switches to Decompress mode and records the new counter value over
      the input size. The inherited `compressedSize` counter is never reset: it comes in
      as `compressedSize0` and goes up by one per byte written after the header, and its
      new value is returned. */
  method Compress(session: Compressor, compressedSize0: int, batches: seq<seq<Bit>>, trailing: seq<Bit>)
    returns (size: int, archive: seq<Byte>)
    requires |batches| < TWO_31
    modifies session
    ensures old(session.crtMode) != Mode.Compress ==>
      && size == 0 && archive == []
      && session.crtMode == old(session.crtMode)
      && session.compressRate == old(session.compressRate)
    ensures old(session.crtMode) == Mode.Compress ==>
      && archive == PutLong(|batches|) + Packed(Joined(batches) + trailing)
      && size == compressedSize0 + |archive| - 8
      && session.crtMode == Mode.Decompress
    ensures old(session.crtMode) == Mode.Compress && |batches| != 0 ==>
      session.compressRate == size as real / |batches| as real
    ensures old(session.crtMode) == Mode.Compress && |batches| == 0 ==>
      session.compressRate == old(session.compressRate)
  {
    var m := session.GetMode();
    if m != Mode.Compress {
      return 0, [];
    }
    var fileSize := |batches|;
    var body := WriteBits(batches, trailing);
    archive := PutLong(fileSize) + body;
    size := compressedSize0 + |body|;
    session.SetDecompressMode();
    if fileSize != 0 {
      session.SetCompressRate(size as real / fileSize as real);
    }
  }

  /** `decompress()` up to its decoding loop: refused outside Decompress mode; otherwise
      it reads the original size from the header, sets the `compressedSize` counter to the
      archive's length, records that over the size, and returns the size. The mode does
      not change. */
  method Decompress(session: Compressor, compressedSize0: int, archive: seq<Byte>)
    returns (fileSize: int, compressedSize: int)
    modifies session
    ensures session.crtMode == old(session.crtMode)
    ensures old(session.crtMode) != Mode.Decompress ==>
      && fileSize == 0 && compressedSize == compressedSize0
      && session.compressRate == old(session.compressRate)
    ensures old(session.crtMode) == Mode.Decompress ==>
      && fileSize == GetLong(ReadPadded(archive, 0, 8))
      && compressedSize == |archive|
      && (fileSize != 0 ==> session.compressRate == |archive| as real / fileSize as real)
      && (fileSize == 0 ==> session.compressRate == old(session.compressRate))
  {
    var m := session.GetMode();
    if m != Mode.Decompress {
      return 0, compressedSize0;
    }
    fileSize := GetLong(ReadPadded(archive, 0, 8));
    compressedSize := |archive|;
    if fileSize != 0 {
      session.SetCompressRate(compressedSize as real / fileSize as real);
    }
  }

  /** A session that decompresses, is set back to Compress mode and compresses again
      returns the archive's length plus the new body's length: the counter is not reset. */
  method ReusedSession(session: Compressor, archive: seq<Byte>, batches: seq<seq<Bit>>, trailing: seq<Bit>)
    returns (size: int)
    requires session.crtMode == Mode.Decompress && |batches| < TWO_31
    modifies session
    ensures size == |archive| + |Packed(Joined(batches) + trailing)|
  {
    var fileSize, counter := Decompress(session, 0, archive);
    session.SetCompressMode();
    var out;
    size, out := Compress(session, counter, batches, trailing);
  }

  /** The decoder reads back from an archive what the encoder put in it: the number of
      input bytes from the header, and the emitted bits, in order, from the body. */
  lemma {:induction false} ArchiveReadBack(batches: seq<seq<Bit>>, trailing: seq<Bit>, k: nat)
    requires |batches| < TWO_31
    requires k < |Joined(batches) + trailing|
    ensures var archive := PutLong(|batches|) + Packed(Joined(batches) + trailing);
            && GetLong(ReadPadded(archive, 0, 8)) == |batches|
            && BitAt(archive[8..], k) == (Joined(batches) + trailing)[k]
  {
    var bits := Joined(batches) + trailing;
    var archive := PutLong(|batches|) + Packed(bits);
    ReadPaddedInside(archive, 0, 8);
    assert archive[0..8] == PutLong(|batches|);
    GetPutLong(|batches|);
    assert archive[8..] == Packed(bits);
    ReadBack(bits, k);
  }
}
