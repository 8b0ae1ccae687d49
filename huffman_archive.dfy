/** The Huffman codec: `compress` counts the bytes of the input, builds the tree, writes
    the header (8-byte size, 4-byte leaf number), one 5-byte record per leaf the traversal
    visits and the LSB-first packed codes; `decompress` reads the header and the records
    back into counts, rebuilds the tree with the same `buildTree` and walks it bit by bit. */
module HuffmanArchive {
  import opened Results
  import opened Bytes
  import opened BitPacking
  import opened AbstractCompressor
  import opened HuffmanTree
  import opened HuffmanBuild
  import opened HuffmanCodes

  /** Why a call does not come back normally: a null tree was dereferenced (nothing to
      build a tree from), or the decode loop can never reach the recorded size (its `int`
      counter wraps before a size of 2^31 or more). */
  datatype Error = NullRoot | NeverEnds

  /* ---------------------------------------------------------------------------------- */
  /* The archive                                                                          */

  /** The archive layout: the size as an 8-byte big-endian long, the leaf number as a
      4-byte big-endian int, the leaf records, then the packed body. */
  function Layout(size: int, nodeNum: int, records: seq<Byte>, body: seq<Byte>): (r: seq<Byte>)
    requires IsInt64(size) && IsInt32(nodeNum)
    ensures |r| == 12 + |records| + |body|
  {
    PutLong(size) + PutInt(nodeNum) + records + body
  }

  /** The archive `compress` writes for a non-empty input. */
  function Archive(input: seq<Byte>): (r: seq<Byte>)
    requires 0 < |input| < TWO_31
  {
    EncoderFacts(input);
    var counts := Counts(input);
    var cs := LeafCodes(BuildTreeSpec(counts).value, []);
    Layout(|input|, |LeafHeap(counts, 256)|, RecordBytes(cs), Packed(EncodeBits(input, CodeTable(cs))))
  }

  /** The archive, from its records and its body. */
  lemma {:induction false} ArchiveIs(input: seq<Byte>, records: seq<Byte>, body: seq<Byte>)
    requires 0 < |input| < TWO_31
    requires BuildTreeSpec(Counts(input)).Some?
    requires CountsFit(LeafCodes(BuildTreeSpec(Counts(input)).value, []))
    requires forall i :: 0 <= i < |input| ==>
      input[i] in CodeTable(LeafCodes(BuildTreeSpec(Counts(input)).value, []))
    requires records == RecordBytes(LeafCodes(BuildTreeSpec(Counts(input)).value, []))
    requires body == Packed(EncodeBits(input, CodeTable(LeafCodes(BuildTreeSpec(Counts(input)).value, []))))
    ensures Archive(input) == Layout(|input|, |LeafHeap(Counts(input), 256)|, records, body)
  {
  }

  /** `ins.read(barray, 0, 4)` into a buffer that already holds bytes: the bytes still in
      the archive overwrite the front of the buffer, the rest keep their old values. */
  function ReadInto(buf: seq<Byte>, s: seq<Byte>, pos: nat): (r: seq<Byte>)
    requires |buf| == 4
    ensures |r| == 4
  {
    seq(4, k requires 0 <= k < 4 => if pos + k < |s| then s[pos + k] else buf[k])
  }

  /** The counts and the 4-byte buffer after the decoder has read k leaf records: the
      record at 12 + 5i sets the count of its byte (255 past the end of the archive). */
  function ReadRecords(archive: seq<Byte>, k: nat): (r: (seq<int>, seq<Byte>))
    ensures |r.0| == 256 && |r.1| == 4
  {
    if k == 0 then (seq(256, _ => 0), ReadPadded(archive, 8, 4))
    else
      var prev := ReadRecords(archive, k - 1);
      var pos := 12 + 5 * (k - 1);
      var buf := ReadInto(prev.1, archive, pos + 1);
      (prev.0[ByteAt(archive, pos) := GetInt(buf)], buf)
  }

  /** The bytes after position `start`: the packed body the decoder reads. */
  function BodyFrom(archive: seq<Byte>, start: nat): seq<Byte>
  {
    if start <= |archive| then archive[start..] else []
  }

  /** The number of records the decoder reads: the leaf number of the header, or none when
      it is negative. */
  function RecordCount(archive: seq<Byte>): nat
  {
    var nodeNum := GetInt(ReadPadded(archive, 8, 4));
    if nodeNum < 0 then 0 else nodeNum
  }

  /** What `decompress` reads from an archive: the size recorded in the header, and the
      decoded bytes or the reason no output is produced. */
  function Decode(archive: seq<Byte>): (r: Result<seq<Byte>, Error>)
  {
    var fileSize := GetLong(ReadPadded(archive, 0, 8));
    var k := RecordCount(archive);
    var root := BuildTreeSpec(ReadRecords(archive, k).0);
    if fileSize <= 0 then Ok([])
    else if root.None? then Err(NullRoot)
    else if fileSize >= TWO_31 then Err(NeverEnds)
    else Ok(DecodeSymbols(root.value, BodyFrom(archive, 12 + 5 * k), fileSize).0)
  }

  /* ---------------------------------------------------------------------------------- */
  /* The codec                                                                            */

  class HuffmanCodec {
    /** The mode and rate of the session, which the Java class inherits. */
    const session: Compressor
    var root: Option<Tree>
    var nodeNum: int

    /** A new codec: no tree yet. */
    constructor (session: Compressor)
      ensures this.session == session && root == None && nodeNum == 0
    {
      this.session := session;
      root := None;
      nodeNum := 0;
    }

    /** `createHuffmanTree()`: counts the bytes of the input and builds the tree. */
    method CreateHuffmanTree(input: seq<Byte>)
      modifies this
      ensures root == BuildTreeSpec(Counts(input))
      ensures nodeNum == |LeafHeap(Counts(input), 256)|
    {
      var counts := CountBytes(input);
      root, nodeNum := BuildTree(counts);
    }

    /** `compress()`: refused outside Compress mode. An empty input builds no tree and the
        traversal dereferences it; otherwise the archive is written, the mode becomes
        Decompress and the rate is archive size over input size. */
    method Compress(input: seq<Byte>) returns (r: Result<int, Error>, archive: seq<Byte>)
      requires |input| < TWO_31
      modifies this, session
      ensures old(session.crtMode) != Mode.Compress ==>
        && r == Ok(0) && archive == []
        && root == old(root) && nodeNum == old(nodeNum)
        && session.crtMode == old(session.crtMode)
        && session.compressRate == old(session.compressRate)
      ensures old(session.crtMode) == Mode.Compress ==>
        && root == BuildTreeSpec(Counts(input))
        && nodeNum == |LeafHeap(Counts(input), 256)|
      ensures old(session.crtMode) == Mode.Compress && |input| == 0 ==>
        && r == Err(NullRoot) && archive == []
        && session.crtMode == Mode.Compress
        && session.compressRate == old(session.compressRate)
      ensures old(session.crtMode) == Mode.Compress && |input| > 0 ==>
        && archive == Archive(input) && r == Ok(|archive|)
        && session.crtMode == Mode.Decompress
        && session.compressRate == |archive| as real / |input| as real
    {
      var m := session.GetMode();
      if m != Mode.Compress {
        return Ok(0), [];
      }
      CreateHuffmanTree(input);
      if root.None? {
        NoTree(input);
        return Err(NullRoot), [];
      }
      NoTree(input);
      EncoderFacts(input);
      var header := PutLong(|input|) + PutInt(nodeNum);
      var records, table := AssignCodes(root.value);
      var body := EncodeBody(input, table);
      archive := header + records + body;
      assert archive == Layout(|input|, nodeNum, records, body);
      ArchiveIs(input, records, body);
      var compressedSize := 12 + |records| + |body|;
      session.SetDecompressMode();
      session.SetCompressRate(compressedSize as real / |input| as real);
      r := Ok(compressedSize);
    }

    /** `decompress()`: refused outside Decompress mode. Otherwise it reads the size and
        the leaf number, the leaf records into counts, rebuilds the tree with `buildTree`
        (which also resets `nodeNum`) and decodes the body; it returns the recorded size. */
    method Decompress(archive: seq<Byte>) returns (size: int, out: Result<seq<Byte>, Error>)
      modifies this, session
      ensures session.crtMode == old(session.crtMode)
      ensures session.crtMode != Mode.Decompress ==>
        && size == 0 && out == Ok([])
        && root == old(root) && nodeNum == old(nodeNum)
        && session.compressRate == old(session.compressRate)
      ensures session.crtMode == Mode.Decompress ==>
        && size == GetLong(ReadPadded(archive, 0, 8))
        && out == Decode(archive)
        && root == BuildTreeSpec(ReadRecords(archive, RecordCount(archive)).0)
        && nodeNum == |LeafHeap(ReadRecords(archive, RecordCount(archive)).0, 256)|
        && (size != 0 ==> session.compressRate == |archive| as real / size as real)
        && (size == 0 ==> session.compressRate == old(session.compressRate))
    {
      var m := session.GetMode();
      if m != Mode.Decompress {
        return 0, Ok([]);
      }
      size := GetLong(ReadPadded(archive, 0, 8));
      if size != 0 {
        session.SetCompressRate(|archive| as real / size as real);
      }
      var barray := ReadPadded(archive, 8, 4);
      nodeNum := GetInt(barray);
      var counts, pos := ReadCounts(archive, barray, nodeNum);
      root, nodeNum := BuildTree(counts);
      if size <= 0 {
        out := Ok([]);
      } else if root.None? {
        out := Err(NullRoot);
      } else if size >= TWO_31 {
        out := Err(NeverEnds);
      } else {
        var decoded := DecodeBody(root.value, BodyFrom(archive, pos), size);
        out := Ok(decoded);
      }
    }
  }

  /** The record loop of `decompress`: reads `nodeNum` records (none when it is not
      positive) into a fresh counts array, reusing the buffer the leaf number was read
      into; returns the position after them. */
  method ReadCounts(archive: seq<Byte>, buf: seq<Byte>, nodeNum: int) returns (counts: array<int>, pos: nat)
    requires buf == ReadPadded(archive, 8, 4)
    ensures fresh(counts) && counts.Length == 256
    ensures var k := if nodeNum < 0 then 0 else nodeNum;
            counts[..] == ReadRecords(archive, k).0 && pos == 12 + 5 * k
  {
    var barray := buf;
    counts := new int[256](_ => 0);
    pos := 12;
    var i := 0;
    while i < nodeNum
      invariant 0 <= i && (i <= nodeNum || i == 0)
      invariant pos == 12 + 5 * i
      invariant counts[..] == ReadRecords(archive, i).0 && barray == ReadRecords(archive, i).1
    {
      var b := ByteAt(archive, pos);
      barray := ReadInto(barray, archive, pos + 1);
      counts[b] := GetInt(barray);
      pos := pos + 5;
      i := i + 1;
    }
  }

  /* ---------------------------------------------------------------------------------- */
  /* The encoder's tree and records                                                       */

  /** Some entry among the first k carries byte v. */
  predicate Recorded(cs: seq<Coded>, k: nat, v: Byte)
    requires k <= |cs|
  {
    exists i :: 0 <= i < k && cs[i].b == v
  }

  /** The leaves the traversal visits, for a tree built from counts: the first |heap| of
      them carry a byte with its count, one for every byte with a positive count; with two
      or more such bytes there is nothing else, and with one there is the dummy leaf. */
  lemma {:induction false} TreeRecords(counts: seq<int>)
    requires |counts| == 256 && BuildTreeSpec(counts).Some?
    ensures var h := LeafHeap(counts, 256);
            var cs := LeafCodes(BuildTreeSpec(counts).value, []);
            && |h| <= |cs|
            && (|h| >= 2 ==> |cs| == |h|)
            && (|h| == 1 ==> cs == [Coded(h[0].b, h[0].count, [0]), Coded(0, 0, [1])])
            && (forall i :: 0 <= i < |h| ==> cs[i].count == counts[cs[i].b])
            && (forall v: Byte :: counts[v] > 0 ==> Recorded(cs, |h|, v))
  {
    var h := LeafHeap(counts, 256);
    var root := BuildTreeSpec(counts).value;
    var cs := LeafCodes(root, []);
    if |h| == 1 {
      assert h[0] == Leaf(h[0].b, h[0].count);
      assert root == Node(h[0].count + 0, h[0], Leaf(0, 0));
      assert [] + [0] == [0] && [] + [1] == [1];
      assert cs == LeafCodes(h[0], [0]) + LeafCodes(Leaf(0, 0), [1]);
      assert LeafCodes(h[0], [0]) == [Coded(h[0].b, h[0].count, [0])];
      assert cs == [Coded(h[0].b, h[0].count, [0]), Coded(0, 0, [1])];
      forall v: Byte | counts[v] > 0
        ensures Recorded(cs, |h|, v)
      {
        LeafHeapComplete(counts, 256, v);
        assert cs[0].b == v;
      }
    } else {
      ManyRecords(counts);
    }
  }

  lemma {:induction false} ManyRecords(counts: seq<int>)
    requires |counts| == 256 && |LeafHeap(counts, 256)| >= 2
    ensures var h := LeafHeap(counts, 256);
            var cs := LeafCodes(BuildTreeSpec(counts).value, []);
            && |cs| == |h|
            && (forall i :: 0 <= i < |h| ==> cs[i].count == counts[cs[i].b])
            && (forall v: Byte :: counts[v] > 0 ==> Recorded(cs, |h|, v))
  {
    var h := LeafHeap(counts, 256);
    var root := BuildTreeSpec(counts).value;
    TreeLeaves(counts);
    LeafCodesLeaves(root, []);
    forall v: Byte | counts[v] > 0
      ensures Leaf(v, counts[v]) in h
    {
      LeafHeapComplete(counts, 256, v);
    }
    MatchLeaves(LeafCodes(root, []), h, counts);
  }

  /** Entries whose leaves are, as a multiset, the leaves of a heap built from counts. */
  lemma {:induction false} MatchLeaves(cs: seq<Coded>, h: seq<Tree>, counts: seq<int>)
    requires |counts| == 256 && multiset(LeafTrees(cs)) == multiset(h)
    requires forall j :: 0 <= j < |h| ==> h[j].Leaf? && h[j].count == counts[h[j].b]
    requires forall v: Byte :: counts[v] > 0 ==> Leaf(v, counts[v]) in h
    ensures |cs| == |h|
    ensures forall i :: 0 <= i < |h| ==> cs[i].count == counts[cs[i].b]
    ensures forall v: Byte :: counts[v] > 0 ==> Recorded(cs, |h|, v)
  {
    var ts := LeafTrees(cs);
    assert |cs| == |h| by {
      assert |multiset(ts)| == |ts|;
      assert |multiset(h)| == |h|;
    }
    forall i | 0 <= i < |h|
      ensures cs[i].count == counts[cs[i].b]
    {
      assert ts[i] in multiset(h);
      var j :| 0 <= j < |h| && h[j] == ts[i];
    }
    forall v: Byte | counts[v] > 0
      ensures Recorded(cs, |h|, v)
    {
      assert Leaf(v, counts[v]) in multiset(ts);
      var i :| 0 <= i < |ts| && ts[i] == Leaf(v, counts[v]);
      assert cs[i].b == v;
    }
  }

  /** With two or more leaves, the leaves of the built tree are the leaves of the heap. */
  lemma {:induction false} TreeLeaves(counts: seq<int>)
    requires |counts| == 256 && |LeafHeap(counts, 256)| >= 2
    ensures Leaves(BuildTreeSpec(counts).value) == multiset(LeafHeap(counts, 256))
  {
    var h := LeafHeap(counts, 256);
    MergedLeaves(h);
    HeapOfLeaves(h);
  }

  /** For a non-empty input: a tree exists, every count it records fits an `int`, and every
      byte of the input has a code. */
  lemma {:induction false} EncoderFacts(input: seq<Byte>)
    requires 0 < |input| < TWO_31
    ensures BuildTreeSpec(Counts(input)).Some?
    ensures CountsFit(LeafCodes(BuildTreeSpec(Counts(input)).value, []))
    ensures forall i :: 0 <= i < |input| ==>
      input[i] in CodeTable(LeafCodes(BuildTreeSpec(Counts(input)).value, []))
  {
    var counts := Counts(input);
    RootWeight(input);
    CountsBounds(input);
    TreeRecords(counts);
    var h := LeafHeap(counts, 256);
    var cs := LeafCodes(BuildTreeSpec(counts).value, []);
    forall i | 0 <= i < |cs|
      ensures IsInt32(cs[i].count)
    {
      if i >= |h| {
        assert cs[i] == Coded(0, 0, [1]);
      }
    }
    forall i | 0 <= i < |input|
      ensures input[i] in CodeTable(cs)
    {
      assert Recorded(cs, |h|, input[i]);
      CodeTableKeys(cs, input[i]);
    }
  }

  /** Only the empty input builds no tree. */
  lemma {:induction false} NoTree(input: seq<Byte>)
    ensures BuildTreeSpec(Counts(input)).None? <==> |input| == 0
  {
    var h := LeafHeap(Counts(input), 256);
    if |input| == 0 {
      assert forall v :: 0 <= v < 256 ==> Counts(input)[v] == 0;
      LeafHeapEmpty(Counts(input), 256);
    } else {
      RootWeight(input);
    }
  }

  /* ---------------------------------------------------------------------------------- */
  /* Reading the archive back                                                             */

  /** Where the parts of a layout lie, as the decoder reads them. */
  lemma {:induction false} LayoutParts(size: int, nodeNum: int, records: seq<Byte>, body: seq<Byte>)
    requires IsInt64(size) && IsInt32(nodeNum)
    ensures var a := Layout(size, nodeNum, records, body);
            && ReadPadded(a, 0, 8) == PutLong(size)
            && ReadPadded(a, 8, 4) == PutInt(nodeNum)
            && a[12..12 + |records|] == records
            && forall j :: 0 <= j <= |records| ==> BodyFrom(a, 12 + j) == records[j..] + body
  {
    var a := Layout(size, nodeNum, records, body);
    ReadPaddedInside(a, 0, 8);
    ReadPaddedInside(a, 8, 4);
    forall j | 0 <= j <= |records|
      ensures BodyFrom(a, 12 + j) == records[j..] + body
    {
      assert a[12 + j..] == records[j..] + body;
    }
  }

  /** The records of cs at position 12 read back as counts: a recorded byte gets its
      count, every other byte 0. */
  lemma {:induction false} RecordsRead(archive: seq<Byte>, cs: seq<Coded>, counts: seq<int>, k: nat)
    requires CountsFit(cs) && |counts| == 256 && k <= |cs|
    requires 12 + 5 * |cs| <= |archive| && archive[12..12 + 5 * |cs|] == RecordBytes(cs)
    requires forall i :: 0 <= i < k ==> cs[i].count == counts[cs[i].b]
    ensures forall v: Byte :: ReadRecords(archive, k).0[v] == if Recorded(cs, k, v) then counts[v] else 0
  {
    if k > 0 {
      var j := k - 1;
      var pos := 12 + 5 * j;
      var prev := ReadRecords(archive, j);
      RecordsRead(archive, cs, counts, j);
      RecordIn(archive, cs, j);
      var buf := ReadInto(prev.1, archive, pos + 1);
      assert buf == PutInt(cs[j].count);
      GetPutInt(cs[j].count);
      forall v: Byte
        ensures ReadRecords(archive, k).0[v] == if Recorded(cs, k, v) then counts[v] else 0
      {
        if v == cs[j].b {
          assert Recorded(cs, k, v);
        } else if Recorded(cs, k, v) {
          var i :| 0 <= i < k && cs[i].b == v;
          assert Recorded(cs, j, v);
        }
      }
    }
  }

  /** Record j of cs sits at 12 + 5j. */
  lemma {:induction false} RecordIn(archive: seq<Byte>, cs: seq<Coded>, j: nat)
    requires CountsFit(cs) && j < |cs|
    requires 12 + 5 * |cs| <= |archive| && archive[12..12 + 5 * |cs|] == RecordBytes(cs)
    ensures ByteAt(archive, 12 + 5 * j) == cs[j].b
    ensures archive[12 + 5 * j + 1..12 + 5 * j + 5] == PutInt(cs[j].count)
  {
    RecordAt(cs, j);
    var seg := archive[12..12 + 5 * |cs|];
    var p := 12 + 5 * j;
    var rec, at := seg[5 * j..5 * j + 5], archive[p..p + 5];
    forall k | 0 <= k < 5
      ensures rec[k] == at[k]
    {
      assert seg[5 * j + k] == archive[p + k];
    }
    assert rec == at;
    assert archive[p..p + 5] == Record(cs[j]);
    assert archive[p + 1..p + 5] == archive[p..p + 5][1..];
  }

  lemma {:induction false} RecordAt(cs: seq<Coded>, j: nat)
    requires CountsFit(cs) && j < |cs|
    ensures RecordBytes(cs)[5 * j..5 * j + 5] == Record(cs[j])
  {
    var n := |cs| - 1;
    if j < n {
      RecordAt(cs[..n], j);
      assert RecordBytes(cs)[5 * j..5 * j + 5] == RecordBytes(cs[..n])[5 * j..5 * j + 5];
    }
  }

  /** Records that carry each positive count, and nothing else, read back as the counts. */
  lemma {:induction false} CountsFromRecords(archive: seq<Byte>, cs: seq<Coded>, counts: seq<int>, m: nat)
    requires CountsFit(cs) && |counts| == 256 && m <= |cs|
    requires 12 + 5 * |cs| <= |archive| && archive[12..12 + 5 * |cs|] == RecordBytes(cs)
    requires forall i :: 0 <= i < m ==> cs[i].count == counts[cs[i].b]
    requires forall v: Byte :: 0 <= counts[v] && (counts[v] > 0 ==> Recorded(cs, m, v))
    ensures ReadRecords(archive, m).0 == counts
  {
    RecordsRead(archive, cs, counts, m);
    var got := ReadRecords(archive, m).0;
    forall v: Byte
      ensures got[v] == counts[v]
    {
      if !Recorded(cs, m, v) {
        assert counts[v] <= 0;
      }
    }
    assert got == counts;
  }

  /** The decoder reads back exactly the counts the encoder built its tree from, so it
      rebuilds the same tree. */
  lemma {:induction false} SameCounts(input: seq<Byte>)
    requires 0 < |input| < TWO_31
    ensures ReadRecords(Archive(input), |LeafHeap(Counts(input), 256)|).0 == Counts(input)
    ensures BuildTreeSpec(ReadRecords(Archive(input), |LeafHeap(Counts(input), 256)|).0)
         == BuildTreeSpec(Counts(input))
  {
    var counts := Counts(input);
    var h := LeafHeap(counts, 256);
    EncoderFacts(input);
    TreeRecords(counts);
    CountsBounds(input);
    var cs := LeafCodes(BuildTreeSpec(counts).value, []);
    var body := Packed(EncodeBits(input, CodeTable(cs)));
    LayoutParts(|input|, |h|, RecordBytes(cs), body);
    CountsFromRecords(Layout(|input|, |h|, RecordBytes(cs), body), cs, counts, |h|);
  }

  /** What the decoder makes of a layout whose records give back counts with a tree: the
      walks over the body, which starts after the first m records. */
  lemma {:induction false} DecodeLayout(size: int, cs: seq<Coded>, counts: seq<int>, m: nat, body: seq<Byte>)
    requires 0 < size < TWO_31 && m < TWO_31 && m <= |cs| && CountsFit(cs) && |counts| == 256
    requires ReadRecords(Layout(size, m, RecordBytes(cs), body), m).0 == counts
    requires BuildTreeSpec(counts).Some?
    ensures Decode(Layout(size, m, RecordBytes(cs), body))
         == Ok(DecodeSymbols(BuildTreeSpec(counts).value, RecordBytes(cs)[5 * m..] + body, size).0)
  {
    LayoutParts(size, m, RecordBytes(cs), body);
    GetPutLong(size);
    GetPutInt(m);
  }

  /* ---------------------------------------------------------------------------------- */
  /* The round trip                                                                       */

  /** Decompressing the archive of a non-empty input gives the input back, with two or
      more distinct bytes and with one alike. */
  lemma {:induction false} RoundTrip(input: seq<Byte>)
    requires 0 < |input| < TWO_31
    ensures Decode(Archive(input)) == Ok(input)
  {
    var counts := Counts(input);
    var h := LeafHeap(counts, 256);
    EncoderFacts(input);
    var root := BuildTreeSpec(counts).value;
    var cs := LeafCodes(root, []);
    var body := Packed(EncodeBits(input, CodeTable(cs)));
    SameCounts(input);
    TreeRecords(counts);
    DecodeLayout(|input|, cs, counts, |h|, body);
    if |h| >= 2 {
      assert RecordBytes(cs)[5 * |h|..] + body == body;
      CodeTableLeads(root);
      DecodeInvertsEncode(root, CodeTable(cs), input);
    } else {
      DummyRecord(cs);
      SingleRoundTrip(input);
    }
  }

  /** The dummy leaf's record is five zero bytes. */
  lemma {:induction false} DummyRecord(cs: seq<Coded>)
    requires |cs| == 2 && IsInt32(cs[0].count) && cs[1] == Coded(0, 0, [1])
    ensures CountsFit(cs) && RecordBytes(cs)[5..] == [0, 0, 0, 0, 0]
  {
    RecordAt(cs, 1);
    assert PutInt(0) == [0, 0, 0, 0];
  }

  /** A fresh session: compress, then decompress what it wrote. The decoder rebuilds the
      encoder's tree and returns the input. */
  method CompressThenDecompress(input: seq<Byte>) returns (out: Result<seq<Byte>, Error>, encoderTree: Option<Tree>, decoderTree: Option<Tree>)
    requires 0 < |input| < TWO_31
    ensures out == Ok(input)
    ensures encoderTree == decoderTree == BuildTreeSpec(Counts(input))
  {
    var session := new Compressor();
    var codec := new HuffmanCodec(session);
    var r, archive := codec.Compress(input);
    encoderTree := codec.root;
    var size;
    size, out := codec.Decompress(archive);
    decoderTree := codec.root;
    RoundTrip(input);
    SameCounts(input);
    RecordCountOf(input);
  }

  /** The leaf number in the archive of a non-empty input is the number of leaves. */
  lemma {:induction false} RecordCountOf(input: seq<Byte>)
    requires 0 < |input| < TWO_31
    ensures RecordCount(Archive(input)) == |LeafHeap(Counts(input), 256)|
  {
    EncoderFacts(input);
    var counts := Counts(input);
    var cs := LeafCodes(BuildTreeSpec(counts).value, []);
    var h := LeafHeap(counts, 256);
    LayoutParts(|input|, |h|, RecordBytes(cs), Packed(EncodeBits(input, CodeTable(cs))));
    GetPutInt(|h|);
  }

  /** One distinct byte b: the leaf number is 1 but the dummy record is written too, so
      the decoder reads that record's five zero bytes as the start of the body. Either b
      is 0 and both leaves carry 0, or every code bit is 0 and so is every byte the
      decoder reads before the end of the input; each walk yields b. */
  lemma {:induction false} SingleRoundTrip(input: seq<Byte>)
    requires 0 < |input| && |LeafHeap(Counts(input), 256)| == 1
    requires BuildTreeSpec(Counts(input)).Some?
    requires forall i :: 0 <= i < |input| ==>
      input[i] in CodeTable(LeafCodes(BuildTreeSpec(Counts(input)).value, []))
    ensures var root := BuildTreeSpec(Counts(input)).value;
            var bits := EncodeBits(input, CodeTable(LeafCodes(root, [])));
            DecodeSymbols(root, [0, 0, 0, 0, 0] + Packed(bits), |input|).0 == input
  {
    var counts := Counts(input);
    var h := LeafHeap(counts, 256);
    TreeRecords(counts);
    var root := BuildTreeSpec(counts).value;
    var cs := LeafCodes(root, []);
    var b := h[0].b;
    var table := CodeTable(cs);
    var body := [0, 0, 0, 0, 0] + Packed(EncodeBits(input, table));
    SingleBytes(input);
    if b != 0 {
      SingleTable(cs, b, h[0].count);
      ZeroBody(input, table, b);
    }
    DecodeTwoLeaves(root, body, |input|);
  }

  /** With one distinct byte, the input is that byte repeated. */
  lemma {:induction false} SingleBytes(input: seq<Byte>)
    requires |LeafHeap(Counts(input), 256)| == 1
    ensures input == Repeat(LeafHeap(Counts(input), 256)[0].b, |input|)
  {
    var h := LeafHeap(Counts(input), 256);
    LeafHeapBytes(input);
    forall i | 0 <= i < |input|
      ensures input[i] == h[0].b
    {
      assert input[i] in input;
    }
  }

  /** The table of the single-byte tree: the dummy's entry does not touch a non-zero byte. */
  lemma {:induction false} SingleTable(cs: seq<Coded>, b: Byte, c: int)
    requires cs == [Coded(b, c, [0]), Coded(0, 0, [1])] && b != 0
    ensures b in CodeTable(cs) && CodeTable(cs)[b] == [0]
  {
    assert cs[..1][..0] == [];
    assert CodeTable(cs[..1]) == map[][b := [0]];
  }

  /** Zero codes behind a zero record read as zero bits, one per input byte. */
  lemma {:induction false} ZeroBody(input: seq<Byte>, table: map<Byte, seq<Bit>>, b: Byte)
    requires b in table && table[b] == [0]
    requires forall i :: 0 <= i < |input| ==> input[i] == b
    ensures forall k :: 0 <= k < |input| ==> BitAt([0, 0, 0, 0, 0] + Packed(EncodeBits(input, table)), k) == 0
  {
    var bits := EncodeBits(input, table);
    EncodeBitsZeros(input, table, b);
    PackedZeros(bits);
    ZeroBits([0, 0, 0, 0, 0] + Packed(bits), |input|);
  }

  /** The codes of a run of one byte whose code is [0] are all zeros, one per byte. */
  lemma {:induction false} EncodeBitsZeros(s: seq<Byte>, table: map<Byte, seq<Bit>>, b: Byte)
    requires b in table && table[b] == [0]
    requires forall i :: 0 <= i < |s| ==> s[i] == b
    ensures |EncodeBits(s, table)| == |s|
    ensures forall k :: 0 <= k < |s| ==> EncodeBits(s, table)[k] == 0
  {
    if s != [] {
      EncodeBitsZeros(s[..|s| - 1], table, b);
    }
  }

  /** A body whose bytes are zero reads as zero bits up to its end. */
  lemma {:induction false} ZeroBits(body: seq<Byte>, n: nat)
    requires forall j :: 0 <= j < |body| ==> body[j] == 0
    requires n <= 8 * |body|
    ensures forall k :: 0 <= k < n ==> BitAt(body, k) == 0
  {
    forall k | 0 <= k < n
      ensures BitAt(body, k) == 0
    {
      BitOfZero(k % 8);
    }
  }

  /** n copies of x. */
  function Repeat(x: Byte, n: nat): (r: seq<Byte>)
    ensures |r| == n && forall i :: 0 <= i < n ==> r[i] == x
  {
    if n == 0 then [] else Repeat(x, n - 1) + [x]
  }

  /** A root over two leaves decodes every symbol to its left leaf's byte when both leaves
      carry the same byte or every bit read is 0; each walk reads one bit. */
  lemma {:induction false} DecodeTwoLeaves(t: Tree, body: seq<Byte>, j: nat)
    requires t.Node? && t.left.Leaf? && t.right.Leaf?
    requires t.left.b == t.right.b || forall k :: 0 <= k < j ==> BitAt(body, k) == 0
    ensures DecodeSymbols(t, body, j) == (Repeat(t.left.b, j), j)
  {
    if j > 0 {
      DecodeTwoLeaves(t, body, j - 1);
      if BitAt(body, j - 1) == 0 {
        assert Walk(t, body, j - 1) == Walk(t.left, body, j);
      } else {
        assert Walk(t, body, j - 1) == Walk(t.right, body, j);
      }
    }
  }
}
