/** The earlier draft of the Huffman tree: it counts the bytes of a named file and builds
    the tree without the codec's dummy leaf, so an input of one distinct byte gets a single
    leaf as its root. Its `compressFile` does nothing yet. */
module HuffmanDraft {
  import opened Results
  import opened Bytes
  import opened HuffmanTree
  import opened HuffmanBuild

  /** The draft's state. The file's contents are passed to `CreateHuffmanTree`, since the
      model does not read files; `fileName` only records whether a name was given. */
  class DraftTree {
    var fileName: Option<string>
    var root: Option<Tree>
    var nodeNum: int

    /** The implicit constructor: no name, no tree, no nodes. */
    constructor()
      ensures fileName == None && root == None && nodeNum == 0
    {
      fileName := None;
      root := None;
      nodeNum := 0;
    }

    /** The method named like the class, which Java reads as a plain `void` method rather
        than a constructor: it only records the file name. */
    method SetFileName(name: string)
      modifies this
      ensures fileName == Some(name)
      ensures root == old(root) && nodeNum == old(nodeNum)
    {
      fileName := Some(name);
    }

    /** `createHuffmanTree()` over the contents of the file. Without a file name, opening
        the file fails before anything is changed (`done` is false). */
    method CreateHuffmanTree(input: seq<Byte>) returns (done: bool)
      requires |input| < TWO_31
      modifies this
      ensures done <==> old(fileName).Some?
      ensures fileName == old(fileName)
      ensures !done ==> root == old(root) && nodeNum == old(nodeNum)
      ensures done ==> root == DraftTreeSpec(Counts(input))
      ensures done ==> nodeNum == |LeafHeap(Counts(input), 256)|
    {
      if fileName.None? {
        return false;
      }
      var counts := CountBytes(input);
      var heap := InitHeap(counts);
      nodeNum := |heap|;
      heap := MergeLoop(heap, nodeNum - 1);
      if heap == [] {
        root := None;
      } else {
        root := Some(Poll(heap).0);
      }
      done := true;
    }

    /** `compressFile()`: not written yet, it reports a compressed size of 0. */
    method CompressFile() returns (size: int)
      ensures size == 0
    {
      size := 0;
    }
  }

  /** The draft builds no tree exactly for an empty file. */
  lemma {:induction false} DraftNoTree(input: seq<Byte>)
    ensures DraftTreeSpec(Counts(input)).None? <==> |input| == 0
  {
    if |input| == 0 {
      assert forall v :: 0 <= v < 256 ==> Counts(input)[v] == 0;
      LeafHeapEmpty(Counts(input), 256);
    } else {
      RootWeight(input);
    }
  }

  /** A non-empty file of one repeated byte gets that byte's leaf as its root. */
  lemma {:induction false} DraftSingleLeaf(input: seq<Byte>, b: Byte)
    requires |input| > 0
    requires forall i :: 0 <= i < |input| ==> input[i] == b
    ensures DraftTreeSpec(Counts(input)) == Some(Leaf(b, |input|))
  {
    var counts := Counts(input);
    var h := LeafHeap(counts, 256);
    HeapFacts(input);
    forall v | 0 <= v < 256 && v != b
      ensures counts[v] <= 0
    {
      assert v !in multiset(input);
    }
    AtMostOneLeaf(counts, b);
    assert HeapWeight(h) == HeapWeight([]) + h[0].count;
  }

  /** Counts with no positive entry but b's give a heap of b's leaf alone, or nothing. */
  lemma {:induction false} AtMostOneLeaf(counts: seq<int>, b: Byte)
    requires |counts| == 256
    requires forall v :: 0 <= v < 256 && v != b ==> counts[v] <= 0
    ensures LeafHeap(counts, 256) == if counts[b] > 0 then [Leaf(b, counts[b])] else []
  {
    LeafHeapEmpty(counts, b);
    LeafHeapAbove(counts, b, 256);
  }

  lemma {:induction false} LeafHeapAbove(counts: seq<int>, b: Byte, n: nat)
    requires |counts| == 256 && b < n <= 256
    requires forall v :: b < v < n ==> counts[v] <= 0
    ensures LeafHeap(counts, n) == LeafHeap(counts, b + 1)
  {
    if n > b + 1 {
      LeafHeapAbove(counts, b, n - 1);
    }
  }

  /** The two constructions agree except on a single leaf, which the codec pairs with the
      dummy leaf `(0, 0)` and the draft keeps as the root. */
  lemma {:induction false} DraftAgainstCodec(counts: seq<int>)
    requires |counts| == 256
    ensures DraftTreeSpec(counts).None? <==> BuildTreeSpec(counts).None?
    ensures DraftTreeSpec(counts).Some? && DraftTreeSpec(counts).value.Leaf? ==>
      var t := DraftTreeSpec(counts).value;
      BuildTreeSpec(counts) == Some(Node(t.count, t, Leaf(0, 0)))
    ensures DraftTreeSpec(counts).Some? && DraftTreeSpec(counts).value.Node? ==>
      BuildTreeSpec(counts) == DraftTreeSpec(counts)
  {
    var h := LeafHeap(counts, 256);
    if |h| >= 2 {
      MergedNode(h, |h| - 1);
    }
  }

  /** Once at least one merge has run, the last tree of the heap is a node. */
  lemma {:induction false} MergedNode(h: seq<Tree>, k: nat)
    requires 0 < k < |h|
    ensures MergeRounds(h, k)[|h| - k - 1].Node?
  {
    var prev := MergeRounds(h, k - 1);
    var (n1, h1) := Poll(prev);
    var (n2, h2) := Poll(h1);
    assert MergeRounds(h, k) == h2 + [Node(n1.count + n2.count, n1, n2)];
  }
}
