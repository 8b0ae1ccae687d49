/** The Huffman tree shared by both Huffman codecs: leaves carry a byte and its count,
    internal nodes the sum of their children's counts. The priority queue of the Java
    code is a sequence of trees from which `Poll` removes a tree of least count. */
module HuffmanTree {
  import opened Results
  import opened Bytes
  import opened BitPacking

  /** A `TreeNode`: a leaf (both children null) or a node with two children. Internal
      nodes carry the byte 0, which nothing reads, so the model leaves it out. */
  datatype Tree = Leaf(b: Byte, count: int) | Node(count: int, left: Tree, right: Tree)

  /** The leaves of a tree, as a multiset. */
  function Leaves(t: Tree): multiset<Tree>
  {
    match t
    case Leaf(_, _) => multiset{t}
    case Node(_, l, r) => Leaves(l) + Leaves(r)
  }

  /** Every internal node weighs the sum of its children's weights. */
  predicate WellWeighted(t: Tree)
  {
    match t
    case Leaf(_, _) => true
    case Node(c, l, r) => c == l.count + r.count && WellWeighted(l) && WellWeighted(r)
  }

  /** The leaves of all the trees in a heap. */
  function HeapLeaves(h: seq<Tree>): multiset<Tree>
  {
    if h == [] then multiset{} else HeapLeaves(h[..|h| - 1]) + Leaves(h[|h| - 1])
  }

  /** The total count of the trees in a heap. */
  function HeapWeight(h: seq<Tree>): int
  {
    if h == [] then 0 else HeapWeight(h[..|h| - 1]) + h[|h| - 1].count
  }

  /* ---------------------------------------------------------------------------------- */
  /* The priority queue                                                                   */

  /** The position of the first tree of least count: the tie order among equal counts is
      fixed here to "earliest in the sequence". */
  function MinIndex(h: seq<Tree>): (r: nat)
    requires |h| > 0
    ensures r < |h|
  {
    if |h| == 1 then 0
    else
      var m := MinIndex(h[..|h| - 1]);
      if h[|h| - 1].count < h[m].count then |h| - 1 else m
  }

  /** `heap.poll()`: removes one tree of least count and returns it with the rest. */
  function Poll(h: seq<Tree>): (r: (Tree, seq<Tree>))
    requires |h| > 0
    ensures |r.1| == |h| - 1
  {
    var m := MinIndex(h);
    (h[m], h[..m] + h[m + 1..])
  }

  /** One round of the merge loop: poll the two lightest trees and add a node with them as
      left and right child and their summed count. */
  function MergeOnce(h: seq<Tree>): (r: seq<Tree>)
    requires |h| >= 2
    ensures |r| == |h| - 1
  {
    var (n1, h1) := Poll(h);
    var (n2, h2) := Poll(h1);
    h2 + [Node(n1.count + n2.count, n1, n2)]
  }

  /** The heap after k rounds of the merge loop. */
  function MergeRounds(h: seq<Tree>, k: nat): (r: seq<Tree>)
    requires k == 0 || k < |h|
    ensures |r| == |h| - k
  {
    if k == 0 then h else MergeOnce(MergeRounds(h, k - 1))
  }

  /** The initial heap: one leaf `(i, counts[i])` for every i below n with a positive
      count, added in increasing order of i. */
  function LeafHeap(counts: seq<int>, n: nat): (r: seq<Tree>)
    requires |counts| == 256 && n <= 256
    ensures |r| <= n
    ensures forall j :: 0 <= j < |r| ==> r[j].Leaf? && r[j].b < n && r[j].count == counts[r[j].b] > 0
    ensures forall j, k :: 0 <= j < k < |r| ==> r[j].b < r[k].b
  {
    if n == 0 then []
    else LeafHeap(counts, n - 1) + (if counts[n - 1] > 0 then [Leaf(n - 1, counts[n - 1])] else [])
  }

  /** The occurrence count of every byte value in the input. */
  function Counts(input: seq<Byte>): (r: seq<int>)
    ensures |r| == 256
  {
    seq(256, (v: int) => if 0 <= v < 256 then multiset(input)[v as Byte] else 0)
  }

  /** The sum of the first n counts. */
  function SumCounts(counts: seq<int>, n: nat): int
    requires n <= |counts|
  {
    if n == 0 then 0 else SumCounts(counts, n - 1) + counts[n - 1]
  }

  /** `buildTree(counts)` of the codec: no tree when no count is positive; a node over the
      single leaf and a dummy leaf `(0, 0)` when one is; otherwise the one tree left after
      |heap| - 1 merges. */
  function BuildTreeSpec(counts: seq<int>): (r: Option<Tree>)
    requires |counts| == 256
  {
    var h := LeafHeap(counts, 256);
    if |h| == 0 then None
    else if |h| == 1 then Some(Node(h[0].count + 0, h[0], Leaf(0, 0)))
    else Some(MergeRounds(h, |h| - 1)[0])
  }

  /** The same construction without the dummy leaf, as the earlier draft does it: a single
      leaf is itself the root. */
  function DraftTreeSpec(counts: seq<int>): (r: Option<Tree>)
    requires |counts| == 256
  {
    var h := LeafHeap(counts, 256);
    if |h| == 0 then None else Some(MergeRounds(h, |h| - 1)[0])
  }

}
