/** The two loops of `buildTree` over the priority queue, and what they preserve: the
    leaves and the total count of the heap, and the weights of the nodes they build. */
module HuffmanBuild {
  import opened Results
  import opened Bytes
  import opened HuffmanTree

  /* ---------------------------------------------------------------------------------- */
  /* Counting                                                                             */

  /** The counting loop: `counts[b & 0xFF]++` for every byte read. */
  method CountBytes(input: seq<Byte>) returns (counts: array<int>)
    ensures fresh(counts) && counts.Length == 256
    ensures counts[..] == Counts(input)
  {
    counts := new int[256](_ => 0);
    for i := 0 to |input|
      invariant forall v: Byte :: counts[v] == multiset(input[..i])[v]
    {
      assert input[..i + 1] == input[..i] + [input[i]];
      counts[input[i]] := counts[input[i]] + 1;
    }
    assert input[..|input|] == input;
  }

  /** The count of v is the number of positions holding v, so a byte of the input has a
      positive count and every count is bounded by the length of the input. */
  lemma {:induction false} CountsBounds(input: seq<Byte>)
    ensures forall v: Byte :: 0 <= Counts(input)[v] <= |input|
    ensures forall i :: 0 <= i < |input| ==> Counts(input)[input[i]] > 0
  {
    forall v: Byte
      ensures multiset(input)[v] <= |input|
    {
      CountBound(input, v);
    }
    forall i | 0 <= i < |input|
      ensures multiset(input)[input[i]] > 0
    {
      assert input[i] in multiset(input);
    }
  }

  lemma {:induction false} CountBound(input: seq<Byte>, v: Byte)
    ensures multiset(input)[v] <= |input|
  {
    if input != [] {
      var n := |input| - 1;
      assert input == input[..n] + [input[n]];
      CountBound(input[..n], v);
    }
  }

  /** The counts add up to the length of the input. */
  lemma {:induction false} CountsSum(input: seq<Byte>)
    ensures SumCounts(Counts(input), 256) == |input|
  {
    if input != [] {
      var n := |input| - 1;
      var x := input[n];
      var c := Counts(input[..n]);
      CountsSum(input[..n]);
      assert input == input[..n] + [x];
      assert multiset(input) == multiset(input[..n]) + multiset{x};
      assert Counts(input) == c[x := c[x] + 1];
      SumBump(c, x, 256);
    } else {
      SumZero(Counts(input), 256);
    }
  }

  lemma {:induction false} SumZero(c: seq<int>, n: nat)
    requires n <= |c| && forall v :: 0 <= v < n ==> c[v] == 0
    ensures SumCounts(c, n) == 0
  {
    if n > 0 {
      SumZero(c, n - 1);
    }
  }

  lemma {:induction false} SumBump(c: seq<int>, x: nat, n: nat)
    requires x < |c| && n <= |c|
    ensures SumCounts(c[x := c[x] + 1], n) == SumCounts(c, n) + (if x < n then 1 else 0)
  {
    if n > 0 {
      SumBump(c, x, n - 1);
    }
  }

  /* ---------------------------------------------------------------------------------- */
  /* The loops of buildTree                                                               */

  /** The first loop: a leaf for every byte value with a positive count, in ascending order. */
  method InitHeap(counts: array<int>) returns (heap: seq<Tree>)
    requires counts.Length == 256
    ensures heap == LeafHeap(counts[..], 256)
  {
    heap := [];
    for i := 0 to 256
      invariant heap == LeafHeap(counts[..], i)
    {
      if counts[i] > 0 {
        heap := heap + [Leaf(i, counts[i])];
      }
    }
  }

  /** The merge loop, run `rounds` times (not at all when `rounds` is negative). */
  method MergeLoop(h: seq<Tree>, rounds: int) returns (heap: seq<Tree>)
    requires rounds < |h|
    ensures heap == MergeRounds(h, if rounds < 0 then 0 else rounds)
  {
    heap := h;
    var n := if rounds < 0 then 0 else rounds;
    for i := 0 to n
      invariant heap == MergeRounds(h, i)
    {
      heap := MergeRound(h, heap, i);
    }
  }

  /** Round i + 1 of the merge loop. */
  method MergeRound(h: seq<Tree>, heap0: seq<Tree>, i: nat) returns (heap: seq<Tree>)
    requires i + 1 < |h| && heap0 == MergeRounds(h, i)
    ensures heap == MergeRounds(h, i + 1)
  {
    MergeRoundsNext(h, i);
    heap := MergeLightest(heap0);
  }

  lemma {:induction false} MergeRoundsNext(h: seq<Tree>, i: nat)
    requires i + 1 < |h|
    ensures MergeRounds(h, i + 1) == MergeOnce(MergeRounds(h, i))
  {
  }

  /** The body of the merge loop: poll two nodes, add their parent. */
  method MergeLightest(h: seq<Tree>) returns (heap: seq<Tree>)
    requires |h| >= 2
    ensures heap == MergeOnce(h)
  {
    var (node1, rest1) := Poll(h);
    var (node2, rest2) := Poll(rest1);
    var newNode := Node(node1.count + node2.count, node1, node2);
    heap := rest2 + [newNode];
  }

  /** `buildTree(counts)`: also returns the number of leaves it started from, which the
      codec stores in `nodeNum`. */
  method BuildTree(counts: array<int>) returns (root: Option<Tree>, nodeNum: int)
    requires counts.Length == 256
    ensures nodeNum == |LeafHeap(counts[..], 256)|
    ensures root == BuildTreeSpec(counts[..])
  {
    var heap := InitHeap(counts);
    nodeNum := |heap|;
    if nodeNum == 1 {
      // edge case: pair the only leaf with a dummy leaf
      var (node1, rest) := Poll(heap);
      var node2 := Leaf(0, 0);
      heap := rest + [Node(node1.count + node2.count, node1, node2)];
    }
    heap := MergeLoop(heap, nodeNum - 1);
    if heap == [] {
      root := None;
    } else {
      root := Some(Poll(heap).0);
    }
  }

  /* ---------------------------------------------------------------------------------- */
  /* What the construction preserves                                                      */

  lemma {:induction false} HeapSplit(a: seq<Tree>, b: seq<Tree>)
    ensures HeapLeaves(a + b) == HeapLeaves(a) + HeapLeaves(b)
    ensures HeapWeight(a + b) == HeapWeight(a) + HeapWeight(b)
  {
    if b == [] {
      assert a + b == a;
    } else {
      var n := |b| - 1;
      assert (a + b)[..|a + b| - 1] == a + b[..n];
      assert (a + b)[|a + b| - 1] == b[n];
      HeapSplit(a, b[..n]);
    }
  }

  /** `MinIndex` finds the first tree of least count. */
  lemma {:induction false} MinIndexLeast(h: seq<Tree>)
    requires |h| > 0
    ensures forall i :: 0 <= i < |h| ==> h[MinIndex(h)].count <= h[i].count
    ensures forall i :: 0 <= i < MinIndex(h) ==> h[MinIndex(h)].count < h[i].count
  {
    if |h| > 1 {
      var h' := h[..|h| - 1];
      MinIndexLeast(h');
      assert forall i :: 0 <= i < |h'| ==> h'[i] == h[i];
    }
  }

  /** `poll` returns a tree of least count, and the first such in heap order. */
  lemma {:induction false} PollLeast(h: seq<Tree>)
    requires |h| > 0
    ensures forall i :: 0 <= i < |h| ==> Poll(h).0.count <= h[i].count
  {
    MinIndexLeast(h);
  }

  /** Polling takes exactly one tree out of the heap. */
  lemma {:induction false} PollRemovesOne(h: seq<Tree>)
    requires |h| > 0
    ensures multiset(h) == multiset(Poll(h).1) + multiset{Poll(h).0}
  {
    var m := MinIndex(h);
    assert h == h[..m] + [h[m]] + h[m + 1..];
  }

  /** Taking the tree at position m out of a heap takes out its leaves... */
  lemma {:induction false} HeapRemoveLeaves(h: seq<Tree>, m: nat)
    requires m < |h|
    ensures HeapLeaves(h) == HeapLeaves(h[..m] + h[m + 1..]) + Leaves(h[m])
  {
    var a, b := h[..m], h[m + 1..];
    assert h == a + ([h[m]] + b);
    HeapSplit(a, [h[m]] + b);
    HeapSplit([h[m]], b);
    HeapSplit(a, b);
    assert [h[m]][..0] == [];
    assert HeapLeaves([h[m]]) == Leaves(h[m]);
  }

  /** ...and its count. */
  lemma {:induction false} HeapRemoveWeight(h: seq<Tree>, m: nat)
    requires m < |h|
    ensures HeapWeight(h) == HeapWeight(h[..m] + h[m + 1..]) + h[m].count
  {
    var a, b := h[..m], h[m + 1..];
    assert h == a + ([h[m]] + b);
    HeapSplit(a, [h[m]] + b);
    HeapSplit([h[m]], b);
    HeapSplit(a, b);
    assert [h[m]][..0] == [];
    assert HeapWeight([h[m]]) == h[m].count;
  }

  /** Polling moves the leaves of one tree out of the heap... */
  lemma {:induction false} PollLeaves(h: seq<Tree>)
    requires |h| > 0
    ensures HeapLeaves(h) == HeapLeaves(Poll(h).1) + Leaves(Poll(h).0)
  {
    HeapRemoveLeaves(h, MinIndex(h));
  }

  /** ...and its count. */
  lemma {:induction false} PollWeight(h: seq<Tree>)
    requires |h| > 0
    ensures HeapWeight(h) == HeapWeight(Poll(h).1) + Poll(h).0.count
  {
    HeapRemoveWeight(h, MinIndex(h));
  }

  /** A merge round keeps the leaves of the heap... */
  lemma {:induction false} MergeOnceLeaves(h: seq<Tree>)
    requires |h| >= 2
    ensures HeapLeaves(MergeOnce(h)) == HeapLeaves(h)
  {
    var p1 := Poll(h);
    var p2 := Poll(p1.1);
    PollLeaves(h);
    PollLeaves(p1.1);
    var r := MergeOnce(h);
    assert r[..|r| - 1] == p2.1;
  }

  /** ...and its total count. */
  lemma {:induction false} MergeOnceWeight(h: seq<Tree>)
    requires |h| >= 2
    ensures HeapWeight(MergeOnce(h)) == HeapWeight(h)
  {
    var p1 := Poll(h);
    var p2 := Poll(p1.1);
    PollWeight(h);
    PollWeight(p1.1);
    var r := MergeOnce(h);
    assert r[..|r| - 1] == p2.1;
  }

  /** Every tree in the heap is well weighted. */
  predicate AllWellWeighted(h: seq<Tree>)
  {
    forall i :: 0 <= i < |h| ==> WellWeighted(h[i])
  }

  lemma {:induction false} PollWellWeighted(h: seq<Tree>)
    requires |h| > 0 && AllWellWeighted(h)
    ensures WellWeighted(Poll(h).0) && AllWellWeighted(Poll(h).1)
  {
    var m := MinIndex(h);
    var rest := Poll(h).1;
    forall i | 0 <= i < |rest|
      ensures WellWeighted(rest[i])
    {
      if i < m {
        assert rest[i] == h[i];
      } else {
        assert rest[i] == h[i + 1];
      }
    }
  }

  /** A merge round builds only well-weighted nodes out of well-weighted trees. */
  lemma {:induction false} MergeOnceWellWeighted(h: seq<Tree>)
    requires |h| >= 2 && AllWellWeighted(h)
    ensures AllWellWeighted(MergeOnce(h))
  {
    var p1 := Poll(h);
    PollWellWeighted(h);
    PollWellWeighted(p1.1);
  }

  /** The merge rounds keep the leaves of the heap, */
  lemma {:induction false} MergeRoundsLeaves(h: seq<Tree>, k: nat)
    requires k == 0 || k < |h|
    ensures HeapLeaves(MergeRounds(h, k)) == HeapLeaves(h)
  {
    if k > 0 {
      MergeRoundsLeaves(h, k - 1);
      MergeOnceLeaves(MergeRounds(h, k - 1));
    }
  }

  /** its total count, */
  lemma {:induction false} MergeRoundsWeight(h: seq<Tree>, k: nat)
    requires k == 0 || k < |h|
    ensures HeapWeight(MergeRounds(h, k)) == HeapWeight(h)
  {
    if k > 0 {
      MergeRoundsWeight(h, k - 1);
      MergeOnceWeight(MergeRounds(h, k - 1));
    }
  }

  /** and the weights of every tree in it. */
  lemma {:induction false} MergeRoundsWellWeighted(h: seq<Tree>, k: nat)
    requires k == 0 || k < |h|
    requires AllWellWeighted(h)
    ensures AllWellWeighted(MergeRounds(h, k))
  {
    if k > 0 {
      MergeRoundsWellWeighted(h, k - 1);
      MergeOnceWellWeighted(MergeRounds(h, k - 1));
    }
  }

  /* ---------------------------------------------------------------------------------- */
  /* The initial heap                                                                     */

  /** Every value below n with a positive count has its leaf in the initial heap. */
  lemma {:induction false} LeafHeapComplete(counts: seq<int>, n: nat, v: Byte)
    requires |counts| == 256 && n <= 256 && v < n && counts[v] > 0
    ensures Leaf(v, counts[v]) in LeafHeap(counts, n)
  {
    if v < n - 1 {
      LeafHeapComplete(counts, n - 1, v);
    }
  }

  /** No positive count, no leaf. */
  lemma {:induction false} LeafHeapEmpty(counts: seq<int>, n: nat)
    requires |counts| == 256 && n <= 256
    requires forall v :: 0 <= v < n ==> counts[v] <= 0
    ensures LeafHeap(counts, n) == []
  {
    if n > 0 {
      LeafHeapEmpty(counts, n - 1);
    }
  }

  /** The leaves of a heap of leaves are its elements. */
  lemma {:induction false} HeapOfLeaves(h: seq<Tree>)
    requires forall j :: 0 <= j < |h| ==> h[j].Leaf?
    ensures HeapLeaves(h) == multiset(h)
  {
    if h != [] {
      var n := |h| - 1;
      HeapOfLeaves(h[..n]);
      assert h == h[..n] + [h[n]];
    }
  }

  /** The initial heap weighs the sum of the (non-negative) counts. */
  lemma {:induction false} LeafHeapWeight(counts: seq<int>, n: nat)
    requires |counts| == 256 && n <= 256
    requires forall v :: 0 <= v < 256 ==> counts[v] >= 0
    ensures HeapWeight(LeafHeap(counts, n)) == SumCounts(counts, n)
  {
    if n > 0 {
      LeafHeapWeight(counts, n - 1);
      if counts[n - 1] > 0 {
        var t := Leaf(n - 1, counts[n - 1]);
        HeapSplit(LeafHeap(counts, n - 1), [t]);
        SingleHeap(t);
      } else {
        assert counts[n - 1] == 0;
        assert LeafHeap(counts, n) == LeafHeap(counts, n - 1);
      }
    }
  }

  lemma {:induction false} SingleHeap(t: Tree)
    ensures HeapWeight([t]) == t.count && HeapLeaves([t]) == Leaves(t)
  {
    assert [t][..0] == [];
  }

  lemma {:induction false} OneHeap(r: seq<Tree>)
    requires |r| == 1
    ensures HeapWeight(r) == r[0].count && HeapLeaves(r) == Leaves(r[0])
    ensures AllWellWeighted(r) ==> WellWeighted(r[0])
  {
    assert r == [r[0]];
    SingleHeap(r[0]);
  }

  /** The heap built from the counts of an input holds a leaf for a byte value exactly when
      the value occurs in the input, with its number of occurrences as weight. */
  lemma {:induction false} LeafHeapBytes(input: seq<Byte>)
    ensures forall v: Byte :: v in input <==> Leaf(v, multiset(input)[v]) in LeafHeap(Counts(input), 256)
  {
    var h := LeafHeap(Counts(input), 256);
    forall v: Byte
      ensures v in input <==> Leaf(v, multiset(input)[v]) in h
    {
      if v in input {
        assert multiset(input)[v] > 0;
        LeafHeapComplete(Counts(input), 256, v);
      }
      if Leaf(v, multiset(input)[v]) in h {
        assert multiset(input)[v] > 0;
      }
    }
  }

  /* ---------------------------------------------------------------------------------- */
  /* The root                                                                             */

  /** A non-empty input gives a tree, in both constructions, whose root weighs the length of
      the input and whose nodes each weigh the sum of their children. */
  lemma {:induction false} RootWeight(input: seq<Byte>)
    requires |input| > 0
    ensures BuildTreeSpec(Counts(input)).Some? && DraftTreeSpec(Counts(input)).Some?
    ensures BuildTreeSpec(Counts(input)).value.count == |input|
    ensures DraftTreeSpec(Counts(input)).value.count == |input|
    ensures WellWeighted(BuildTreeSpec(Counts(input)).value)
    ensures WellWeighted(DraftTreeSpec(Counts(input)).value)
  {
    var h := LeafHeap(Counts(input), 256);
    HeapFacts(input);
    MergedWeight(h);
    MergedWellWeighted(h);
  }

  /** The tree the merge rounds leave weighs the whole heap... */
  lemma {:induction false} MergedWeight(h: seq<Tree>)
    requires |h| > 0
    ensures MergeRounds(h, |h| - 1)[0].count == HeapWeight(h)
  {
    MergeRoundsWeight(h, |h| - 1);
    OneHeap(MergeRounds(h, |h| - 1));
  }

  /** ...holds the leaves of the heap... */
  lemma {:induction false} MergedLeaves(h: seq<Tree>)
    requires |h| > 0
    ensures Leaves(MergeRounds(h, |h| - 1)[0]) == HeapLeaves(h)
  {
    MergeRoundsLeaves(h, |h| - 1);
    OneHeap(MergeRounds(h, |h| - 1));
  }

  /** ...and has well-weighted nodes. */
  lemma {:induction false} MergedWellWeighted(h: seq<Tree>)
    requires |h| > 0 && AllWellWeighted(h)
    ensures WellWeighted(MergeRounds(h, |h| - 1)[0])
  {
    MergeRoundsWellWeighted(h, |h| - 1);
  }

  /** The initial heap of a non-empty input is a non-empty heap of leaves weighing the
      length of the input. */
  lemma {:induction false} HeapFacts(input: seq<Byte>)
    requires |input| > 0
    ensures |LeafHeap(Counts(input), 256)| > 0
    ensures HeapWeight(LeafHeap(Counts(input), 256)) == |input|
    ensures AllWellWeighted(LeafHeap(Counts(input), 256))
  {
    var counts := Counts(input);
    CountsBounds(input);
    LeafHeapComplete(counts, 256, input[0]);
    LeafHeapWeight(counts, 256);
    CountsSum(input);
  }
}
