/** The codes of a Huffman tree and the coded body: the stack traversal that gives every
    leaf the bits of its root-to-leaf path (left = 0, right = 1) and writes the leaf
    records, the LSB-first packing of the codes of the input, and the tree walk that
    decodes them. */
module HuffmanCodes {
  import opened Results
  import opened Bytes
  import opened BitPacking
  import opened HuffmanTree

  /** A leaf as the traversal reaches it: its byte, its count and its code. */
  datatype Coded = Coded(b: Byte, count: int, code: seq<Bit>)

  /** The leaves of t in the order the traversal pops them (preorder, left subtree first),
      each with its path from t appended to `prefix`. */
  function LeafCodes(t: Tree, prefix: seq<Bit>): seq<Coded>
  {
    match t
    case Leaf(b, count) => [Coded(b, count, prefix)]
    case Node(_, left, right) => LeafCodes(left, prefix + [0]) + LeafCodes(right, prefix + [1])
  }

  /** The leaf a coded entry stands for. */
  function LeafOf(c: Coded): Tree
  {
    Leaf(c.b, c.count)
  }

  function LeafTrees(cs: seq<Coded>): (r: seq<Tree>)
    ensures |r| == |cs| && forall i :: 0 <= i < |cs| ==> r[i] == LeafOf(cs[i])
  {
    if cs == [] then [] else [LeafOf(cs[0])] + LeafTrees(cs[1..])
  }

  function Size(t: Tree): nat
  {
    match t
    case Leaf(_, _) => 1
    case Node(_, left, right) => 1 + Size(left) + Size(right)
  }

  /** The leaves still to be visited for a traversal stack whose top is its last element. */
  function Pending(stack: seq<(Tree, seq<Bit>)>): seq<Coded>
  {
    if stack == [] then []
    else
      var top := stack[|stack| - 1];
      LeafCodes(top.0, top.1) + Pending(stack[..|stack| - 1])
  }

  function StackSize(stack: seq<(Tree, seq<Bit>)>): nat
  {
    if stack == [] then 0 else StackSize(stack[..|stack| - 1]) + Size(stack[|stack| - 1].0)
  }

  /** Every count fits the Java `int` the record stores it in. */
  predicate CountsFit(cs: seq<Coded>)
  {
    forall i :: 0 <= i < |cs| ==> IsInt32(cs[i].count)
  }

  /** The 5-byte leaf record: the byte, then the count as a big-endian int. */
  function Record(c: Coded): (r: seq<Byte>)
    requires IsInt32(c.count)
    ensures |r| == 5 && r[0] == c.b && r[1..] == PutInt(c.count)
  {
    [c.b] + PutInt(c.count)
  }

  /** The records of the visited leaves, in visiting order. */
  function RecordBytes(cs: seq<Coded>): (r: seq<Byte>)
    requires CountsFit(cs)
    ensures |r| == 5 * |cs|
  {
    if cs == [] then [] else RecordBytes(cs[..|cs| - 1]) + Record(cs[|cs| - 1])
  }

  /** The `HashMap` from byte to code after the traversal: a later leaf with the same byte
      replaces an earlier one. */
  function CodeTable(cs: seq<Coded>): map<Byte, seq<Bit>>
  {
    if cs == [] then map[]
    else
      var c := cs[|cs| - 1];
      CodeTable(cs[..|cs| - 1])[c.b := c.code]
  }

  /* ---------------------------------------------------------------------------------- */
  /* The traversal                                                                        */

  /** The stack traversal of `compress`: pops a node, writes its record and enters it in
      the table when it is a leaf, and otherwise pushes the right child (code + [1]) and
      then the left child (code + [0]), so that the left subtree is visited first. */
  method AssignCodes(root: Tree) returns (records: seq<Byte>, table: map<Byte, seq<Bit>>)
    requires CountsFit(LeafCodes(root, []))
    ensures records == RecordBytes(LeafCodes(root, []))
    ensures table == CodeTable(LeafCodes(root, []))
  {
    var stack: seq<(Tree, seq<Bit>)> := [(root, [])];
    ghost var visited: seq<Coded> := [];
    records := [];
    table := map[];
    assert Pending(stack) == LeafCodes(root, []) + Pending([]);
    while stack != []
      invariant visited + Pending(stack) == LeafCodes(root, [])
      invariant CountsFit(visited)
      invariant records == RecordBytes(visited) && table == CodeTable(visited)
      decreases StackSize(stack)
    {
      var top := stack[|stack| - 1];
      var rest := stack[..|stack| - 1];
      match top.0
      case Leaf(b, count) =>
        var c := Coded(b, count, top.1);
        PopLeaf(LeafCodes(root, []), visited, stack);
        VisitLeaf(visited, c);
        records := records + Record(c);
        table := table[b := top.1];
        visited := visited + [c];
        stack := rest;
      case Node(_, left, right) =>
        PushChildren(stack);
        stack := rest + [(right, top.1 + [1]), (left, top.1 + [0])];
    }
    assert visited + Pending(stack) == visited;
  }

  /** Popping a leaf visits it: the leaf is the next entry of the traversal order. */
  lemma {:induction false} PopLeaf(all: seq<Coded>, visited: seq<Coded>, stack: seq<(Tree, seq<Bit>)>)
    requires stack != [] && stack[|stack| - 1].0.Leaf?
    requires visited + Pending(stack) == all && CountsFit(all)
    ensures var top := stack[|stack| - 1];
      var c := Coded(top.0.b, top.0.count, top.1);
      && (visited + [c]) + Pending(stack[..|stack| - 1]) == all
      && IsInt32(c.count)
      && StackSize(stack[..|stack| - 1]) < StackSize(stack)
  {
    var top := stack[|stack| - 1];
    var c := Coded(top.0.b, top.0.count, top.1);
    var rest := stack[..|stack| - 1];
    assert Pending(stack) == [c] + Pending(rest);
    assert all == (visited + [c]) + Pending(rest);
    assert all[|visited|] == c;
  }

  /** A visited leaf's record follows the records before it, and its code replaces any
      earlier code of its byte. */
  lemma {:induction false} VisitLeaf(cs: seq<Coded>, c: Coded)
    requires CountsFit(cs) && IsInt32(c.count)
    ensures CountsFit(cs + [c])
    ensures RecordBytes(cs + [c]) == RecordBytes(cs) + Record(c)
    ensures CodeTable(cs + [c]) == CodeTable(cs)[c.b := c.code]
  {
    assert (cs + [c])[..|cs|] == cs;
  }

  /** Popping a node and pushing its right, then its left child leaves the same leaves to
      visit, left subtree first, and a smaller stack. */
  lemma {:induction false} PushChildren(stack: seq<(Tree, seq<Bit>)>)
    requires stack != [] && stack[|stack| - 1].0.Node?
    ensures var top := stack[|stack| - 1];
      var rest := stack[..|stack| - 1];
      var pushed := rest + [(top.0.right, top.1 + [1]), (top.0.left, top.1 + [0])];
      && Pending(pushed) == Pending(stack)
      && StackSize(pushed) < StackSize(stack)
  {
    var top := stack[|stack| - 1];
    var rest := stack[..|stack| - 1];
    var next := rest + [(top.0.right, top.1 + [1])];
    var pushed := next + [(top.0.left, top.1 + [0])];
    assert rest + [(top.0.right, top.1 + [1]), (top.0.left, top.1 + [0])] == pushed;
    assert next[..|next| - 1] == rest;
    assert pushed[..|pushed| - 1] == next;
    assert Pending(pushed) == LeafCodes(top.0.left, top.1 + [0]) + (LeafCodes(top.0.right, top.1 + [1]) + Pending(rest));
  }

  /* ---------------------------------------------------------------------------------- */
  /* What the codes are                                                                   */

  /** Every code below a prefix extends it; below a node it extends it by at least one bit,
      and the first extra bit is 0 in the left subtree and 1 in the right one. */
  lemma {:induction false} CodesExtend(t: Tree, p: seq<Bit>)
    ensures forall i :: 0 <= i < |LeafCodes(t, p)| ==> p <= LeafCodes(t, p)[i].code
    ensures t.Node? ==> forall i :: 0 <= i < |LeafCodes(t, p)| ==> |LeafCodes(t, p)[i].code| > |p|
    ensures t.Node? ==> forall i :: 0 <= i < |LeafCodes(t.left, p + [0])| ==> LeafCodes(t, p)[i].code[|p|] == 0
    ensures t.Node? ==> forall i :: |LeafCodes(t.left, p + [0])| <= i < |LeafCodes(t, p)| ==> LeafCodes(t, p)[i].code[|p|] == 1
  {
    match t
    case Leaf(_, _) =>
    case Node(_, left, right) =>
      var cs := LeafCodes(t, p);
      var ls := LeafCodes(left, p + [0]);
      var rs := LeafCodes(right, p + [1]);
      CodesExtend(left, p + [0]);
      CodesExtend(right, p + [1]);
      forall i | 0 <= i < |cs|
        ensures p + [if i < |ls| then 0 else 1] <= cs[i].code
      {
        if i < |ls| {
          assert cs[i] == ls[i];
        } else {
          assert cs[i] == rs[i - |ls|];
        }
      }
  }

  /** The codes are prefix-free: no leaf's code is a prefix of another leaf's code. */
  lemma {:induction false} CodesPrefixFree(t: Tree, p: seq<Bit>)
    ensures forall i, j :: 0 <= i < |LeafCodes(t, p)| && 0 <= j < |LeafCodes(t, p)| && i != j ==>
      !(LeafCodes(t, p)[i].code <= LeafCodes(t, p)[j].code)
  {
    match t
    case Leaf(_, _) =>
    case Node(_, left, right) =>
      var cs := LeafCodes(t, p);
      var ls := LeafCodes(left, p + [0]);
      var rs := LeafCodes(right, p + [1]);
      CodesExtend(t, p);
      CodesPrefixFree(left, p + [0]);
      CodesPrefixFree(right, p + [1]);
      forall i, j | 0 <= i < |cs| && 0 <= j < |cs| && i != j
        ensures !(cs[i].code <= cs[j].code)
      {
        if i < |ls| && j < |ls| {
          assert cs[i] == ls[i] && cs[j] == ls[j];
        } else if i >= |ls| && j >= |ls| {
          assert cs[i] == rs[i - |ls|] && cs[j] == rs[j - |ls|];
        } else {
          assert cs[i].code[|p|] != cs[j].code[|p|];
        }
      }
  }

  /** The traversal visits exactly the leaves of the tree. */
  lemma {:induction false} LeafCodesLeaves(t: Tree, p: seq<Bit>)
    ensures multiset(LeafTrees(LeafCodes(t, p))) == Leaves(t)
  {
    match t
    case Leaf(_, _) =>
    case Node(_, left, right) =>
      LeafCodesLeaves(left, p + [0]);
      LeafCodesLeaves(right, p + [1]);
      LeafTreesAppend(LeafCodes(left, p + [0]), LeafCodes(right, p + [1]));
  }

  lemma {:induction false} LeafTreesAppend(a: seq<Coded>, b: seq<Coded>)
    ensures LeafTrees(a + b) == LeafTrees(a) + LeafTrees(b)
  {
  }

  /** A byte is in the table exactly when some visited leaf carries it, and then its code is
      the code of such a leaf (the last one visited). */
  lemma {:induction false} CodeTableKeys(cs: seq<Coded>, v: Byte)
    ensures v in CodeTable(cs) <==> exists i :: 0 <= i < |cs| && cs[i].b == v
    ensures v in CodeTable(cs) ==>
      exists i :: 0 <= i < |cs| && cs[i].b == v && cs[i].code == CodeTable(cs)[v]
  {
    if cs != [] {
      var n := |cs| - 1;
      CodeTableKeys(cs[..n], v);
      if v in CodeTable(cs[..n]) {
        var i :| 0 <= i < n && cs[..n][i].b == v && cs[..n][i].code == CodeTable(cs[..n])[v];
        assert cs[i] == cs[..n][i];
      }
      if exists i :: 0 <= i < |cs| && cs[i].b == v {
        var i :| 0 <= i < |cs| && cs[i].b == v;
        if i < n {
          assert cs[..n][i] == cs[i];
        }
      }
    }
  }

  /* ---------------------------------------------------------------------------------- */
  /* Decoding                                                                             */

  /** The tracer walk of `decompress`: from t, read bit `pos` of the body, go left on 0 and
      right on 1, until a leaf. Returns the leaf's byte and the position after the walk. */
  function Walk(t: Tree, body: seq<Byte>, pos: nat): (r: (Byte, nat))
    ensures r.1 >= pos
  {
    match t
    case Leaf(b, _) => (b, pos)
    case Node(_, left, right) =>
      if BitAt(body, pos) == 0 then Walk(left, body, pos + 1) else Walk(right, body, pos + 1)
  }

  /** The first n bytes decoded from the start of the stream, the tracer reset to the root
      after each, and the bit position after them. */
  function DecodeSymbols(root: Tree, body: seq<Byte>, n: nat): (r: (seq<Byte>, nat))
    ensures |r.0| == n
  {
    if n == 0 then ([], 0)
    else
      var prev := DecodeSymbols(root, body, n - 1);
      var w := Walk(root, body, prev.1);
      (prev.0 + [w.0], w.1)
  }

  /** The byte of the leaf a code leads to from t, when the code ends exactly at a leaf. */
  function Follow(t: Tree, code: seq<Bit>): Option<Byte>
  {
    match t
    case Leaf(b, _) => if code == [] then Some(b) else None
    case Node(_, left, right) =>
      if code == [] then None
      else if code[0] == 0 then Follow(left, code[1..])
      else Follow(right, code[1..])
  }

  /** A leaf's code is its path: after the prefix, its bits lead from t to that leaf. */
  lemma {:induction false} LeafCodeFollows(t: Tree, p: seq<Bit>, i: nat)
    requires i < |LeafCodes(t, p)|
    ensures p <= LeafCodes(t, p)[i].code
    ensures Follow(t, LeafCodes(t, p)[i].code[|p|..]) == Some(LeafCodes(t, p)[i].b)
  {
    match t
    case Leaf(_, _) =>
    case Node(_, left, right) =>
      var cs := LeafCodes(t, p);
      var ls := LeafCodes(left, p + [0]);
      var rs := LeafCodes(right, p + [1]);
      var code := cs[i].code;
      if i < |ls| {
        assert cs[i] == ls[i];
        LeafCodeFollows(left, p + [0], i);
      } else {
        assert cs[i] == rs[i - |ls|];
        LeafCodeFollows(right, p + [1], i - |ls|);
      }
      assert code[|p|] == (if i < |ls| then 0 else 1);
      assert code[|p|..][1..] == code[|p| + 1..];
  }

  /** Walking a stream whose next bits are a code that leads to a leaf stops at that leaf,
      right after the code: the code's length is the leaf's depth. */
  lemma {:induction false} WalkFollow(t: Tree, code: seq<Bit>, body: seq<Byte>, pos: nat)
    requires Follow(t, code).Some?
    requires forall k :: 0 <= k < |code| ==> BitAt(body, pos + k) == code[k]
    ensures Walk(t, body, pos) == (Follow(t, code).value, pos + |code|)
  {
    match t
    case Leaf(_, _) =>
    case Node(_, left, right) =>
      assert BitAt(body, pos) == code[0];
      forall k | 0 <= k < |code| - 1
        ensures BitAt(body, pos + 1 + k) == code[1..][k]
      {
        assert BitAt(body, pos + (k + 1)) == code[k + 1];
      }
      if code[0] == 0 {
        WalkFollow(left, code[1..], body, pos + 1);
      } else {
        WalkFollow(right, code[1..], body, pos + 1);
      }
  }

  /** Every code in the table leads from the root to a leaf of its own byte. */
  predicate TableLeads(root: Tree, table: map<Byte, seq<Bit>>)
  {
    forall v :: v in table ==> Follow(root, table[v]) == Some(v)
  }

  /** The table the traversal builds maps every byte to a code that leads to a leaf of that
      byte, even where a later leaf of the same byte replaced an earlier one. */
  lemma {:induction false} CodeTableLeads(root: Tree)
    ensures TableLeads(root, CodeTable(LeafCodes(root, [])))
  {
    var cs := LeafCodes(root, []);
    forall v | v in CodeTable(cs)
      ensures Follow(root, CodeTable(cs)[v]) == Some(v)
    {
      CodeTableKeys(cs, v);
      var m :| 0 <= m < |cs| && cs[m].b == v && cs[m].code == CodeTable(cs)[v];
      LeafCodeFollows(root, [], m);
      assert cs[m].code[0..] == cs[m].code;
    }
  }

  /** The decoding loop of `decompress`: `crtByte` holds byte `byteNo` of the body and
      `index` the next bit in it; a new byte is read once eight bits are used. Returns the
      `fileSize` bytes decoded (none when `fileSize` is not positive). */
  method DecodeBody(root: Tree, body: seq<Byte>, fileSize: int) returns (out: seq<Byte>)
    ensures fileSize <= 0 ==> out == []
    ensures fileSize > 0 ==> out == DecodeSymbols(root, body, fileSize).0
  {
    var crtSize := 0;
    var index := 0;
    var byteNo := 0;
    var crtByte := ByteAt(body, 0);
    var tracer := root;
    out := [];
    ghost var pos: nat := 0;
    while crtSize < fileSize
      invariant 0 <= crtSize && (crtSize <= fileSize || crtSize == 0)
      invariant 0 <= index < 8 && crtByte == ByteAt(body, byteNo)
      invariant pos == 8 * byteNo + index && tracer == root
      invariant (out, pos) == DecodeSymbols(root, body, crtSize)
      decreases fileSize - crtSize
    {
      ghost var w := Walk(root, body, pos);
      while tracer.Node?
        invariant 0 <= index < 8 && crtByte == ByteAt(body, byteNo) && pos == 8 * byteNo + index
        invariant Walk(tracer, body, pos) == w
        decreases tracer
      {
        WalkStep(tracer, body, byteNo, index);
        if BitOf(crtByte, index) == 0 {
          tracer := tracer.left;
        } else {
          tracer := tracer.right;
        }
        pos := pos + 1;
        index := index + 1;
        if index == 8 {
          byteNo := byteNo + 1;
          crtByte := ByteAt(body, byteNo);
          index := 0;
        }
      }
      out := out + [tracer.b];
      tracer := root;
      crtSize := crtSize + 1;
    }
  }

  /** One step of the tracer: bit `index` of byte `byteNo` is the stream's bit
      8 * byteNo + index, and it chooses the child the walk continues from. */
  lemma {:induction false} WalkStep(t: Tree, body: seq<Byte>, byteNo: nat, index: nat)
    requires t.Node? && index < 8
    ensures Walk(t, body, 8 * byteNo + index)
         == Walk(if BitOf(ByteAt(body, byteNo), index) == 0 then t.left else t.right, body, 8 * byteNo + index + 1)
  {
    assert (8 * byteNo + index) / 8 == byteNo;
    assert (8 * byteNo + index) % 8 == index;
  }

  /* ---------------------------------------------------------------------------------- */
  /* Encoding                                                                             */

  /** The bits the encoder emits for s: the codes of its bytes, one after the other. */
  function EncodeBits(s: seq<Byte>, table: map<Byte, seq<Bit>>): seq<Bit>
    requires forall i :: 0 <= i < |s| ==> s[i] in table
  {
    if s == [] then [] else EncodeBits(s[..|s| - 1], table) + table[s[|s| - 1]]
  }

  /** The encoding loop of `compress`: every code bit is ORed into `crt` at `byteIndex`
      (a free position, so the OR is an addition), a full byte is written and `crt` reset,
      and the last byte is always written, even when empty. */
  method EncodeBody(input: seq<Byte>, table: map<Byte, seq<Bit>>) returns (out: seq<Byte>)
    requires forall i :: 0 <= i < |input| ==> input[i] in table
    ensures out == Packed(EncodeBits(input, table))
  {
    out := [];
    var crt: Byte := 0;
    var byteIndex := 0;
    for i := 0 to |input|
      invariant out + [crt] == Packed(EncodeBits(input[..i], table))
      invariant byteIndex == |EncodeBits(input[..i], table)| % 8
    {
      var code := table[input[i]];
      out, crt, byteIndex := Accumulate(out, crt, byteIndex, EncodeBits(input[..i], table), code);
      EncodeBitsStep(input, table, i);
    }
    assert input[..|input|] == input;
    out := out + [crt];
  }

  /** The bits emitted for a prefix of s begin the bits emitted for s. */
  lemma {:induction false} EncodeBitsPrefix(s: seq<Byte>, table: map<Byte, seq<Bit>>, j: nat)
    requires forall i :: 0 <= i < |s| ==> s[i] in table
    requires j <= |s|
    ensures EncodeBits(s[..j], table) <= EncodeBits(s, table)
    decreases |s| - j
  {
    if j < |s| {
      var n := |s| - 1;
      assert s[..j] == s[..n][..j];
      EncodeBitsPrefix(s[..n], table, j);
    } else {
      assert s[..j] == s;
    }
  }

  /** The bits for one more byte are that byte's code, after the bits before it. */
  lemma {:induction false} EncodeBitsStep(s: seq<Byte>, table: map<Byte, seq<Bit>>, j: nat)
    requires forall i :: 0 <= i < |s| ==> s[i] in table
    requires j < |s|
    ensures EncodeBits(s[..j + 1], table) == EncodeBits(s[..j], table) + table[s[j]]
    ensures EncodeBits(s[..j + 1], table) <= EncodeBits(s, table)
  {
    assert s[..j + 1][..j] == s[..j];
    EncodeBitsPrefix(s, table, j + 1);
  }

  /** Decoding the first j bytes of a stream that carries the encoder's bits for s gives
      back the first j bytes of s, and stops right after their codes. */
  lemma {:induction false} DecodePrefix(root: Tree, table: map<Byte, seq<Bit>>, s: seq<Byte>, body: seq<Byte>, j: nat)
    requires TableLeads(root, table)
    requires forall i :: 0 <= i < |s| ==> s[i] in table
    requires forall k :: 0 <= k < |EncodeBits(s, table)| ==> BitAt(body, k) == EncodeBits(s, table)[k]
    requires j <= |s|
    ensures DecodeSymbols(root, body, j) == (s[..j], |EncodeBits(s[..j], table)|)
  {
    if j == 0 {
      assert s[..0] == [];
    } else {
      DecodePrefix(root, table, s, body, j - 1);
      DecodeOne(root, table, s, body, j - 1);
      SliceSnoc(s, j - 1);
    }
  }

  lemma {:induction false} SliceSnoc(s: seq<Byte>, j: nat)
    requires j < |s|
    ensures s[..j + 1] == s[..j] + [s[j]]
  {
  }

  /** The walk from the position after the codes of the first j bytes decodes byte j and
      stops right after its code. */
  lemma {:induction false} DecodeOne(root: Tree, table: map<Byte, seq<Bit>>, s: seq<Byte>, body: seq<Byte>, j: nat)
    requires TableLeads(root, table)
    requires forall i :: 0 <= i < |s| ==> s[i] in table
    requires forall k :: 0 <= k < |EncodeBits(s, table)| ==> BitAt(body, k) == EncodeBits(s, table)[k]
    requires j < |s|
    ensures Walk(root, body, |EncodeBits(s[..j], table)|) == (s[j], |EncodeBits(s[..j + 1], table)|)
  {
    var bits := EncodeBits(s, table);
    var before := EncodeBits(s[..j], table);
    var code := table[s[j]];
    EncodeBitsStep(s, table, j);
    forall k | 0 <= k < |code|
      ensures BitAt(body, |before| + k) == code[k]
    {
      assert bits[|before| + k] == (before + code)[|before| + k];
    }
    WalkFollow(root, code, body, |before|);
  }

  /** Decoding inverts encoding: when every code of the table leads to a leaf of its byte,
      walking the tree |s| times over the packed codes of s yields s. */
  lemma {:induction false} DecodeInvertsEncode(root: Tree, table: map<Byte, seq<Bit>>, s: seq<Byte>)
    requires TableLeads(root, table)
    requires forall i :: 0 <= i < |s| ==> s[i] in table
    ensures DecodeSymbols(root, Packed(EncodeBits(s, table)), |s|).0 == s
  {
    var bits := EncodeBits(s, table);
    forall k | 0 <= k < |bits|
      ensures BitAt(Packed(bits), k) == bits[k]
    {
      PackedBitAt(bits, k);
    }
    DecodePrefix(root, table, s, Packed(bits), |s|);
    assert s[..|s|] == s;
  }
}
