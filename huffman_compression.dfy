/** The compressor: counts the characters of the input, builds the Huffman
    tree by repeatedly merging the two lightest nodes of a priority queue,
    derives the code table from the tree, and writes a 32-bit length
    header followed by the code bits of every character through a bit
    output stream. The input file is the sequence of lines a line reader
    returns; the output file is the byte sequence the stream writes. */
module HuffmanCompression {
  import opened JavaInt
  import opened Bits
  import opened HuffmanNode
  import opened HuffmanTree
  import opened Frequency
  import opened Header
  import opened PriorityQueue
  import opened BitOutput

  /** A mutable character buffer (java.lang.StringBuilder). */
  class StringBuilder {
    var chars: string

    constructor ()
      ensures chars == []
    {
      chars := [];
    }

    method Append(ch: char)
      modifies this
      ensures chars == old(chars) + [ch]
    {
      chars := chars + [ch];
    }

    /** Removes the character at index; the source's callers never pass an
        index outside the buffer (Java would throw). */
    method DeleteCharAt(index: int)
      requires 0 <= index < |chars|
      modifies this
      ensures chars == old(chars)[..index] + old(chars)[index + 1..]
    {
      chars := chars[..index] + chars[index + 1..];
    }

    function Length(): (n: int)
      reads this
      ensures n == |chars|
    {
      |chars|
    }

    function ToString(): (s: string)
      reads this
      ensures s == chars
    {
      chars
    }
  }

  // ---------------------------------------------------------------------
  // The queue's contents, seen as a forest of trees

  /** The total frequency of the trees. */
  function Weight(q: seq<Node>): int
  {
    if q == [] then 0 else q[0].f + Weight(q[1..])
  }

  /** The childless nodes of all the trees. */
  function ForestLeaves(q: seq<Node>): multiset<Node>
  {
    if q == [] then multiset{} else Leaves(q[0]) + ForestLeaves(q[1..])
  }

  /** The number of merged nodes in all the trees. */
  function ForestInternals(q: seq<Node>): nat
  {
    if q == [] then 0 else Internals(q[0]) + ForestInternals(q[1..])
  }

  predicate AllWellFormed(q: seq<Node>)
  {
    forall n :: n in q ==> WellFormed(n)
  }

  /** The three measures add up over a concatenation. */
  lemma {:induction false} ForestAppend(a: seq<Node>, b: seq<Node>)
    ensures Weight(a + b) == Weight(a) + Weight(b)
    ensures ForestLeaves(a + b) == ForestLeaves(a) + ForestLeaves(b)
    ensures ForestInternals(a + b) == ForestInternals(a) + ForestInternals(b)
  {
    if a == [] {
      assert a + b == b;
    } else {
      assert (a + b)[1..] == a[1..] + b;
      ForestAppend(a[1..], b);
    }
  }

  /** Taking one tree out of the queue takes out its share of each measure. */
  lemma ForestRemove(q: seq<Node>, i: int)
    requires 0 <= i < |q|
    ensures Weight(q) == Weight(Without(q, i)) + q[i].f
    ensures ForestLeaves(q) == ForestLeaves(Without(q, i)) + Leaves(q[i])
    ensures ForestInternals(q) == ForestInternals(Without(q, i)) + Internals(q[i])
  {
    WeightRemove(q, i);
    LeavesRemove(q, i);
    InternalsRemove(q, i);
  }

  /** Taking out a later tree keeps the first one in front. */
  lemma WithoutFirst(q: seq<Node>, i: int)
    requires 0 <= i < |q|
    ensures i == 0 ==> Without(q, i) == q[1..]
    ensures i > 0 ==> Without(q, i) == [q[0]] + Without(q[1..], i - 1)
  {
    if i > 0 {
      assert Without(q, i) == [q[0]] + Without(q[1..], i - 1);
    }
  }

  lemma {:induction false} WeightRemove(q: seq<Node>, i: int)
    requires 0 <= i < |q|
    ensures Weight(q) == Weight(Without(q, i)) + q[i].f
  {
    WithoutFirst(q, i);
    if i > 0 {
      WeightRemove(q[1..], i - 1);
      assert ([q[0]] + Without(q[1..], i - 1))[1..] == Without(q[1..], i - 1);
    }
  }

  lemma {:induction false} LeavesRemove(q: seq<Node>, i: int)
    requires 0 <= i < |q|
    ensures ForestLeaves(q) == ForestLeaves(Without(q, i)) + Leaves(q[i])
  {
    WithoutFirst(q, i);
    if i > 0 {
      LeavesRemove(q[1..], i - 1);
      assert ([q[0]] + Without(q[1..], i - 1))[1..] == Without(q[1..], i - 1);
    }
  }

  lemma {:induction false} InternalsRemove(q: seq<Node>, i: int)
    requires 0 <= i < |q|
    ensures ForestInternals(q) == ForestInternals(Without(q, i)) + Internals(q[i])
  {
    WithoutFirst(q, i);
    if i > 0 {
      InternalsRemove(q[1..], i - 1);
      assert ([q[0]] + Without(q[1..], i - 1))[1..] == Without(q[1..], i - 1);
    }
  }

  /** A queue of one tree measures that tree. */
  lemma ForestSingle(n: Node)
    ensures Weight([n]) == n.f && ForestLeaves([n]) == Leaves(n) && ForestInternals([n]) == Internals(n)
  {
    assert [n][1..] == [];
  }

  /** A queue of childless nodes is its own set of leaves. */
  lemma {:induction false} ForestOfLeaves(q: seq<Node>)
    requires forall i :: 0 <= i < |q| ==> Childless(q[i])
    ensures ForestLeaves(q) == multiset(q)
    ensures ForestInternals(q) == 0
  {
    if q != [] {
      ForestOfLeaves(q[1..]);
      assert q == [q[0]] + q[1..];
    }
  }

  /** The node the builder makes over two polled nodes with the
      four-argument constructor: the sentinel, the Java int sum of their
      frequencies, the first polled on the left. */
  function MergedNode(l: Node, r: Node): (n: Node)
    ensures n.c == Sentinel && n.f == Wrap32(l.f + r.f) && n.left == Some(l) && n.right == Some(r)
  {
    MakeNode(Sentinel, Wrap32(l.f + r.f), Some(l), Some(r))
  }

  /** The queue after one round: the nodes at i, then at j of what is
      left, taken out, and their merged node added. */
  function Merged(before: seq<Node>, i: int, j: int): (after: seq<Node>)
    requires 0 <= i < |before| && 0 <= j < |before| - 1
    ensures |after| == |before| - 1
  {
    Without(Without(before, i), j) + [MergedNode(before[i], Without(before, i)[j])]
  }

  /** One round of the builder, polling first a node of least frequency and
      then a node of least frequency among the rest, keeps the leaves and
      the total weight (modulo 2^32), trades two trees for one merged node,
      and merges well-formed trees into a well-formed one. */
  lemma MergeStep(before: seq<Node>, i: int, j: int)
    requires IsMinAt(before, i)
    requires IsMinAt(Without(before, i), j)
    ensures Wrap32(Weight(Merged(before, i, j))) == Wrap32(Weight(before))
    ensures ForestLeaves(Merged(before, i, j)) == ForestLeaves(before)
    ensures ForestInternals(Merged(before, i, j)) == ForestInternals(before) + 1
    ensures AllWellFormed(before) ==> AllWellFormed(Merged(before, i, j))
  {
    assert Wrap32(Weight(Merged(before, i, j))) == Wrap32(Weight(before)) by {
      var r := Without(before, i)[j];
      MergeKeepsWeight(before, i, j);
      MergeWeight(before[i].f, r.f, MergedNode(before[i], r).f, Weight(Merged(before, i, j)), Weight(before));
    }
    MergeKeepsLeaves(before, i, j);
    MergeCountsNodes(before, i, j);
    if AllWellFormed(before) {
      MergeWellFormed(before, i, j);
    }
  }

  /** The weight after a round differs from the weight before only by
      the merged node's Java int sum standing for the true sum. */
  lemma MergeKeepsWeight(before: seq<Node>, i: int, j: int)
    requires 0 <= i < |before| && 0 <= j < |before| - 1
    ensures var r := Without(before, i)[j];
            Weight(Merged(before, i, j)) + before[i].f + r.f == Weight(before) + MergedNode(before[i], r).f
  {
    var mid := Without(before, i);
    WeightRemove(before, i);
    WeightRemove(mid, j);
    WeightAddOne(Without(mid, j), MergedNode(before[i], mid[j]));
  }

  /** Adding a tree at the end adds its frequency. */
  lemma WeightAddOne(q: seq<Node>, n: Node)
    ensures Weight(q + [n]) == Weight(q) + n.f
  {
    ForestAppend(q, [n]);
    ForestSingle(n);
  }

  /** The merged node's Java int sum agrees with the true sum modulo 2^32. */
  lemma MergeWeight(a: int, b: int, f: int, merged: int, total: int)
    requires f == Wrap32(a + b) && merged + a + b == total + f
    ensures Wrap32(merged) == Wrap32(total)
  {
    Wrap32Inner(a + b, total - a - b);
  }

  lemma MergeKeepsLeaves(before: seq<Node>, i: int, j: int)
    requires 0 <= i < |before| && 0 <= j < |before| - 1
    ensures ForestLeaves(Merged(before, i, j)) == ForestLeaves(before)
  {
    var mid := Without(before, i);
    var rest := Without(mid, j);
    var node := MergedNode(before[i], mid[j]);
    ForestRemove(before, i);
    ForestRemove(mid, j);
    ForestAppend(rest, [node]);
    ForestSingle(node);
  }

  lemma MergeCountsNodes(before: seq<Node>, i: int, j: int)
    requires 0 <= i < |before| && 0 <= j < |before| - 1
    ensures ForestInternals(Merged(before, i, j)) == ForestInternals(before) + 1
  {
    var mid := Without(before, i);
    var rest := Without(mid, j);
    var node := MergedNode(before[i], mid[j]);
    ForestRemove(before, i);
    ForestRemove(mid, j);
    ForestAppend(rest, [node]);
    ForestSingle(node);
    assert Internals(node) == 1 + Internals(before[i]) + Internals(mid[j]);
  }

  /** The second node polled was in the queue before the first poll, so it
      is no lighter than the first. */
  lemma SecondIsFromQueue(before: seq<Node>, i: int, j: int)
    requires IsMinAt(before, i)
    requires 0 <= j < |before| - 1
    ensures Without(before, i)[j] in before
    ensures before[i].f <= Without(before, i)[j].f
  {
    var r := Without(before, i)[j];
    if j < i {
      assert r == before[j];
    } else {
      assert r == before[j + 1];
    }
  }

  lemma MergeWellFormed(before: seq<Node>, i: int, j: int)
    requires IsMinAt(before, i) && 0 <= j < |before| - 1
    requires AllWellFormed(before)
    ensures AllWellFormed(Merged(before, i, j))
  {
    var mid := Without(before, i);
    var node := MergedNode(before[i], mid[j]);
    SecondIsFromQueue(before, i, j);
    forall n | n in Merged(before, i, j)
      ensures WellFormed(n)
    {
      if n != node {
        assert n in mid;
      }
    }
  }

  /** r is a root the builder can reach from the queue q: q holds r alone,
      or q has two or more trees and r is reached from the queue left by
      merging a node of least frequency with a node of least frequency
      among the rest (whichever ones the queue's tie-break picks). */
  ghost predicate HuffmanRun(q: seq<Node>, r: Node)
    decreases |q|
  {
    || q == [r]
    || (&& |q| >= 2
        && exists i, j :: IsMinAt(q, i) && IsMinAt(Without(q, i), j) && HuffmanRun(Merged(q, i, j), r))
  }

  /** A root reached by least-two merges from q has exactly the leaves of
      q, the total weight of q modulo 2^32, one merged node per tree of q
      beyond the first, and is well formed when the trees of q are. */
  lemma {:induction false} RunShape(q: seq<Node>, r: Node)
    requires HuffmanRun(q, r)
    ensures Leaves(r) == ForestLeaves(q)
    ensures Wrap32(r.f) == Wrap32(Weight(q))
    ensures Internals(r) + 1 == ForestInternals(q) + |q|
    ensures AllWellFormed(q) ==> WellFormed(r)
    decreases |q|
  {
    if q == [r] {
      ForestSingle(r);
      assert r in q;
    } else {
      var i, j :| IsMinAt(q, i) && IsMinAt(Without(q, i), j) && HuffmanRun(Merged(q, i, j), r);
      MergeStep(q, i, j);
      RunShape(Merged(q, i, j), r);
    }
  }

  /** A root reached after one least-two merge is reached from the queue
      before it. */
  lemma RunStep(q: seq<Node>, i: int, j: int)
    requires IsMinAt(q, i) && IsMinAt(Without(q, i), j)
    ensures forall r :: HuffmanRun(Merged(q, i, j), r) ==> HuffmanRun(q, r)
  {
    forall r | HuffmanRun(Merged(q, i, j), r)
      ensures HuffmanRun(q, r)
    {
      assert |q| >= 2;
    }
  }

  /** The body of the builder's loop: polls the two lightest nodes and adds
      a sentinel node over them, with the Java int sum of their frequencies
      and the first polled on the left. */
  method MergeLightestTwo(minHeap: MinHeap)
    requires |minHeap.items| >= 2
    modifies minHeap
    ensures exists i, j :: IsMinAt(old(minHeap.items), i) && IsMinAt(Without(old(minHeap.items), i), j) &&
                           minHeap.items == Merged(old(minHeap.items), i, j)
    ensures |minHeap.items| == |old(minHeap.items)| - 1
    ensures Wrap32(Weight(minHeap.items)) == Wrap32(Weight(old(minHeap.items)))
    ensures ForestLeaves(minHeap.items) == ForestLeaves(old(minHeap.items))
    ensures ForestInternals(minHeap.items) + |minHeap.items| ==
              ForestInternals(old(minHeap.items)) + |old(minHeap.items)|
    ensures AllWellFormed(old(minHeap.items)) ==> AllWellFormed(minHeap.items)
  {
    ghost var before := minHeap.items;
    var left := minHeap.Poll();
    ghost var i :| IsMinAt(before, i) && left == Some(before[i]) && minHeap.items == Without(before, i);
    ghost var mid := minHeap.items;
    var right := minHeap.Poll();
    ghost var j :| IsMinAt(mid, j) && right == Some(mid[j]) && minHeap.items == Without(mid, j);
    var l, r := left.value, right.value;
    var node := MergedNode(l, r);
    minHeap.Add(node);
    assert minHeap.items == Merged(before, i, j);
    MergeStep(before, i, j);
  }

  /** One childless node per entry of the table, with the entry's count. */
  predicate IsEntry(n: Node, freq: map<char, int>)
  {
    Childless(n) && n.c in freq && n.f == freq[n.c]
  }

  /** populatePriorityQueue: a leaf with the count of every table entry is
      added, in the table's (unspecified) order; each entry gives exactly
      one leaf and nothing else is added. */
  method PopulatePriorityQueue(freq: map<char, int>, minHeap: MinHeap)
    modifies minHeap
    ensures |minHeap.items| == |old(minHeap.items)| + |freq|
    ensures minHeap.items[..|old(minHeap.items)|] == old(minHeap.items)
    ensures forall n :: multiset(minHeap.items[|old(minHeap.items)|..])[n] == if IsEntry(n, freq) then 1 else 0
  {
    ghost var added: seq<Node> := [];
    var rest := freq.Keys;
    while rest != {}
      invariant rest <= freq.Keys
      invariant minHeap.items == old(minHeap.items) + added
      invariant |added| + |rest| == |freq|
      invariant forall n :: multiset(added)[n] == if IsEntry(n, freq) && n.c !in rest then 1 else 0
      decreases rest
    {
      var key :| key in rest;
      var leaf := Leaf(key, freq[key]);
      minHeap.Add(leaf);
      added := added + [leaf];
      rest := rest - {key};
    }
    assert minHeap.items[|old(minHeap.items)|..] == added;
  }

  /** The queue the populating step fills is a forest of one childless,
      hence well-formed, node per table entry; it is empty exactly when the
      table is. */
  lemma QueueOfTable(freq: map<char, int>, items: seq<Node>)
    requires forall n :: multiset(items)[n] == if IsEntry(n, freq) then 1 else 0
    ensures ForestLeaves(items) == multiset(items)
    ensures ForestInternals(items) == 0
    ensures AllWellFormed(items)
    ensures items == [] <==> freq == map[]
  {
    forall i | 0 <= i < |items|
      ensures Childless(items[i])
    {
      assert multiset(items)[items[i]] > 0;
    }
    ForestOfLeaves(items);
    if freq != map[] {
      var c :| c in freq;
      assert multiset(items)[Leaf(c, freq[c])] == 1;
    }
  }

  /** The queue's total weight is the sum of the table's counts. */
  lemma {:induction false} QueueWeight(freq: map<char, int>, items: seq<Node>)
    requires forall n :: multiset(items)[n] == if IsEntry(n, freq) then 1 else 0
    ensures Weight(items) == SumOver(freq, c => 1)
    decreases |items|
  {
    if freq == map[] {
      QueueOfTable(freq, items);
    } else {
      var k :| k in freq;
      var leaf := Leaf(k, freq[k]);
      assert multiset(items)[leaf] == 1;
      var i :| 0 <= i < |items| && items[i] == leaf;
      var rest := Without(items, i);
      assert items == items[..i] + [leaf] + items[i + 1..];
      assert multiset(rest) == multiset(items) - multiset{leaf};
      forall n
        ensures multiset(rest)[n] == if IsEntry(n, freq - {k}) then 1 else 0
      {
        if n != leaf && n.c == k {
          assert !IsEntry(n, freq);
        }
      }
      QueueWeight(freq - {k}, rest);
      WeightRemove(items, i);
      SumOverRemove(freq, c => 1, k);
    }
  }

  /** The tree built over the queue of a text's table: it exists exactly
      when the text is not empty, it is well formed, and when no character
      of the text is the sentinel its code table has a code for exactly
      the characters of the text. */
  lemma TreeOfText(text: string, freq: map<char, int>, items: seq<Node>, root: Option<Node>)
    requires freq == Histogram(text)
    requires forall n :: multiset(items)[n] == if IsEntry(n, freq) then 1 else 0
    requires root.None? <==> items == []
    requires root.Some? ==> Leaves(root.value) == ForestLeaves(items)
    requires root.Some? && AllWellFormed(items) ==> WellFormed(root.value)
    requires root.Some? ==> Wrap32(root.value.f) == Wrap32(Weight(items))
    ensures root.None? <==> text == []
    ensures root.Some? ==> WellFormed(root.value)
    ensures root.Some? && |text| <= IntMax ==> Wrap32(root.value.f) == |text|
    ensures Sentinel !in text ==> forall c :: c in Codes(root, []) <==> c in text
  {
    QueueOfTable(freq, items);
    HistogramKeys(text);
    if root.Some? && |text| <= IntMax {
      QueueWeight(freq, items);
      CountsAddUp(text);
    }
    if root.Some? && Sentinel !in text {
      var n := root.value;
      forall l | l in Leaves(n)
        ensures IsEntry(l, freq)
      {
        assert multiset(items)[l] > 0;
      }
      assert NoSentinelLeaf(n);
      CodesCoverLeaves(n, []);
      forall c | c in freq
        ensures c in LeafChars(n)
      {
        assert multiset(items)[Leaf(c, freq[c])] == 1;
        assert Leaf(c, freq[c]) in Leaves(n);
      }
    }
  }

  /** When the table of the tree covers the text, every table key has a
      code and no character is skipped; a sentinel in the text has no code
      in a table that never holds one. */
  lemma CodesCoverText(text: string, freq: map<char, int>, codes: map<char, string>, treeCodes: map<char, string>)
    requires freq == Histogram(text) && Sentinel !in codes
    requires Sentinel !in text ==> forall c :: c in treeCodes <==> c in text
    requires forall c :: c in treeCodes ==> c in codes
    ensures (exists c :: c in freq && c !in codes) <==> Sentinel in text
    ensures Sentinel !in text ==> Missing(codes, text) == []
  {
    HistogramKeys(text);
    if Sentinel in text {
      assert Sentinel in freq && Sentinel !in codes;
    } else {
      assert forall c :: c in freq ==> c in codes;
      NothingMissing(codes, text);
    }
  }

  /** The result of writing the compressed file: its bytes, and the
      characters reported on the error stream for lacking a code. */
  datatype Output = Output(bytes: seq<int>, skipped: string)

  /** Writes the bits of a code, one numeric value per character. */
  method WriteCode(out: BitOutputStream, code: string)
    requires out.Valid() && IsCode(code)
    modifies out
    ensures out.Valid() && out.closed == old(out.closed)
    ensures out.emitted == old(out.emitted) + CodeBits(code)
  {
    for k := 0 to |code|
      invariant out.Valid() && out.closed == old(out.closed)
      invariant out.emitted == old(out.emitted) + CodeBits(code[..k])
    {
      var ok := out.WriteBit(NumericValue(code[k]));
      assert CodeBits(code[..k + 1]) == CodeBits(code[..k]) + [NumericValue(code[k])];
      Assoc(old(out.emitted), CodeBits(code[..k]), [NumericValue(code[k])]);
    }
    assert code[..|code|] == code;
  }

  /** Starting from a code of '0' and '1', every code in the table is one. */
  lemma CodesAreCodes(o: Option<Node>, code: string)
    requires IsCode(code)
    ensures forall c :: c in Codes(o, code) ==> IsCode(Codes(o, code)[c]) && c != Sentinel
  {
    forall c | c in Codes(o, code)
      ensures IsCode(Codes(o, code)[c]) && c != Sentinel
    {
      var s := Codes(o, code)[c];
      CodeIsPath(o.value, code, c);
      assert s == s[..|code|] + s[|code|..];
    }
  }

  /** The step of the writer for one more character. */
  lemma EncodeOne(codes: map<char, string>, t: string, c: char)
    ensures Encoded(codes, t + [c]) == Encoded(codes, t) + (if c in codes then CodeBits(codes[c]) else [])
    ensures Missing(codes, t + [c]) == Missing(codes, t) + (if c in codes then [] else [c])
  {
    assert (t + [c])[..|t|] == t;
  }

  /** The bits the writer is given: the 32 header characters' values, then
      the codes of the text's characters. */
  ghost function Payload(freq: map<char, int>, codes: map<char, string>, text: string): seq<int>
  {
    CodeBits(HeaderChars(Wrap32(TotalBits(freq, codes)))) + Encoded(codes, text)
  }

  /** The writer's step for the next character of a line. */
  lemma EncodeNext(codes: map<char, string>, line: string, j: nat)
    requires j < |line|
    ensures Encoded(codes, line[..j + 1]) == Encoded(codes, line[..j]) + Encoded(codes, [line[j]])
    ensures Missing(codes, line[..j + 1]) == Missing(codes, line[..j]) + Missing(codes, [line[j]])
  {
    assert line[..j + 1] == line[..j] + [line[j]];
    EncodedAppend(codes, line[..j], [line[j]]);
  }

  /** Concatenation is associative. */
  lemma Assoc<T>(a: seq<T>, b: seq<T>, c: seq<T>)
    ensures a + b + c == a + (b + c)
  {
  }

  /** Map union is associative. */
  lemma UnionAssoc(a: map<char, string>, b: map<char, string>, c: map<char, string>)
    ensures a + b + c == a + (b + c)
  {
  }

  class HuffmanCompression {
    /** The lines of the input file, as the line reader returns them. */
    const lines: seq<string>
    /** The tree built by the last compression; None (null) before. */
    var huffRoot: Option<Node>
    /** The code table (a static map in the source: it outlives a single
        compression and only ever grows). */
    var huffmanCodes: map<char, string>

    /** The table holds codes of '0' and '1' only, and never one for the
        sentinel. */
    predicate Valid()
      reads this
    {
      && Sentinel !in huffmanCodes
      && forall c :: c in huffmanCodes ==> IsCode(huffmanCodes[c])
    }

    constructor (lines: seq<string>)
      ensures Valid()
      ensures this.lines == lines && huffRoot == None && huffmanCodes == map[]
    {
      this.lines := lines;
      huffRoot := None;
      huffmanCodes := map[];
    }

    /** generateHuffmanCodes: a depth-first walk that records, for each
        non-sentinel node, the path to it ('1' left, '0' right) after the
        builder's current contents. The builder is left as it was. */
    method GenerateHuffmanCodes(node: Option<Node>, code: StringBuilder)
      requires Valid() && IsCode(code.chars)
      modifies this, code
      ensures Valid()
      ensures code.chars == old(code.chars)
      ensures huffmanCodes == old(huffmanCodes) + Codes(node, old(code.chars))
      ensures huffRoot == old(huffRoot)
      decreases node
    {
      if node == None {
        return;
      }
      var n := node.value;
      CodesAreCodes(node, code.chars);
      if n.c != Sentinel {
        var s := code.ToString();
        huffmanCodes := huffmanCodes[n.c := s];
      } else {
        ghost var start := huffmanCodes;
        ghost var prefix := code.chars;
        code.Append('1');
        GenerateHuffmanCodes(n.left, code);
        var len := code.Length();
        code.DeleteCharAt(len - 1);
        assert code.chars == prefix;
        code.Append('0');
        GenerateHuffmanCodes(n.right, code);
        len := code.Length();
        code.DeleteCharAt(len - 1);
        assert code.chars == prefix;
        UnionAssoc(start, Codes(n.left, prefix + "1"), Codes(n.right, prefix + "0"));
      }
    }

    /** buildHuffmanTree: while two or more nodes remain, polls the two
        lightest, adds a sentinel node over them (first polled on the left)
        with the Java int sum of their frequencies; the last node is the
        root (None for an empty queue), from which the codes are generated.
        The root is one the least-two rule reaches from the queue; hence its
        leaves are the queue's leaves, its frequency the queue's total
        weight modulo 2^32, and one merged node is added per tree beyond
        the first. */
    method BuildHuffmanTree(minHeap: MinHeap)
      requires Valid()
      modifies this, minHeap
      ensures Valid()
      ensures minHeap.items == []
      ensures huffRoot.None? <==> old(minHeap.items) == []
      ensures huffRoot.Some? ==> Wrap32(huffRoot.value.f) == Wrap32(Weight(old(minHeap.items)))
      ensures huffRoot.Some? ==> Leaves(huffRoot.value) == ForestLeaves(old(minHeap.items))
      ensures huffRoot.Some? ==>
                Internals(huffRoot.value) + 1 == ForestInternals(old(minHeap.items)) + |old(minHeap.items)|
      ensures huffRoot.Some? && AllWellFormed(old(minHeap.items)) ==> WellFormed(huffRoot.value)
      ensures huffRoot.Some? ==> HuffmanRun(old(minHeap.items), huffRoot.value)
      ensures huffmanCodes == old(huffmanCodes) + Codes(huffRoot, [])
    {
      ghost var q0 := minHeap.items;
      while minHeap.Size() >= 2
        invariant Valid() && huffmanCodes == old(huffmanCodes)
        invariant q0 == [] <==> minHeap.items == []
        invariant forall r :: HuffmanRun(minHeap.items, r) ==> HuffmanRun(q0, r)
        decreases |minHeap.items|
      {
        ghost var before := minHeap.items;
        MergeLightestTwo(minHeap);
        ghost var i, j :| IsMinAt(before, i) && IsMinAt(Without(before, i), j) && minHeap.items == Merged(before, i, j);
        RunStep(before, i, j);
      }
      ghost var last := minHeap.items;
      var root := minHeap.Poll();
      if root.Some? {
        assert last == [root.value];
        assert HuffmanRun(last, root.value);
        RunShape(q0, root.value);
      }
      huffRoot := root;
      var code := new StringBuilder();
      GenerateHuffmanCodes(root, code);
    }

    /** Looks up the code of c and writes its bits; a character without a
        code is returned instead (the source reports it on the error
        stream). */
    method WriteChar(out: BitOutputStream, c: char) returns (missing: string)
      requires Valid() && out.Valid()
      modifies out
      ensures out.Valid() && out.closed == old(out.closed)
      ensures out.emitted == old(out.emitted) + Encoded(huffmanCodes, [c])
      ensures missing == Missing(huffmanCodes, [c])
    {
      EncodeOne(huffmanCodes, [], c);
      assert [] + [c] == [c];
      if c in huffmanCodes {
        WriteCode(out, huffmanCodes[c]);
        missing := [];
      } else {
        missing := [c];
      }
    }

    /** The body of the writer's loop for one line: the code of each
        character in turn and then the code of '\n'; characters without a
        code are returned (the source reports them on the error stream). */
    method WriteLine(out: BitOutputStream, line: string) returns (missing: string)
      requires Valid() && out.Valid()
      modifies out
      ensures out.Valid() && out.closed == old(out.closed)
      ensures out.emitted == old(out.emitted) + Encoded(huffmanCodes, line + "\n")
      ensures missing == Missing(huffmanCodes, line + "\n")
    {
      missing := [];
      ghost var before := out.emitted;
      var j := 0;
      while j < |line|
        invariant 0 <= j <= |line|
        invariant out.closed == old(out.closed)
        invariant out.Valid() && out.emitted == before + Encoded(huffmanCodes, line[..j])
        invariant missing == Missing(huffmanCodes, line[..j])
      {
        var m := WriteChar(out, line[j]);
        EncodeNext(huffmanCodes, line, j);
        Assoc(before, Encoded(huffmanCodes, line[..j]), Encoded(huffmanCodes, [line[j]]));
        missing := missing + m;
        j := j + 1;
      }
      assert line[..j] == line;
      var m := WriteChar(out, '\n');
      EncodedAppend(huffmanCodes, line, "\n");
      Assoc(before, Encoded(huffmanCodes, line), Encoded(huffmanCodes, "\n"));
      missing := missing + m;
    }

    /** The writer's loop over the lines: each line's codes and then the
        code of '\n'; returns the characters without a code. */
    method WriteLines(out: BitOutputStream) returns (skipped: string)
      requires Valid() && out.Valid()
      modifies out
      ensures out.Valid() && out.closed == old(out.closed)
      ensures out.emitted == old(out.emitted) + Encoded(huffmanCodes, Text(lines))
      ensures skipped == Missing(huffmanCodes, Text(lines))
    {
      skipped := [];
      ghost var before := out.emitted;
      ghost var done: string := [];
      var i := 0;
      while i < |lines|
        invariant 0 <= i <= |lines|
        invariant out.Valid() && out.closed == old(out.closed)
        invariant done == Text(lines[..i])
        invariant out.emitted == before + Encoded(huffmanCodes, done)
        invariant skipped == Missing(huffmanCodes, done)
      {
        ghost var piece := lines[i] + "\n";
        var missing := WriteLine(out, lines[i]);
        TextStep(lines, i);
        EncodedAppend(huffmanCodes, done, piece);
        Assoc(before, Encoded(huffmanCodes, done), Encoded(huffmanCodes, piece));
        skipped := skipped + missing;
        done := done + piece;
        i := i + 1;
      }
      assert lines[..i] == lines;
    }

    /** writeCompressedBits: the 32-bit count of countTotalBits, then, for
        every line, the code of each character and the code of '\n', each
        code bit by bit; a character without a code is reported and
        skipped; closing the stream pads the last byte with zeros. A table
        key without a code stops it before anything is written. */
    method WriteCompressedBits(freq: map<char, int>) returns (result: Option<Output>)
      requires Valid()
      ensures result.None? <==> exists c :: c in freq && c !in huffmanCodes
      ensures result.Some? ==> AllBytes(result.value.bytes)
      ensures result.Some? ==> Unpack(result.value.bytes) == PadBits(Payload(freq, huffmanCodes, Text(lines)))
      ensures result.Some? ==> result.value.skipped == Missing(huffmanCodes, Text(lines))
    {
      var bitCount := CountTotalBits(freq, huffmanCodes);
      if bitCount == None {
        return None;
      }
      var header := bitCount.value;
      assert IsCode(header) by {
        HeaderIsBinary(Wrap32(TotalBits(freq, huffmanCodes)));
      }
      var out := new BitOutputStream([]);
      assert out.emitted == [];
      WriteCode(out, header);
      assert out.emitted == CodeBits(header) by {
        assert [] + CodeBits(header) == CodeBits(header);
      }
      var skipped := WriteLines(out);
      ghost var bits := out.emitted;
      assert bits == Payload(freq, huffmanCodes, Text(lines)) by {
        assert header == HeaderChars(Wrap32(TotalBits(freq, huffmanCodes)));
      }
      out.Close();
      assert Unpack(out.out) == PadBits(bits) by {
        assert Unpack(out.out) + [] == Unpack(out.out);
      }
      return Some(Output(out.out, skipped));
    }

    /** compress: counts the characters of the lines, fills a fresh queue,
        builds the tree and its codes, then writes the compressed bits. It
        fails exactly when a character of the input is the sentinel: that
        character's leaf is taken for a merged node, gets no code, and the
        header count stops on it. Otherwise no character is skipped, and
        the output is the padded header and payload of the text. */
    method Compress() returns (result: Option<Output>)
      requires Valid()
      modifies this
      ensures Valid()
      ensures huffmanCodes == old(huffmanCodes) + Codes(huffRoot, [])
      ensures huffRoot.None? <==> lines == []
      ensures huffRoot.Some? ==> WellFormed(huffRoot.value)
      ensures huffRoot.Some? && |Text(lines)| <= IntMax ==> Wrap32(huffRoot.value.f) == |Text(lines)|
      ensures Sentinel !in Text(lines) ==> forall c :: c in Codes(huffRoot, []) <==> c in Text(lines)
      ensures result.None? <==> Sentinel in Text(lines)
      ensures result.Some? ==> result.value.skipped == [] && AllBytes(result.value.bytes)
      ensures result.Some? ==>
                Unpack(result.value.bytes) == PadBits(Payload(Histogram(Text(lines)), huffmanCodes, Text(lines)))
    {
      var freq := CountCharacterFrequencies(lines);
      var minHeap := new MinHeap();
      PopulatePriorityQueue(freq, minHeap);
      ghost var items := minHeap.items;
      assert items[0..] == items;
      BuildHuffmanTree(minHeap);
      ghost var text := Text(lines);
      TreeOfText(text, freq, items, huffRoot);
      assert lines != [] ==> text != [];
      result := WriteCompressedBits(freq);
      CodesCoverText(text, freq, huffmanCodes, Codes(huffRoot, []));
    }
  }
}
