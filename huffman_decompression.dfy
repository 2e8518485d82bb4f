/** The decoding loop: bits are read one at a time and walk the tree from
    the root, 1 to the left child and 0 to the right child; on reaching a
    node whose character is not the sentinel, that character is written and
    the walk starts again at the root. The loop runs until the bit source is
    exhausted: the 32-bit length header is not skipped and padding bits are
    walked like any others. */
module HuffmanDecompression {
  import opened Bits
  import opened HuffmanNode
  import opened HuffmanTree
  import opened BitInput

  /** What the loop leaves behind: the characters given to the writer, and
      whether the loop ended at the end of the bits or stopped on a missing
      child (the source then dereferences null and throws). */
  datatype Outcome = Decoded(text: string) | NullChild(written: string)

  /** The outcome with `w` written before everything else. */
  function After(w: string, o: Outcome): (r: Outcome)
    ensures r.Decoded? == o.Decoded?
  {
    match o
    case Decoded(t) => Decoded(w + t)
    case NullChild(t) => NullChild(w + t)
  }

  /** The loop from cursor `cur` over the bits still to come. */
  function Walk(root: Node, cur: Node, bits: seq<int>): Outcome
    decreases |bits|
  {
    if bits == [] then Decoded([])
    else
      match (if bits[0] == 0 then cur.right else cur.left)
      case None => NullChild([])
      case Some(next) =>
        if next.c != Sentinel then After([next.c], Walk(root, root, bits[1..]))
        else Walk(root, next, bits[1..])
  }

  /** The loop over the given bits with the tree the decoder was handed:
      a null root (the tree of an empty file) is dereferenced at the first
      bit, a tree is walked from its root. */
  function Decode(root: Option<Node>, bits: seq<int>): Outcome
  {
    match root
    case None => if bits == [] then Decoded([]) else NullChild([])
    case Some(r) => Walk(r, r, bits)
  }

  /** The decoding loop over the whole compressed byte stream. */
  method Decompress(huffRoot: Option<Node>, compressed: seq<int>) returns (result: Outcome)
    requires AllBytes(compressed)
    ensures result == Decode(huffRoot, Unpack(compressed))
  {
    var written: string := [];
    var input := new BitInputStream(compressed);
    if huffRoot == None {
      var bit := input.ReadBit();
      if bit == -1 {
        return Decoded([]);
      }
      // currentNode.getRight() or getLeft() on the null root
      return NullChild([]);
    }
    var root := huffRoot.value;
    var current := root;
    ghost var bits := input.remaining;
    while true
      invariant input.Valid() && bits == input.remaining
      invariant Walk(root, root, Unpack(compressed)) == After(written, Walk(root, current, bits))
      decreases |bits|
    {
      var bit := input.ReadBit();
      if bit == -1 {
        assert written + [] == written;
        break;
      }
      ghost var more := input.remaining;
      DecodeStep(root, current, written, bit, more);
      bits := more;
      var next := if bit == 0 then current.right else current.left;
      if next == None {
        // currentNode.getC() on null
        return NullChild(written);
      }
      current := next.value;
      if current.c != Sentinel {
        written := written + [current.c];
        current := root;
      }
    }
    return Decoded(written);
  }

  /** One turn of the loop: the bit read at the cursor either meets a
      missing child, or reaches a leaf whose character is written before
      the walk restarts at the root, or moves the cursor down. */
  lemma DecodeStep(root: Node, cur: Node, written: string, bit: int, more: seq<int>)
    ensures var next := if bit == 0 then cur.right else cur.left;
            After(written, Walk(root, cur, [bit] + more)) ==
              if next == None then NullChild(written)
              else if next.value.c != Sentinel then After(written + [next.value.c], Walk(root, root, more))
              else After(written, Walk(root, next.value, more))
  {
    assert ([bit] + more)[1..] == more;
    assert written + [] == written;
    var next := if bit == 0 then cur.right else cur.left;
    if next.Some? && next.value.c != Sentinel {
      AfterAfter(written, [next.value.c], Walk(root, root, more));
    }
  }

  lemma AfterAfter(a: string, b: string, o: Outcome)
    ensures After(a, After(b, o)) == After(a + b, o)
  {
  }

  /** Walking from a merged node down one code of the table it roots emits
      that code's character and returns to the root. */
  lemma {:induction false} WalkCode(root: Node, cur: Node, code: string, c: char, rest: seq<int>)
    requires cur.c == Sentinel
    requires c in Codes(Some(cur), code)
    ensures |code| <= |Codes(Some(cur), code)[c]|
    ensures Walk(root, cur, CodeBits(Codes(Some(cur), code)[c][|code|..]) + rest)
              == After([c], Walk(root, root, rest))
  {
    var s := Codes(Some(cur), code)[c];
    var edge, m := ChildOnCode(cur, code, c);
    CodeIsPath(m, code + edge, c);
    var more := CodeBits(s[|code + edge|..]) + rest;
    assert CodeBits(s[|code|..]) + rest == [NumericValue(edge[0])] + more by {
      DropPrefix(s, code, edge);
      CodeBitsAppend(edge, s[|code + edge|..]);
    }
    WalkOne(root, cur, NumericValue(edge[0]), more);
    if m.c != Sentinel {
      assert s == code + edge;
      assert more == rest;
    } else {
      WalkCode(root, m, code + edge, c, rest);
    }
  }

  /** The loop's step on one bit. */
  lemma WalkOne(root: Node, cur: Node, bit: int, more: seq<int>)
    ensures Walk(root, cur, [bit] + more) ==
              match (if bit == 0 then cur.right else cur.left)
              case None => NullChild([])
              case Some(next) =>
                if next.c != Sentinel then After([next.c], Walk(root, root, more))
                else Walk(root, next, more)
  {
    assert ([bit] + more)[1..] == more;
  }

  /** Walking the codes of a character sequence, one after the other, from
      a root that is a merged node, writes exactly that sequence. */
  lemma {:induction false} WalkText(root: Node, s: string)
    requires root.c == Sentinel
    requires forall i :: 0 <= i < |s| ==> s[i] in Codes(Some(root), [])
    ensures Walk(root, root, Encoded(Codes(Some(root), []), s)) == Decoded(s)
  {
    if s != [] {
      var codes := Codes(Some(root), []);
      var c := s[0];
      assert s == [c] + s[1..];
      EncodedAppend(codes, [c], s[1..]);
      assert Encoded(codes, [c]) == CodeBits(codes[c]);
      WalkCode(root, root, [], c, Encoded(codes, s[1..]));
      assert codes[c][0..] == codes[c];
      WalkText(root, s[1..]);
    }
  }

  /** A path that ends on a merged node writes nothing: a code cut short
      at the end of the stream is dropped. */
  lemma {:induction false} PendingPathWritesNothing(root: Node, cur: Node, path: string)
    requires IsCode(path)
    requires forall k :: 0 < k <= |path| ==> Follow(cur, path[..k]).Some? && Follow(cur, path[..k]).value.c == Sentinel
    ensures Walk(root, cur, CodeBits(path)) == Decoded([])
    decreases |path|
  {
    if path != [] {
      assert path[..1] == [path[0]];
      var m := Follow(cur, path[..1]).value;
      assert Follow(cur, path[..1]) == (if path[0] == '1' then cur.left else cur.right);
      forall k | 0 < k <= |path| - 1
        ensures Follow(m, path[1..][..k]).Some? && Follow(m, path[1..][..k]).value.c == Sentinel
      {
        assert path[..k + 1][1..] == path[1..][..k];
        assert path[..k + 1][0] == path[0];
      }
      PendingPathWritesNothing(root, m, path[1..]);
      assert CodeBits(path)[1..] == CodeBits(path[1..]);
    }
  }

  /** A root without children (a tree of one leaf) cannot take a single
      step: the first bit already meets a missing child. */
  lemma SingleLeafRootStops(root: Node, bits: seq<int>)
    requires Childless(root) && bits != []
    ensures Walk(root, root, bits) == NullChild([])
  {
  }
}
