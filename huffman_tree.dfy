/** The shape of the trees the compressor builds, and the code table its
    depth-first walk derives from a tree: '1' for every left edge, '0' for
    every right edge, and a node counts as a leaf when its character is not
    the sentinel. */
module HuffmanTree {
  import opened JavaInt
  import opened HuffmanNode

  /** How the builder makes its leaves: no children. */
  predicate Childless(n: Node)
  {
    n.left == None && n.right == None
  }

  /** The shape the builder produces: childless leaves, and merged nodes
      that carry the sentinel, both children and the Java int sum of their
      frequencies, the left child (polled first) no heavier than the right. */
  predicate WellFormed(n: Node)
  {
    match n
    case Node(_, _, None, None) => true
    case Node(c, f, Some(l), Some(r)) =>
      c == Sentinel && f == Wrap32(l.f + r.f) && l.f <= r.f && WellFormed(l) && WellFormed(r)
    case _ => false
  }

  /** The childless nodes of a tree. */
  function Leaves(n: Node): multiset<Node>
  {
    match n
    case Node(_, _, None, None) => multiset{n}
    case Node(_, _, l, r) => LeavesOf(l) + LeavesOf(r)
  }

  function LeavesOf(o: Option<Node>): multiset<Node>
  {
    match o
    case None => multiset{}
    case Some(n) => Leaves(n)
  }

  /** The number of merged (non-childless) nodes of a tree. */
  function Internals(n: Node): nat
  {
    match n
    case Node(_, _, None, None) => 0
    case Node(_, _, l, r) => 1 + InternalsOf(l) + InternalsOf(r)
  }

  function InternalsOf(o: Option<Node>): nat
  {
    match o
    case None => 0
    case Some(n) => Internals(n)
  }

  /** No leaf carries the sentinel character, so that the sentinel test
      tells leaves from merged nodes. */
  predicate NoSentinelLeaf(n: Node)
  {
    forall l :: l in Leaves(n) ==> l.c != Sentinel
  }

  /** The characters of the leaves. */
  function LeafChars(n: Node): set<char>
  {
    set l | l in Leaves(n) :: l.c
  }

  /** The table the depth-first walk from `o` records when it starts with
      the accumulated code `code`: a non-sentinel node gets the code so far;
      a sentinel node passes code + "1" to its left child and then code + "0"
      to its right child, whose entries win on a clash (the walk overwrites);
      a missing node adds nothing. */
  function Codes(o: Option<Node>, code: string): map<char, string>
  {
    match o
    case None => map[]
    case Some(n) =>
      if n.c != Sentinel then map[n.c := code]
      else Codes(n.left, code + "1") + Codes(n.right, code + "0")
  }

  /** The node reached from n by following a path of '1' (left) and
      '0' (right, and any other character) edges; None when it runs off the
      tree. */
  function Follow(n: Node, path: string): Option<Node>
    decreases |path|
  {
    if path == [] then Some(n)
    else
      match (if path[0] == '1' then n.left else n.right)
      case None => None
      case Some(m) => Follow(m, path[1..])
  }

  /** A code is a string of '0' and '1'. */
  predicate IsCode(s: string)
  {
    forall i :: 0 <= i < |s| ==> s[i] == '0' || s[i] == '1'
  }

  /** Every code starts with the accumulated code, continues with '0' and
      '1' only, and leads from the start node to a node with the code's
      character that is not the sentinel. */
  lemma {:induction false} CodeIsPath(n: Node, code: string, c: char)
    requires c in Codes(Some(n), code)
    ensures |code| <= |Codes(Some(n), code)[c]|
    ensures Codes(Some(n), code)[c][..|code|] == code
    ensures IsCode(Codes(Some(n), code)[c][|code|..])
    ensures Follow(n, Codes(Some(n), code)[c][|code|..]).Some?
    ensures Follow(n, Codes(Some(n), code)[c][|code|..]).value.c == c
    ensures c != Sentinel
  {
    var s := Codes(Some(n), code)[c];
    if n.c != Sentinel {
      assert s == code;
      assert s[|code|..] == [];
    } else {
      var edge, m := ChildOnCode(n, code, c);
      CodeIsPath(m, code + edge, c);
      var tail := s[|code + edge|..];
      assert s[..|code|] == code && s[|code|..] == edge + tail by {
        DropPrefix(s, code, edge);
      }
      assert IsCode(edge + tail);
      assert Follow(n, edge + tail) == Follow(m, tail) by {
        assert (edge + tail)[1..] == tail;
      }
    }
  }

  /** The code of c below a merged node continues through one child: the
      right one when the right subtree has an entry for c, since its
      entries win. */
  lemma ChildOnCode(n: Node, code: string, c: char) returns (edge: string, m: Node)
    requires n.c == Sentinel
    requires c in Codes(Some(n), code)
    ensures edge == "0" || edge == "1"
    ensures (if edge[0] == '1' then n.left else n.right) == Some(m)
    ensures c in Codes(Some(m), code + edge)
    ensures Codes(Some(n), code)[c] == Codes(Some(m), code + edge)[c]
  {
    if c in Codes(n.right, code + "0") {
      edge, m := "0", n.right.value;
    } else {
      edge, m := "1", n.left.value;
    }
  }

  /** A string that starts with p + e starts with p and continues with e. */
  lemma DropPrefix(s: string, p: string, e: string)
    requires |p + e| <= |s| && s[..|p + e|] == p + e
    ensures s[..|p|] == p
    ensures s[|p|..] == e + s[|p + e|..]
  {
    assert s[..|p|] == s[..|p + e|][..|p|];
    assert s[|p|..|p + e|] == e;
  }

  /** Character.getNumericValue on the characters that can occur in the
      tables: a decimal digit gives its value, an ASCII letter 10 to 35, and
      anything else -1. */
  function NumericValue(ch: char): (v: int)
    ensures '0' <= ch <= '9' ==> v == ch as int - '0' as int
    ensures ch == '0' ==> v == 0
    ensures ch == '1' ==> v == 1
  {
    if '0' <= ch <= '9' then ch as int - '0' as int
    else if 'a' <= ch <= 'z' then ch as int - 'a' as int + 10
    else if 'A' <= ch <= 'Z' then ch as int - 'A' as int + 10
    else -1
  }

  /** The bits the writer is given for a code: the numeric value of each
      character. */
  function CodeBits(code: string): (bits: seq<int>)
    ensures |bits| == |code|
    ensures forall i :: 0 <= i < |code| ==> bits[i] == NumericValue(code[i])
  {
    seq(|code|, i requires 0 <= i < |code| => NumericValue(code[i]))
  }

  lemma CodeBitsAppend(a: string, b: string)
    ensures CodeBits(a + b) == CodeBits(a) + CodeBits(b)
  {
  }

  /** What the writer emits for the characters of s: the bits of each
      character's code in turn, nothing for a character without a code. */
  function Encoded(codes: map<char, string>, s: string): seq<int>
  {
    if s == [] then []
    else Encoded(codes, s[..|s| - 1]) + (if s[|s| - 1] in codes then CodeBits(codes[s[|s| - 1]]) else [])
  }

  /** The characters of s without a code, in order: the ones the writer
      reports and skips. */
  function Missing(codes: map<char, string>, s: string): string
  {
    if s == [] then []
    else Missing(codes, s[..|s| - 1]) + (if s[|s| - 1] in codes then [] else [s[|s| - 1]])
  }

  lemma {:induction false} EncodedAppend(codes: map<char, string>, a: string, b: string)
    ensures Encoded(codes, a + b) == Encoded(codes, a) + Encoded(codes, b)
    ensures Missing(codes, a + b) == Missing(codes, a) + Missing(codes, b)
    decreases |b|
  {
    if b == [] {
      assert a + b == a;
    } else {
      var b' := b[..|b| - 1];
      assert (a + b)[..|a + b| - 1] == a + b';
      EncodedAppend(codes, a, b');
    }
  }

  /** Without a missing character, nothing is skipped. */
  lemma {:induction false} NothingMissing(codes: map<char, string>, s: string)
    requires forall i :: 0 <= i < |s| ==> s[i] in codes
    ensures Missing(codes, s) == []
  {
    if s != [] {
      NothingMissing(codes, s[..|s| - 1]);
    }
  }

  /** No code is a prefix of another character's code (nor equal to it). */
  lemma {:induction false} PrefixFree(o: Option<Node>, code: string, a: char, b: char)
    requires a in Codes(o, code) && b in Codes(o, code) && a != b
    ensures !(Codes(o, code)[a] <= Codes(o, code)[b])
    decreases o
  {
    var n := o.value;
    if n.c == Sentinel {
      var l, r := Codes(n.left, code + "1"), Codes(n.right, code + "0");
      if a in r && b in r {
        PrefixFree(n.right, code + "0", a, b);
      } else if a !in r && b !in r {
        PrefixFree(n.left, code + "1", a, b);
      } else {
        // one code passes the left edge, the other the right edge
        var x, y := Codes(o, code)[a], Codes(o, code)[b];
        if a in r {
          assert x[|code|] == '0' by {
            CodeIsPath(n.right.value, code + "0", a);
            EdgeAfter(x, code, '0');
          }
          assert y[|code|] == '1' by {
            CodeIsPath(n.left.value, code + "1", b);
            EdgeAfter(y, code, '1');
          }
        } else {
          assert x[|code|] == '1' by {
            CodeIsPath(n.left.value, code + "1", a);
            EdgeAfter(x, code, '1');
          }
          assert y[|code|] == '0' by {
            CodeIsPath(n.right.value, code + "0", b);
            EdgeAfter(y, code, '0');
          }
        }
      }
    }
  }

  /** A code that starts with code + [e] has e right after code. */
  lemma EdgeAfter(s: string, code: string, e: char)
    requires |code + [e]| <= |s| && s[..|code + [e]|] == code + [e]
    ensures s[|code|] == e
  {
    assert s[|code|] == s[..|code + [e]|][|code|];
  }

  /** In a well-formed tree without sentinel leaves, exactly the leaf
      characters get a code. */
  lemma {:induction false} CodesCoverLeaves(n: Node, code: string)
    requires WellFormed(n) && NoSentinelLeaf(n)
    ensures Codes(Some(n), code).Keys == LeafChars(n)
  {
    match n
    case Node(_, _, None, None) =>
      assert n in Leaves(n);
      assert LeafChars(n) == {n.c};
    case Node(_, _, Some(l), Some(r)) =>
      assert Leaves(n) == Leaves(l) + Leaves(r);
      CodesCoverLeaves(l, code + "1");
      CodesCoverLeaves(r, code + "0");
      assert LeafChars(n) == LeafChars(l) + LeafChars(r);
  }

  /** A tree of a single leaf gives its character the empty code; no tree
      gives no codes. */
  lemma SingleLeafCode(c: char, f: int)
    requires c != Sentinel
    ensures Codes(Some(Leaf(c, f)), []) == map[c := []]
    ensures Codes(None, []) == map[]
  {
  }
}
