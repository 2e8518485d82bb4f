/** What reading back the compressor's output gives. Two defects stand in
    the way of a round trip: the decoding loop treats the 32-bit length
    header and the zero padding of the last byte as code bits, and a text of
    a single distinct character gets the empty code, so that the bit file
    does not record its length. Each is shown on the code as written, and a corrected decoder (it
    reads the header as the number of payload bits to decode) and a
    corrected tree (a lone leaf hangs under a merged node) are proved to
    restore the text. */
module RoundTrip {
  import opened JavaInt
  import opened Bits
  import opened HuffmanNode
  import opened HuffmanTree
  import opened Frequency
  import opened Header
  import opened HuffmanCompression
  import opened HuffmanDecompression
  import opened BitInput

  // ---------------------------------------------------------------------
  // The decoding loop as written walks the header and the padding

  /** Below a root whose two children are leaves, every bit reaches a leaf:
      the loop writes one character per bit, whatever the bits mean. */
  lemma {:induction false} EveryBitDecodes(root: Node, bits: seq<int>)
    requires root.left.Some? && root.left.value.c != Sentinel
    requires root.right.Some? && root.right.value.c != Sentinel
    ensures Walk(root, root, bits).Decoded?
    ensures |Walk(root, root, bits).text| == |bits|
    decreases |bits|
  {
    if bits != [] {
      EveryBitDecodes(root, bits[1..]);
    }
  }

  /** The file of the single line "a": the text "a\n" has two characters of
      count 1, the tree is a merged node over their two leaves (in either
      order, as the queue breaks the tie), and the compressed bits are the
      32 header bits, 2 code bits and 6 padding bits. The decoding loop
      reads all 40 as codes and writes 40 characters instead of 2. */
  lemma HeaderIsDecoded(x: char, y: char)
    requires (x == 'a' && y == '\n') || (x == '\n' && y == 'a')
    ensures var root := MergedNode(Leaf(x, 1), Leaf(y, 1));
            var codes := Codes(Some(root), []);
            var text := Text(["a"]);
            var bits := PadBits(Payload(Histogram(text), codes, text));
            && |bits| == 40
            && Walk(root, root, bits).Decoded?
            && |Walk(root, root, bits).text| == 40
            && Walk(root, root, bits) != Decoded(text)
  {
    var root := MergedNode(Leaf(x, 1), Leaf(y, 1));
    var codes := Codes(Some(root), []);
    var text := Text(["a"]);
    assert text == "a\n" by {
      assert ["a"][..0] == [];
    }
    TwoLeafCodes(x, y);
    var header := HeaderChars(Wrap32(TotalBits(Histogram(text), codes)));
    HeaderIsBinary(Wrap32(TotalBits(Histogram(text), codes)));
    assert Encoded(codes, "a") == CodeBits(codes['a']) by {
      assert "a"[..0] == [];
    }
    assert Encoded(codes, text) == Encoded(codes, "a") + CodeBits(codes['\n']) by {
      assert text[..1] == "a";
    }
    var bits := PadBits(Payload(Histogram(text), codes, text));
    assert |Payload(Histogram(text), codes, text)| == 34;
    EveryBitDecodes(root, bits);
  }

  /** The table of a merged node over two leaves: "1" for the left one,
      "0" for the right one. */
  lemma TwoLeafCodes(x: char, y: char)
    requires x != Sentinel && y != Sentinel && x != y
    ensures Codes(Some(MergedNode(Leaf(x, 1), Leaf(y, 1))), []) == map[x := "1", y := "0"]
  {
    assert [] + "1" == "1" && [] + "0" == "0";
  }

  // ---------------------------------------------------------------------
  // Corrected decoder: the header gives the number of payload bits

  /** The first n bits of s (all of s when it is shorter). */
  function Take(s: seq<int>, n: int): (r: seq<int>)
    ensures r <= s
    ensures |r| == if n <= 0 then 0 else if n < |s| then n else |s|
  {
    if n <= 0 then [] else if n < |s| then s[..n] else s
  }

  /** What the corrected decoder produces: the first 32 bits, read most
      significant first as an unsigned count, say how many of the bits
      after them are decoded; a stream shorter than the header decodes to
      nothing. */
  function Counted(root: Option<Node>, bits: seq<int>): Outcome
  {
    if |bits| < 32 then Decoded([])
    else Decode(root, Take(bits[32..], BitsValue(bits[..32])))
  }

  /** The corrected decoding loop: reads the 32 header bits into a
      (64-bit, hence never negative) count, then walks the tree for that
      many bits only, so that neither the header nor the padding is taken
      for code bits. */
  method DecompressCounted(root: Option<Node>, compressed: seq<int>) returns (result: Outcome)
    requires AllBytes(compressed)
    ensures result == Counted(root, Unpack(compressed))
  {
    var input := new BitInputStream(compressed);
    var count := ReadCount(input);
    if count == None {
      return Decoded([]);
    }
    if root == None {
      // the null root is dereferenced only when a payload bit is read
      if count.value > 0 {
        var bit := input.ReadBit();
        if bit != -1 {
          return NullChild([]);
        }
      }
      return Decoded([]);
    }
    result := DecodeCount(root.value, input, count.value);
  }

  /** The corrected loop proper: walks the tree for at most `count` bits
      of the stream (fewer when the stream ends first). */
  method DecodeCount(root: Node, input: BitInputStream, count: int) returns (result: Outcome)
    requires input.Valid()
    modifies input
    ensures result == Walk(root, root, Take(old(input.remaining), count))
  {
    var written: string := [];
    var current := root;
    var left := count;
    ghost var todo := Take(input.remaining, left);
    assert todo == Take(old(input.remaining), count);
    while left > 0
      invariant input.Valid() && todo == Take(input.remaining, left)
      invariant Walk(root, root, Take(old(input.remaining), count)) == After(written, Walk(root, current, todo))
      decreases left
    {
      ghost var bits := input.remaining;
      var bit := input.ReadBit();
      if bit == -1 {
        break;
      }
      ghost var rest := Take(input.remaining, left - 1);
      TakeStep(bits, bit, input.remaining, left);
      DecodeStep(root, current, written, bit, rest);
      todo := rest;
      left := left - 1;
      var next := if bit == 0 then current.right else current.left;
      if next == None {
        return NullChild(written);
      }
      current := next.value;
      if current.c != Sentinel {
        written := written + [current.c];
        current := root;
      }
    }
    assert todo == [] && written + [] == written;
    return Decoded(written);
  }

  /** Reads the 32 header bits, most significant first, into a count;
      None when the stream ends before them. */
  method ReadCount(input: BitInputStream) returns (count: Option<int>)
    requires input.Valid()
    modifies input
    ensures input.Valid()
    ensures count.None? <==> |old(input.remaining)| < 32
    ensures count.Some? ==>
              count.value == BitsValue(old(input.remaining)[..32]) && input.remaining == old(input.remaining)[32..]
  {
    ghost var all := input.remaining;
    var length := 0;
    var i := 0;
    while i < 32
      invariant 0 <= i <= 32 && i <= |all|
      invariant input.Valid() && input.remaining == all[i..]
      invariant length == BitsValue(all[..i])
    {
      var bit := input.ReadBit();
      if bit == -1 {
        return None;
      }
      HeaderStep(all, i);
      length := 2 * length + bit;
      i := i + 1;
    }
    return Some(length);
  }

  /** One more header bit read. */
  lemma HeaderStep(all: seq<int>, i: nat)
    requires i < |all|
    ensures all[i..] == [all[i]] + all[i + 1..]
    ensures BitsValue(all[..i + 1]) == 2 * BitsValue(all[..i]) + all[i]
  {
    assert all[..i + 1][..i] == all[..i];
  }

  /** Taking n > 0 bits starts with the first bit. */
  lemma TakeStep(bits: seq<int>, bit: int, more: seq<int>, n: int)
    requires bits == [bit] + more && n > 0
    ensures Take(bits, n) == [bit] + Take(more, n - 1)
  {
  }

  /** Two tables that agree on the characters of s encode s alike. */
  lemma {:induction false} EncodedAgree(a: map<char, string>, b: map<char, string>, s: string)
    requires forall i :: 0 <= i < |s| ==> s[i] in a && s[i] in b && a[s[i]] == b[s[i]]
    ensures Encoded(a, s) == Encoded(b, s)
  {
    if s != [] {
      EncodedAgree(a, b, s[..|s| - 1]);
    }
  }

  /** The corrected decoder restores the text from the compressor's bits,
      for a root that is a merged node whose table codes every character of
      the text as the writer's table does, as long as the payload length
      fits the 32-bit header. */
  lemma RoundTrip(root: Node, codes: map<char, string>, text: string)
    requires root.c == Sentinel
    requires |text| <= IntMax
    requires forall i :: 0 <= i < |text| ==>
               text[i] in Codes(Some(root), []) && text[i] in codes && codes[text[i]] == Codes(Some(root), [])[text[i]]
    requires |Encoded(codes, text)| < Modulus
    ensures Counted(Some(root), PadBits(Payload(Histogram(text), codes, text))) == Decoded(text)
  {
    var e := Encoded(codes, text);
    EncodedAgree(codes, Codes(Some(root), []), text);
    var header := HeaderChars(Wrap32(TotalBits(Histogram(text), codes)));
    HeaderIsBinary(Wrap32(TotalBits(Histogram(text), codes)));
    HeaderCountsPayload(codes, text);
    var h := CodeBits(header);
    assert BitsValue(h) == |e| by {
      DivModUnique(|e|, Modulus, 0, |e|);
    }
    assert Payload(Histogram(text), codes, text) == h + e;
    CountedPayload(root, h, e);
    WalkText(root, text);
  }

  /** The corrected decoder walks exactly the payload behind a header that
      counts it. */
  lemma CountedPayload(root: Node, h: seq<int>, e: seq<int>)
    requires |h| == 32 && BitsValue(h) == |e|
    ensures Counted(Some(root), PadBits(h + e)) == Walk(root, root, e)
  {
    PaddedPayload(h, e);
  }

  /** After a 32-bit header, the first as many bits as the payload holds
      are the payload: the padding is cut off. */
  lemma PaddedPayload(h: seq<int>, e: seq<int>)
    requires |h| == 32
    ensures PadBits(h + e)[..32] == h
    ensures Take(PadBits(h + e)[32..], |e|) == e
  {
    var p := PadBits(h + e);
    assert p[..|h + e|] == h + e;
    assert p[..32] == (h + e)[..32];
    assert p[32..][..|e|] == (h + e)[32..];
  }

  /** The compressor's output, as it states it, decodes back to the text
      with the corrected decoder whenever the tree's root is a merged node:
      the writer's table is the earlier table updated with the tree's
      codes, and the tree codes every character of the text. */
  lemma CompressedRoundTrip(lines: seq<string>, root: Node, earlier: map<char, string>)
    requires root.c == Sentinel
    requires |Text(lines)| <= IntMax
    requires forall c :: c in Text(lines) ==> c in Codes(Some(root), [])
    requires |Encoded(earlier + Codes(Some(root), []), Text(lines))| < Modulus
    ensures var codes := earlier + Codes(Some(root), []);
            Counted(Some(root), PadBits(Payload(Histogram(Text(lines)), codes, Text(lines)))) == Decoded(Text(lines))
  {
    RoundTrip(root, earlier + Codes(Some(root), []), Text(lines));
  }

  /** The empty file: no lines, hence no tree (a null root), an empty
      payload and a header of 32 zero bits. The decoding loop as written
      reads the first header bit and dereferences the null root; the
      corrected decoder reads the count 0 and restores the empty text. */
  lemma EmptyFile(codes: map<char, string>)
    ensures var bits := PadBits(Payload(Histogram(Text([])), codes, Text([])));
            && |bits| == 32
            && Decode(None, bits) == NullChild([])
            && Counted(None, bits) == Decoded([])
  {
    var text := Text([]);
    assert text == [];
    var header := HeaderChars(Wrap32(TotalBits(Histogram(text), codes)));
    HeaderIsBinary(Wrap32(TotalBits(Histogram(text), codes)));
    HeaderCountsPayload(codes, text);
    var h := CodeBits(header);
    assert Encoded(codes, text) == [];
    assert Payload(Histogram(text), codes, text) == h + [];
    PaddedPayload(h, []);
    PadBitsBytes(h + []);
  }

  // ---------------------------------------------------------------------
  // A text of one distinct character loses its length

  /** The files of one empty line and of two empty lines: each text holds
      only '\n', the tree is that one leaf, its code is empty, the payload
      is empty and the header counts 0 bits. The two files compress to the
      same bit file; only the serialized tree differs, in its leaf's
      frequency (1 or 2), which the decoding loop never reads (and the loop
      stops on the missing child, see SingleLeafRootStops). */
  lemma LoneLeafLosesCount()
    ensures Text([""]) != Text(["", ""])
    ensures var one, two := Text([""]), Text(["", ""]);
            var codes1 := Codes(Some(Leaf('\n', 1)), []);
            var codes2 := Codes(Some(Leaf('\n', 2)), []);
            PadBits(Payload(Histogram(one), codes1, one)) == PadBits(Payload(Histogram(two), codes2, two))
  {
    var one, two := Text([""]), Text(["", ""]);
    assert one == "\n" by {
      assert [""][..0] == [];
    }
    assert two == "\n\n" by {
      assert ["", ""][..1] == [""];
      assert [""][..0] == [];
    }
    var codes := map['\n' := ""];
    SingleLeafCode('\n', 1);
    SingleLeafCode('\n', 2);
    assert Encoded(codes, one) == [] by {
      assert one[..0] == [];
    }
    assert Encoded(codes, two) == [] by {
      assert two[..1] == one;
      assert one[..0] == [];
    }
    HeaderCountsPayload(codes, one);
    HeaderCountsPayload(codes, two);
  }

  /** The corrected tree: a root that is a leaf is hung as the left child
      of a merged node, so that its character gets the code "1"; any other
      root is kept. */
  function WrapLoneLeaf(root: Node): (r: Node)
    ensures r.c == Sentinel
    ensures root.c != Sentinel ==> Codes(Some(r), []) == map[root.c := "1"]
    ensures root.c == Sentinel ==> r == root
  {
    if root.c != Sentinel then
      assert [] + "1" == "1";
      MakeNode(Sentinel, root.f, Some(root), None)
    else root
  }

  /** With the corrected tree, a text of any number of copies of one
      character is restored by the corrected decoder. */
  lemma LoneLeafRoundTrip(lines: seq<string>, c: char, f: int, earlier: map<char, string>, root: Node)
    requires c != Sentinel && root == WrapLoneLeaf(Leaf(c, f))
    requires forall i :: 0 <= i < |Text(lines)| ==> Text(lines)[i] == c
    requires |Text(lines)| <= IntMax
    requires |Encoded(earlier + map[c := "1"], Text(lines))| < Modulus
    ensures Counted(Some(root), PadBits(Payload(Histogram(Text(lines)), earlier + Codes(Some(root), []), Text(lines))))
              == Decoded(Text(lines))
  {
    assert Codes(Some(root), []) == map[c := "1"];
    assert forall x :: x in Text(lines) ==> x in Codes(Some(root), []);
    CompressedRoundTrip(lines, root, earlier);
  }
}
