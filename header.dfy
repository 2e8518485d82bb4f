/** The 32-bit length header: the total number of payload bits, summed in
    Java int arithmetic over the frequency table, printed by
    Integer.toBinaryString, left-padded with spaces to 32 characters by
    String.format("%32s", ...) and the spaces replaced by '0'. */
module Header {
  import opened JavaInt
  import opened Bits
  import opened Frequency
  import opened HuffmanNode
  import opened HuffmanTree

  /** The length of each character's code; 0 for a character without one. */
  function CodeLength(codes: map<char, string>): char -> int
  {
    c => if c in codes then |codes[c]| else 0
  }

  /** The exact payload size: code length times count, summed over the table. */
  ghost function TotalBits(freq: map<char, int>, codes: map<char, string>): int
  {
    SumOver(freq, CodeLength(codes))
  }

  /** The digit character of a bit. */
  function BitChar(b: int): char
  {
    if b == 0 then '0' else '1'
  }

  function BitChars(bs: seq<int>): (s: string)
    ensures |s| == |bs|
    ensures forall i :: 0 <= i < |bs| ==> s[i] == BitChar(bs[i])
  {
    seq(|bs|, i requires 0 <= i < |bs| => BitChar(bs[i]))
  }

  /** The binary digits of u without leading zeros ("0" for 0). */
  function BinaryDigits(u: nat): (s: string)
    ensures |s| >= 1
  {
    if u < 2 then [BitChar(u)] else BinaryDigits(u / 2) + [BitChar(u % 2)]
  }

  /** Integer.toBinaryString: the digits of the unsigned 32-bit reading. */
  function ToBinaryString(x: int): string
    requires InRange(x)
  {
    BinaryDigits(Unsigned(x))
  }

  /** String.format("%32s", s): spaces on the left up to 32 characters. */
  function Format32(s: string): (r: string)
  {
    if |s| < 32 then seq(32 - |s|, i => ' ') + s else s
  }

  /** String.replace(' ', '0'). */
  function ReplaceSpaces(s: string): (r: string)
    ensures |r| == |s|
  {
    seq(|s|, i requires 0 <= i < |s| => if s[i] == ' ' then '0' else s[i])
  }

  /** The header characters for a bit count. */
  function HeaderChars(bitCount: int): string
    requires InRange(bitCount)
  {
    ReplaceSpaces(Format32(ToBinaryString(bitCount)))
  }

  /** The digits of u are its low bits, as many as the digits are long, and
      there are at most n of them when u < 2^n. */
  lemma {:induction false} BinaryDigitsBits(u: nat, n: nat)
    requires 1 <= n && u < Pow2(n)
    ensures |BinaryDigits(u)| <= n
    ensures u < Pow2(|BinaryDigits(u)|)
    ensures BinaryDigits(u) == BitChars(BitsOf(u, |BinaryDigits(u)|))
  {
    if u >= 2 {
      BinaryDigitsBits(u / 2, n - 1);
    }
  }

  /** Below 2^k, the n-bit form is k bits behind n - k zeros. */
  lemma {:induction false} BitsOfWiden(u: nat, k: nat, n: nat)
    requires k <= n && u < Pow2(k)
    ensures BitsOf(u, n) == Zeros(n - k) + BitsOf(u, k)
  {
    if n > 0 {
      if k > 0 {
        BitsOfWiden(u / 2, k - 1, n - 1);
      } else {
        BitsOfWiden(u / 2, 0, n - 1);
      }
    }
  }

  /** The header is the 32-bit unsigned reading of the count, most
      significant bit first, zeros on the left. */
  lemma HeaderIsBinary(bitCount: int)
    requires InRange(bitCount)
    ensures |HeaderChars(bitCount)| == 32
    ensures IsCode(HeaderChars(bitCount))
    ensures CodeBits(HeaderChars(bitCount)) == BitsOf(Unsigned(bitCount), 32)
  {
    var u := Unsigned(bitCount);
    Pow2Word();
    BinaryDigitsBits(u, 32);
    var d := BinaryDigits(u);
    var low := BitsOf(u, |d|);
    BitsOfWiden(u, |d|, 32);
    assert HeaderChars(bitCount) == BitChars(Zeros(32 - |d|) + low) by {
      PadDigits(low, 32 - |d|);
    }
    BitCharsBits(BitsOf(u, 32));
  }

  /** Left-padding the digits of some bits to 32 characters with '0' is
      writing the bits behind as many zero bits. */
  lemma PadDigits(bits: seq<int>, k: nat)
    requires |bits| + k == 32
    ensures ReplaceSpaces(Format32(BitChars(bits))) == BitChars(Zeros(k) + bits)
  {
    var d := BitChars(bits);
    var r := ReplaceSpaces(Format32(d));
    var z := BitChars(Zeros(k) + bits);
    assert forall i :: 0 <= i < |d| ==> d[i] != ' ';
    forall i | 0 <= i < 32
      ensures r[i] == z[i]
    {
      if i >= k {
        assert (Zeros(k) + bits)[i] == bits[i - k];
      }
    }
  }

  /** The digit characters of bits read back as those bits. */
  lemma BitCharsBits(bits: seq<int>)
    requires AllBits(bits)
    ensures IsCode(BitChars(bits))
    ensures CodeBits(BitChars(bits)) == bits
  {
  }

  /** countTotalBits: the code length times the count of every table entry,
      summed in Java int arithmetic, as a 32-character binary string. A
      table key without a code stops it (the source dereferences null). */
  method CountTotalBits(freq: map<char, int>, codes: map<char, string>) returns (header: Option<string>)
    ensures header.None? <==> exists c :: c in freq && c !in codes
    ensures header.Some? ==> header.value == HeaderChars(Wrap32(TotalBits(freq, codes)))
  {
    var bitCount := 0;
    var rest := freq;
    ghost var w := CodeLength(codes);
    ghost var total := Wrap32(TotalBits(freq, codes));
    while rest != map[]
      invariant forall c :: c in rest ==> c in freq && rest[c] == freq[c]
      invariant forall c :: c in freq && c !in rest ==> c in codes
      invariant InRange(bitCount)
      invariant Wrap32(bitCount + SumOver(rest, w)) == total
      decreases rest.Keys
    {
      var k :| k in rest;
      if k !in codes {
        return None;
      }
      var len := |codes[k]|;
      ghost var rest0, bitCount0 := rest, bitCount;
      bitCount := Wrap32(bitCount + Wrap32(len * rest[k]));
      rest := rest - {k};
      AddEntry(rest0, w, k, len, bitCount0, total, rest, bitCount);
    }
    assert SumOver(rest, w) == 0;
    return Some(HeaderChars(bitCount));
  }

  /** Adding one entry's product to the running count in Java int
      arithmetic keeps the count plus the rest of the sum the same modulo
      2^32. */
  lemma AddEntry(rest: map<char, int>, w: char -> int, k: char, len: int, bitCount: int, total: int,
                  rest': map<char, int>, bitCount': int)
    requires k in rest && len == w(k)
    requires Wrap32(bitCount + SumOver(rest, w)) == total
    requires rest' == rest - {k} && bitCount' == Wrap32(bitCount + Wrap32(len * rest[k]))
    ensures Wrap32(bitCount' + SumOver(rest', w)) == total
  {
    var t := len * rest[k];
    var more := SumOver(rest - {k}, w);
    SumOverRemove(rest, w, k);
    Wrap32Inner(bitCount + Wrap32(t), more);
    Wrap32Inner(t, bitCount + more);
    assert Wrap32(t) + (bitCount + more) == bitCount + Wrap32(t) + more;
    assert t + (bitCount + more) == bitCount + SumOver(rest, w);
  }

  /** The header counts the payload bits, modulo 2^32: the table of the
      text weighs each character by its code length, and the payload holds
      each character's code bits. */
  lemma HeaderCountsPayload(codes: map<char, string>, s: string)
    requires |s| <= IntMax
    ensures TotalBits(Histogram(s), codes) == |Encoded(codes, s)|
    ensures BitsValue(CodeBits(HeaderChars(Wrap32(TotalBits(Histogram(s), codes))))) == |Encoded(codes, s)| % Modulus
  {
    SumOverHistogram(s, CodeLength(codes));
    EncodedLength(codes, s);
    var x := Wrap32(TotalBits(Histogram(s), codes));
    HeaderIsBinary(x);
    UnsignedWrap32(|Encoded(codes, s)|);
    Pow2Word();
    ValueOfBits(Unsigned(x), 32);
  }

  /** The payload is as long as the code lengths of its characters add up to. */
  lemma {:induction false} EncodedLength(codes: map<char, string>, s: string)
    ensures |Encoded(codes, s)| == WeightOf(s, CodeLength(codes))
  {
    if s != [] {
      EncodedLength(codes, s[..|s| - 1]);
    }
  }
}
