/** Bits and bytes as the two bit streams see them: bits are 0 or 1, bytes
    are 0..255, and a byte carries its bits most significant first. */
module Bits {
  import opened JavaInt

  /** 2 to the power n. */
  function Pow2(n: nat): (r: nat)
    ensures r >= 1
  {
    if n == 0 then 1 else 2 * Pow2(n - 1)
  }

  /** Thirty-two bits hold exactly the Java int values. */
  lemma Pow2Word()
    ensures Pow2(32) == Modulus
  {
    assert Pow2(16) == 0x1_0000 by {
      assert Pow2(8) == 0x100;
    }
    assert Pow2(24) == 0x100_0000;
  }

  predicate IsBit(b: int) { b == 0 || b == 1 }

  predicate IsByte(b: int) { 0 <= b < 256 }

  predicate AllBits(bs: seq<int>) { forall i :: 0 <= i < |bs| ==> IsBit(bs[i]) }

  predicate AllBytes(bs: seq<int>) { forall i :: 0 <= i < |bs| ==> IsByte(bs[i]) }

  /** n zero bits: the padding of a final byte. */
  function Zeros(n: nat): (z: seq<int>)
    ensures |z| == n && AllBits(z)
    ensures forall i :: 0 <= i < n ==> z[i] == 0
  {
    seq(n, i => 0)
  }

  /** The number that results from shifting the bits in from the right, one
      at a time, most significant first (`buffer = (buffer << 1) | bit`). */
  function BitsValue(bs: seq<int>): int
  {
    if bs == [] then 0 else 2 * BitsValue(bs[..|bs| - 1]) + bs[|bs| - 1]
  }

  /** The n low bits of v, most significant first. */
  function BitsOf(v: nat, n: nat): (bs: seq<int>)
    ensures |bs| == n && AllBits(bs)
  {
    if n == 0 then [] else BitsOf(v / 2, n - 1) + [v % 2]
  }

  /** The eight bits of a byte, most significant first. */
  function ByteBits(b: int): (bs: seq<int>)
    requires IsByte(b)
    ensures |bs| == 8 && AllBits(bs)
  {
    BitsOf(b, 8)
  }

  /** A byte sequence as the bit sequence it carries. */
  function Unpack(bytes: seq<int>): (bs: seq<int>)
    requires AllBytes(bytes)
    ensures |bs| == 8 * |bytes| && AllBits(bs)
  {
    if bytes == [] then [] else ByteBits(bytes[0]) + Unpack(bytes[1..])
  }

  /** A bit sequence of whole bytes as the bytes that carry it. */
  function Pack(bs: seq<int>): (bytes: seq<int>)
    requires |bs| % 8 == 0
    ensures 8 * |bytes| == |bs|
  {
    if bs == [] then [] else [BitsValue(bs[..8])] + Pack(bs[8..])
  }

  /** The bits followed by zeros up to the next byte boundary. */
  function PadBits(bs: seq<int>): (p: seq<int>)
    ensures |p| % 8 == 0 && |bs| <= |p| < |bs| + 8
    ensures p[..|bs|] == bs
  {
    if |bs| % 8 == 0 then bs else bs + Zeros(8 - |bs| % 8)
  }

  /** Number of bytes needed for n bits: the ceiling of n / 8. */
  function ByteCount(n: nat): nat
  {
    (n + 7) / 8
  }

  lemma {:induction false} BitsValueBound(bs: seq<int>)
    requires AllBits(bs)
    ensures 0 <= BitsValue(bs) < Pow2(|bs|)
  {
    if bs != [] {
      BitsValueBound(bs[..|bs| - 1]);
    }
  }

  /** v shifted left by k places (`v << k`), zeros coming in. */
  function ShiftLeft(v: int, k: nat): int
  {
    if k == 0 then v else 2 * ShiftLeft(v, k - 1)
  }

  /** Shifting left by k is shifting k zero bits in. */
  lemma {:induction false} BitsValueZeros(bs: seq<int>, k: nat)
    ensures BitsValue(bs + Zeros(k)) == ShiftLeft(BitsValue(bs), k)
  {
    if k > 0 {
      var s := bs + Zeros(k);
      assert s[..|s| - 1] == bs + Zeros(k - 1);
      assert s[|s| - 1] == 0;
      BitsValueZeros(bs, k - 1);
    } else {
      assert bs + Zeros(k) == bs;
    }
  }

  /** Reading the n low bits of a value back gives the value. */
  lemma {:induction false} BitsOfValue(bs: seq<int>)
    requires AllBits(bs)
    ensures BitsValue(bs) >= 0
    ensures BitsOf(BitsValue(bs), |bs|) == bs
  {
    if bs != [] {
      var init := bs[..|bs| - 1];
      BitsOfValue(init);
      assert bs == init + [bs[|bs| - 1]];
    }
  }

  /** The bits of a value below 2^n give back the value. */
  lemma {:induction false} ValueOfBits(v: nat, n: nat)
    requires v < Pow2(n)
    ensures BitsValue(BitsOf(v, n)) == v
  {
    if n > 0 {
      ValueOfBits(v / 2, n - 1);
      var bs := BitsOf(v, n);
      assert bs[..|bs| - 1] == BitsOf(v / 2, n - 1);
    }
  }

  lemma HalveDiv(v: nat, p: nat)
    requires p >= 1
    ensures (v / 2) / p == v / (2 * p)
  {
    var h, e := v / 2, v % 2;
    var q, r := h / p, h % p;
    assert h == p * q + r;
    assert v == (2 * p) * q + (2 * r + e) by {
      assert v == 2 * h + e;
      assert 2 * (p * q) == (2 * p) * q;
    }
    DivModUnique(v, 2 * p, q, 2 * r + e);
  }

  /** Bit k of a value (counting from the least significant, 0-based) sits
      at position n - 1 - k of its n-bit form: `(v >> k) & 1`. */
  lemma {:induction false} BitsOfAt(v: nat, n: nat, k: nat)
    requires k < n
    ensures BitsOf(v, n)[n - 1 - k] == (v / Pow2(k)) % 2
  {
    if k > 0 {
      BitsOfAt(v / 2, n - 1, k - 1);
      HalveDiv(v, Pow2(k - 1));
    }
  }

  /** The bits of every byte are 0 or 1 and come back in the same order. */
  lemma {:induction false} UnpackPack(bs: seq<int>)
    requires |bs| % 8 == 0 && AllBits(bs)
    ensures AllBytes(Pack(bs))
    ensures Unpack(Pack(bs)) == bs
  {
    if bs != [] {
      BitsValueBound(bs[..8]);
      BitsOfValue(bs[..8]);
      UnpackPack(bs[8..]);
      assert bs == bs[..8] + bs[8..];
    }
  }

  /** Packing the bits of bytes gives the bytes back. */
  lemma {:induction false} PackUnpack(bytes: seq<int>)
    requires AllBytes(bytes)
    ensures Pack(Unpack(bytes)) == bytes
  {
    if bytes != [] {
      var u := Unpack(bytes);
      assert u[..8] == ByteBits(bytes[0]);
      assert u[8..] == Unpack(bytes[1..]);
      ValueOfBits(bytes[0], 8);
      PackUnpack(bytes[1..]);
    }
  }

  lemma {:induction false} UnpackAppend(a: seq<int>, b: seq<int>)
    requires AllBytes(a) && AllBytes(b)
    ensures AllBytes(a + b)
    ensures Unpack(a + b) == Unpack(a) + Unpack(b)
  {
    if a != [] {
      assert (a + b)[1..] == a[1..] + b;
      UnpackAppend(a[1..], b);
    } else {
      assert a + b == b;
    }
  }

  /** Byte k of a packed sequence is the value of bits 8k .. 8k+7, most
      significant first. */
  lemma {:induction false} PackAt(bs: seq<int>, k: nat)
    requires |bs| % 8 == 0 && k < |bs| / 8
    ensures Pack(bs)[k] == BitsValue(bs[8 * k .. 8 * k + 8])
  {
    if k > 0 {
      PackAt(bs[8..], k - 1);
      assert bs[8..][8 * (k - 1) .. 8 * (k - 1) + 8] == bs[8 * k .. 8 * k + 8];
    }
  }

  /** Padding n bits takes the ceiling of n / 8 bytes. */
  lemma PadBitsBytes(bs: seq<int>)
    ensures |PadBits(bs)| == 8 * ByteCount(|bs|)
  {
  }
}
