/** The bit packer: single bits are collected in an 8-bit buffer, most
    significant first, and each full byte goes to the underlying stream. */
module BitOutput {
  import opened Bits

  class BitOutputStream {
    /** Every byte written to the underlying stream so far. */
    var out: seq<int>
    /** The pending bits, shifted in from the right. */
    var buffer: int
    /** How many bits `buffer` holds. */
    var bufferLength: int
    /** Whether `Close` has been called. */
    var closed: bool
    /** The pending bits, first written first. */
    ghost var pending: seq<int>
    ghost var emitted: seq<int>

    /** Between calls the buffer holds fewer than eight bits, and exactly the
        pending ones: its value is theirs read most significant first. */
    ghost predicate Valid()
      reads this
    {
      && 0 <= bufferLength < 8
      && |pending| == bufferLength
      && AllBits(pending)
      && buffer == BitsValue(pending)

      && AllBytes(out)
      && emitted == Unpack(out) + pending
    }

    /** A stream over a sink that already holds the bytes `sink`. */
    constructor (sink: seq<int>)
      requires AllBytes(sink)
      ensures Valid() && !closed
      ensures out == sink && buffer == 0 && bufferLength == 0 && pending == []
    {
      out := sink;
      buffer := 0;
      bufferLength := 0;
      closed := false;
      pending := [];
      emitted := Unpack(sink);
    }

    /** Appends one bit; a value other than 0 or 1 is refused (the source
        throws IllegalArgumentException) and nothing changes. The eighth
        pending bit completes a byte, which is written and the buffer
        emptied. */
    method WriteBit(bit: int) returns (ok: bool)
      requires Valid()
      modifies this
      ensures Valid()
      ensures ok == IsBit(bit)
      ensures !ok ==> unchanged(this)
      ensures ok ==> emitted == old(emitted) + [bit]
      ensures ok && old(bufferLength) == 7 ==>
                out == old(out) + [BitsValue(old(pending) + [bit])] && pending == [] && bufferLength == 0
      ensures ok && old(bufferLength) < 7 ==>
                out == old(out) && pending == old(pending) + [bit] && bufferLength == old(bufferLength) + 1
      ensures closed == old(closed)
    {
      if bit != 0 && bit != 1 {
        return false;
      }
      ghost var bits := pending + [bit];
      ghost var sent := Unpack(out);
      assert emitted + [bit] == sent + bits;
      ShiftIn(pending, bit);
      // (buffer << 1) | bit: the shift leaves the low bit zero
      buffer := buffer * 2 + bit;
      bufferLength := bufferLength + 1;
      pending := bits;
      assert buffer == BitsValue(bits);
      if bufferLength == 8 {
        CompleteByte(out, bits);
        out := out + [buffer];
        assert Unpack(out) == sent + bits;
        buffer := 0;
        bufferLength := 0;
        pending := [];
        assert Unpack(out) + pending == Unpack(out);
      }
      emitted := emitted + [bit];
      ok := true;
    }

    /** Writes the end-of-file marker: the int -1, of which the underlying
        stream keeps the low eight bits, 0xFF. The buffer is left alone. */
    method WriteEndOfFileMarker()
      requires Valid()
      modifies this
      ensures Valid()
      ensures out == old(out) + [0xFF]
      ensures buffer == old(buffer) && bufferLength == old(bufferLength) && pending == old(pending)
      ensures closed == old(closed)
    {
      out := out + [0xFF];
      emitted := Unpack(out) + pending;
    }

    /** Writes the pending bits, if any, as one byte with zeros below them,
        and empties the buffer; with an empty buffer it writes nothing. */
    method Flush()
      requires Valid()
      modifies this
      ensures Valid()
      ensures old(bufferLength) > 0 ==>
                out == old(out) + [BitsValue(old(pending) + Zeros(8 - old(bufferLength)))]
      ensures old(bufferLength) == 0 ==> out == old(out)
      ensures bufferLength == 0 && pending == [] && buffer == 0
      ensures emitted == PadBits(old(emitted))
      ensures closed == old(closed)
    {
      if bufferLength > 0 {
        FlushStep(out, pending);
        ghost var padded := PadBits(emitted);
        // buffer <<= 8 - bufferLength
        buffer := ShiftLeft(buffer, 8 - bufferLength);
        out := out + [buffer];
        buffer := 0;
        bufferLength := 0;
        pending := [];
        emitted := padded;
        assert Unpack(out) + pending == padded;
      } else {
        assert |emitted| % 8 == 0 by {
          WholeBytes(out);
        }
      }
    }

    /** Flushes, then closes the underlying stream. Over a stream that
        started empty, n bits written leave ceil(n / 8) bytes. */
    method Close()
      requires Valid()
      modifies this
      ensures Valid() && closed
      ensures old(bufferLength) > 0 ==>
                out == old(out) + [BitsValue(old(pending) + Zeros(8 - old(bufferLength)))]
      ensures old(bufferLength) == 0 ==> out == old(out)
      ensures bufferLength == 0 && pending == [] && buffer == 0
      ensures emitted == PadBits(old(emitted))
      ensures |out| == ByteCount(|old(emitted)|)
    {
      Flush();
      closed := true;
      PadBitsBytes(old(emitted));
    }
  }

  /** Flushing a partial byte: the pending bits shifted up to the top of a
      byte with zeros below form one byte, which carries those bits and the
      padding of the stream up to the byte boundary. */
  lemma FlushStep(out: seq<int>, pending: seq<int>)
    requires AllBytes(out) && 0 < |pending| < 8 && AllBits(pending)
    ensures ShiftLeft(BitsValue(pending), 8 - |pending|) == BitsValue(pending + Zeros(8 - |pending|))
    ensures IsByte(BitsValue(pending + Zeros(8 - |pending|)))
    ensures AllBytes(out + [BitsValue(pending + Zeros(8 - |pending|))])
    ensures Unpack(out + [BitsValue(pending + Zeros(8 - |pending|))]) == PadBits(Unpack(out) + pending)
  {
    var padded := pending + Zeros(8 - |pending|);
    var b := BitsValue(padded);
    assert ShiftLeft(BitsValue(pending), 8 - |pending|) == b by {
      BitsValueZeros(pending, 8 - |pending|);
    }
    assert IsByte(b) && Unpack([b]) == padded by {
      assert |padded| == 8 && AllBits(padded);
      FinalByte(padded);
    }
    var whole := Unpack(out);
    assert Unpack(out + [b]) == whole + padded by {
      UnpackAppend(out, [b]);
    }
    assert PadBits(whole + pending) == whole + pending + Zeros(8 - |pending|) by {
      PadBitsAppend(whole, pending);
    }
  }

  /** One more bit shifted in from the right doubles the value and adds
      the bit, and the value stays below 2 to the number of bits. */
  lemma ShiftIn(pending: seq<int>, bit: int)
    requires AllBits(pending) && IsBit(bit)
    ensures AllBits(pending + [bit])
    ensures BitsValue(pending + [bit]) == 2 * BitsValue(pending) + bit
    ensures 0 <= BitsValue(pending + [bit]) < Pow2(|pending| + 1)
  {
    var bits := pending + [bit];
    assert bits[..|bits| - 1] == pending;
    BitsValueBound(bits);
  }

  /** A full buffer of eight bits goes out as one byte carrying them. */
  lemma CompleteByte(out: seq<int>, bits: seq<int>)
    requires AllBytes(out) && |bits| == 8 && AllBits(bits)
    ensures IsByte(BitsValue(bits))
    ensures AllBytes(out + [BitsValue(bits)])
    ensures Unpack(out + [BitsValue(bits)]) == Unpack(out) + bits
  {
    FinalByte(bits);
    UnpackAppend(out, [BitsValue(bits)]);
  }

  /** Whole bytes carry a multiple of eight bits. */
  lemma WholeBytes(out: seq<int>)
    requires AllBytes(out)
    ensures |Unpack(out)| % 8 == 0
  {
    var n := |out|;
    assert |Unpack(out)| == 8 * n;
  }

  /** Eight bits make one byte, which carries them back. */
  lemma FinalByte(padded: seq<int>)
    requires |padded| == 8 && AllBits(padded)
    ensures IsByte(BitsValue(padded))
    ensures Unpack([BitsValue(padded)]) == padded
  {
    BitsValueBound(padded);
    BitsOfValue(padded);
  }

  /** Padding after whole bytes pads only the last, partial group. */
  lemma PadBitsAppend(whole: seq<int>, rest: seq<int>)
    requires |whole| % 8 == 0 && 0 < |rest| < 8
    ensures PadBits(whole + rest) == whole + rest + Zeros(8 - |rest|)
  {
  }
}
