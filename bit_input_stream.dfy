/** The bit unpacker: bytes are taken from the underlying stream one at a
    time and handed out bit by bit, most significant first. */
module BitInput {
  import opened Bits

  class BitInputStream {
    /** The bytes the underlying stream has not yet delivered. */
    var input: seq<int>
    /** The byte currently being handed out. */
    var buffer: int
    /** How many of its low bits are still to be handed out. */
    var bufferLength: int
    /** The bits still to come, in order: the rest of the current byte, then
        the bits of every byte not yet fetched. */
    ghost var remaining: seq<int>

    ghost predicate Valid()
      reads this
    {
      && 0 <= bufferLength <= 8 && IsByte(buffer) && AllBytes(input)
      && remaining == ByteBits(buffer)[8 - bufferLength..] + Unpack(input)
    }

    /** A stream over an underlying source that will deliver `source`. */
    constructor (source: seq<int>)
      requires AllBytes(source)
      ensures Valid()
      ensures input == source && buffer == 0 && bufferLength == 0
      ensures remaining == Unpack(source)
    {
      input := source;
      buffer := 0;
      bufferLength := 0;
      remaining := Unpack(source);
      assert ByteBits(0)[8..] == [];
    }

    /** The next bit, or -1 when the buffer is empty and the source is
        exhausted; -1 changes nothing. A fetched byte supplies eight bits
        before the next one is fetched. */
    method ReadBit() returns (bit: int)
      requires Valid()
      modifies this
      ensures Valid()
      ensures bit == -1 <==> old(remaining) == []
      ensures bit == -1 ==> unchanged(this)
      ensures bit != -1 ==> IsBit(bit) && bit == old(remaining)[0] && remaining == old(remaining)[1..]
      ensures old(bufferLength) == 0 && bit != -1 ==>
                buffer == old(input)[0] && input == old(input)[1..] && bufferLength == 7
      ensures old(bufferLength) > 0 ==>
                buffer == old(buffer) && input == old(input) && bufferLength == old(bufferLength) - 1
    {
      if bufferLength == 0 {
        if input == [] {
          assert remaining == [] by {
            assert ByteBits(buffer)[8..] == [];
          }
          return -1;
        }
        Fetch(buffer, input);
        buffer := input[0];
        input := input[1..];
        bufferLength := 8;
      }
      // (buffer >> (bufferLength - 1)) & 1
      bit := (buffer / Pow2(bufferLength - 1)) % 2;
      NextBit(buffer, bufferLength, Unpack(input));
      bufferLength := bufferLength - 1;
      remaining := remaining[1..];
    }
  }

  /** With the current byte used up, the bits to come are those of the
      next byte, then the rest. */
  lemma Fetch(buffer: int, input: seq<int>)
    requires IsByte(buffer) && AllBytes(input) && input != []
    ensures ByteBits(buffer)[8..] + Unpack(input) == ByteBits(input[0])[8 - 8..] + Unpack(input[1..])
  {
    assert ByteBits(buffer)[8..] == [];
    assert ByteBits(input[0])[0..] == ByteBits(input[0]);
  }

  /** The next bit handed out is bit n - 1 of the buffer, the first of its
      n bits still to come. */
  lemma NextBit(buffer: int, n: int, rest: seq<int>)
    requires IsByte(buffer) && 1 <= n <= 8
    ensures IsBit((buffer / Pow2(n - 1)) % 2)
    ensures ByteBits(buffer)[8 - n..] + rest
              == [(buffer / Pow2(n - 1)) % 2] + (ByteBits(buffer)[8 - (n - 1)..] + rest)
  {
    BitsOfAt(buffer, 8, n - 1);
    var bs := ByteBits(buffer);
    assert bs[8 - n..] == [bs[8 - n]] + bs[8 - (n - 1)..];
  }
}
