/**
 * In-memory models of the bit-granular output and input streams the codec
 * drives. The writer collects bits, most significant first, and on closing
 * packs them into bytes, zero-padding the low bits of a final partial byte.
 * The reader walks the bits of a byte sequence with a cursor.
 */
module BinaryIO {
  import opened Bits
  import opened JavaInt

  class BitWriter {
    var bits: seq<bool>   // bits written and not yet flushed
    var out: seq<byte>    // the bytes, once closed
    var closed: bool

    constructor ()
      ensures bits == [] && out == [] && !closed
    {
      bits, out, closed := [], [], false;
    }

    /** Appends the low `width` bits of `value`, most significant first. */
    method WriteBits(value: nat, width: nat)
      requires !closed && 1 <= width <= 32
      modifies this
      ensures !closed && out == old(out)
      ensures bits == old(bits) + ToBits(value, width)
    {
      var j := 0;
      while j < width
        invariant j <= width && !closed && out == old(out)
        invariant bits == old(bits) + ToBits(value, width)[..j]
      {
        var bit := ShiftRight(value, width - 1 - j) % 2 == 1;
        ToBitsAt(value, width, j);
        assert ToBits(value, width)[..j + 1] == ToBits(value, width)[..j] + [bit];
        bits := bits + [bit];
        j := j + 1;
      }
      assert ToBits(value, width)[..width] == ToBits(value, width);
    }

    /** Appends the eight bits of a byte, most significant first. */
    method WriteByte(b: byte)
      requires !closed
      modifies this
      ensures !closed && out == old(out)
      ensures bits == old(bits) + ToBits(b as nat, 8)
    {
      WriteBits(b as nat, 8);
    }

    /** Appends the 32-bit pattern of an `int`, most significant bit first. */
    method WriteInt(x: int)
      requires !closed && IsInt32(x)
      modifies this
      ensures !closed && out == old(out)
      ensures bits == old(bits) + ToBits(AsUnsigned(x), 32)
    {
      WriteBits(AsUnsigned(x), 32);
    }

    /** Flushes the bits as bytes, the final partial byte zero-padded, and closes the stream. */
    method Close()
      requires !closed
      modifies this
      ensures closed && bits == []
      ensures out == Pack(old(bits))
    {
      out := Pack(bits);
      bits := [];
      closed := true;
    }
  }

  class BitReader {
    const bits: seq<bool>   // the whole input, eight bits per byte
    var pos: nat            // how many bits have been consumed

    ghost predicate Valid()
      reads this
    {
      pos <= |bits|
    }

    /** The number of bits not yet read. */
    function Remaining(): nat
      reads this
      requires Valid()
    {
      |bits| - pos
    }

    constructor (input: seq<byte>)
      ensures Valid() && bits == BytesToBits(input) && pos == 0
    {
      bits, pos := BytesToBits(input), 0;
    }

    /** Consumes the next `width` bits and returns them as an unsigned number, first bit highest. */
    method ReadBits(width: nat) returns (v: nat)
      requires Valid() && 1 <= width <= 32 && width <= Remaining()
      modifies this
      ensures Valid() && pos == old(pos) + width
      ensures v == FromBits(bits[old(pos)..pos])
    {
      v := 0;
      var j := 0;
      while j < width
        invariant j <= width && Valid()
        invariant pos == old(pos) + j
        invariant v == FromBits(bits[old(pos)..pos])
      {
        var bit := bits[pos];
        assert bits[old(pos)..pos + 1] == bits[old(pos)..pos] + [bit];
        FromBitsSnoc(bits[old(pos)..pos], bit);
        v := 2 * v + (if bit then 1 else 0);
        pos := pos + 1;
        j := j + 1;
      }
    }

    /** Consumes the next 32 bits as the pattern of an `int`. */
    method ReadInt() returns (x: int)
      requires Valid() && 32 <= Remaining()
      modifies this
      ensures Valid() && pos == old(pos) + 32
      ensures FromBits(bits[old(pos)..pos]) < Modulus
      ensures x == AsInt32(FromBits(bits[old(pos)..pos]))
    {
      var u := ReadBits(32);
      WordBound(bits[old(pos)..pos]);
      x := AsInt32(u);
    }
  }
}
