/** The bit stream of huffman/huffman.c, over a buffer that it writes or reads in place. */
module BitStreams {
  import opened Bits
  import opened Codes

  class BitStream {
    const buff: array<bv8>
    const base: nat // the original's buff pointer is this index into the buffer
    var buffIndex: nat
    var bitnum: nat

    ghost predicate Valid()
      reads this
    {
      base <= buff.Length < 0x1_0000 && bitnum < 8
    }

    /** Number of bits put or read so far. */
    ghost function Cursor(): (n: nat)
      reads this
    {
      8 * buffIndex + bitnum
    }

    /** The buffer from the base on, as bits. */
    ghost function Stream(): (bits: seq<bool>)
      reads this, buff
      requires Valid()
    {
      Unpack(buff[base..])
    }

    constructor (buff: array<bv8>, base: nat)
      requires base <= buff.Length < 0x1_0000
      ensures Valid() && this.buff == buff && this.base == base && Cursor() == 0
    {
      this.buff, this.base, this.buffIndex, this.bitnum := buff, base, 0, 0;
    }

    /** The step to the next bit that ends both bitstream_put_bit and bitstream_read_bit. */
    method Advance()
      requires Valid() && base + buffIndex < buff.Length
      modifies this
      ensures Valid() && Cursor() == old(Cursor()) + 1
    {
      bitnum := bitnum + 1;
      if bitnum == 8 {
        bitnum := 0;
        buffIndex := (buffIndex + 1) % 0x1_0000;
      }
    }

    /** The write of bitstream_put_bit: ORs one bit into the current byte. */
    method OrCurrent(bit: bv8)
      requires Valid() && base + buffIndex < buff.Length
      modifies buff
      ensures buff[..base] == old(buff[..base])
      ensures buff[base..] == old(buff[base..])[buffIndex := OrBitIn(bit, bitnum, old(buff[base + buffIndex]))]
    {
      var byte := OrBitIn(bit, bitnum, buff[base + buffIndex]);
      SetAt(buff, base, buffIndex, byte);
    }

    method PutBit(bit: bv8)
      requires Valid() && base + buffIndex < buff.Length
      modifies this, buff
      ensures Valid() && Cursor() == old(Cursor()) + 1
      ensures buff[..base] == old(buff[..base])
      ensures Stream() == OrAt(old(Stream()), old(Cursor()), [bit & 1 == 1])
    {
      PutOne(buff[base..], buffIndex, bitnum, bit);
      OrCurrent(bit);
      Advance();
    }

    /** One round of bitstream_put_bits: puts bit `i` of `byte`, which has been shifted down to `b`. */
    method PutNext(b: bv8, ghost byte: bv8, ghost i: nat) returns (b': bv8)
      requires Valid() && base + buffIndex < buff.Length
      requires i < 8 && b == ShiftDown(byte, i)
      modifies this, buff
      ensures Valid() && Cursor() == old(Cursor()) + 1
      ensures buff[..base] == old(buff[..base])
      ensures Stream() == OrAt(old(Stream()), old(Cursor()), [Bit(byte, i)])
      ensures b' == ShiftDown(byte, i + 1)
    {
      NextBit(byte, b, i);
      PutBit(b & 1);
      b' := b >> 1;
    }

    /** Puts the low bits of `byte`, least significant first. */
    method PutBits(byte: bv8, numBits: nat)
      requires Valid() && numBits <= 8 && Cursor() + numBits <= 8 * (buff.Length - base)
      modifies this, buff
      ensures Valid() && Cursor() == old(Cursor()) + numBits
      ensures buff[..base] == old(buff[..base])
      ensures Stream() == OrAt(old(Stream()), old(Cursor()), LowBits(byte, numBits))
    {
      var b, i := byte, 0;
      OrAtNothing(Stream(), Cursor(), LowBits(byte, 0));
      while i < numBits
        invariant i <= numBits && b == ShiftDown(byte, i)
        invariant Valid() && Cursor() == old(Cursor()) + i
        invariant buff[..base] == old(buff[..base])
        invariant Stream() == OrAt(old(Stream()), old(Cursor()), LowBits(byte, i))
      {
        OrAtNext(old(Stream()), old(Cursor()), byte, i);
        b := PutNext(b, byte, i);
        i := i + 1;
      }
    }

    method ReadBit() returns (bit: bv8)
      requires Valid() && base + buffIndex < buff.Length
      modifies this
      ensures Valid() && Cursor() == old(Cursor()) + 1
      ensures old(Cursor()) < |Stream()| && bit == BoolBit(Stream()[old(Cursor())])
    {
      BitInStream(buff[base..], buffIndex, bitnum);
      bit := buff[base + buffIndex] >> bitnum;
      bit := bit & 1;
      OneBit(buff[base + buffIndex], bitnum);
      Advance();
    }
  }

  method SetAt(buff: array<bv8>, base: nat, i: nat, byte: bv8)
    requires base + i < buff.Length
    modifies buff
    ensures buff[..base] == old(buff[..base])
    ensures buff[base..] == old(buff[base..])[i := byte]
  {
    buff[base + i] := byte;
  }

  function OrBitIn(bit: bv8, bitnum: nat, byte: bv8): (r: bv8)
    requires bitnum < 8
  {
    ((bit & 1) << bitnum) | byte
  }

  lemma BitInStream(buff: seq<bv8>, i: nat, bitnum: nat)
    requires i < |buff| && bitnum < 8
    ensures Unpack(buff)[8 * i + bitnum] == Bit(buff[i], bitnum)
  {
    assert (8 * i + bitnum) / 8 == i && (8 * i + bitnum) % 8 == bitnum;
  }

  /** `byte` after `i` rounds of shifting it right by one. */
  function ShiftDown(byte: bv8, i: nat): (b: bv8)
  {
    if i == 0 then byte else ShiftDown(byte, i - 1) >> 1
  }

  lemma {:induction false} ShiftedDown(byte: bv8, i: nat)
    requires i <= 8
    ensures ShiftDown(byte, i) == byte >> i
  {
    if i == 0 {
    } else {
      ShiftedDown(byte, i - 1);
      ShiftOut(byte, i - 1);
    }
  }

  lemma {:induction false} NextBit(byte: bv8, b: bv8, i: nat)
    requires i < 8 && b == ShiftDown(byte, i)
    ensures ((b & 1) & 1 == 1) == Bit(byte, i)
  {
    ShiftedDown(byte, i);
    ShiftOut(byte, i);
  }

  lemma OneBit(b: bv8, i: nat)
    requires i < 8
    ensures (b >> i) & 1 == BoolBit(Bit(b, i))
  {
  }

  lemma PutOneAt(buff: seq<bv8>, i: nat, bitnum: nat, bit: bv8, k: nat)
    requires i < |buff| && bitnum < 8 && k < 8 * |buff|
    ensures Unpack(buff[i := OrBitIn(bit, bitnum, buff[i])])[k] == OrAt(Unpack(buff), 8 * i + bitnum, [bit & 1 == 1])[k]
  {
    OrBit(buff[i], bit, bitnum, k % 8);
    assert k == 8 * (k / 8) + k % 8;
  }

  lemma PutOne(buff: seq<bv8>, i: nat, bitnum: nat, bit: bv8)
    requires i < |buff| && bitnum < 8
    ensures Unpack(buff[i := OrBitIn(bit, bitnum, buff[i])]) == OrAt(Unpack(buff), 8 * i + bitnum, [bit & 1 == 1])
  {
    var after := buff[i := OrBitIn(bit, bitnum, buff[i])];
    forall k | 0 <= k < 8 * |buff|
      ensures Unpack(after)[k] == OrAt(Unpack(buff), 8 * i + bitnum, [bit & 1 == 1])[k]
    {
      PutOneAt(buff, i, bitnum, bit, k);
    }
  }

  lemma OrAtNothing(bits: seq<bool>, pos: nat, none: seq<bool>)
    requires none == []
    ensures OrAt(bits, pos, none) == bits
  {
  }

  lemma OrAtNext(bits: seq<bool>, pos: nat, byte: bv8, i: nat)
    requires i < 8
    ensures OrAt(OrAt(bits, pos, LowBits(byte, i)), pos + i, [Bit(byte, i)]) == OrAt(bits, pos, LowBits(byte, i + 1))
  {
  }

  /** Putting one run of bits and then another is putting both. */
  lemma OrAtConcat(bits: seq<bool>, pos: nat, a: seq<bool>, b: seq<bool>)
    ensures OrAt(OrAt(bits, pos, a), pos + |a|, b) == OrAt(bits, pos, a + b)
  {
  }
}
