/** Bits of bytes and of byte buffers, and the bit-reversal of huffman/huffman.c. */
module Bits {

  /** Bit `i` of a byte, bit 0 being the least significant one. */
  predicate Bit(b: bv8, i: nat)
    requires i < 8
  {
    (b >> i) & 1 == 1
  }

  function BoolBit(bit: bool): (b: bv8)
  {
    if bit then 1 else 0
  }

  /** A buffer read as one bit sequence, least significant bit of each byte first. */
  function Unpack(buff: seq<bv8>): (bits: seq<bool>)
    ensures |bits| == 8 * |buff|
  {
    seq(8 * |buff|, k requires 0 <= k < 8 * |buff| => Bit(buff[k / 8], k % 8))
  }

  /** `bits` with `more` ORed in from position `pos` on. */
  function OrAt(bits: seq<bool>, pos: nat, more: seq<bool>): (r: seq<bool>)
    ensures |r| == |bits|
  {
    seq(|bits|, k requires 0 <= k < |bits| => bits[k] || (pos <= k < pos + |more| && more[k - pos]))
  }

  lemma OrBit(b: bv8, bit: bv8, i: nat, j: nat)
    requires i < 8 && j < 8
    ensures Bit(((bit & 1) << i) | b, j) == (Bit(b, j) || (i == j && bit & 1 == 1))
  {
    assert i == 0 || i == 1 || i == 2 || i == 3 || i == 4 || i == 5 || i == 6 || i == 7;
    assert j == 0 || j == 1 || j == 2 || j == 3 || j == 4 || j == 5 || j == 6 || j == 7;
  }

  /** Two bytes that agree on all their bits are the same byte. */
  lemma SameBits(a: bv8, b: bv8)
    requires forall i :: 0 <= i < 8 ==> Bit(a, i) == Bit(b, i)
    ensures a == b
  {
    assert Bit(a, 0) == Bit(b, 0);
    assert Bit(a, 1) == Bit(b, 1);
    assert Bit(a, 2) == Bit(b, 2);
    assert Bit(a, 3) == Bit(b, 3);
    assert Bit(a, 4) == Bit(b, 4);
    assert Bit(a, 5) == Bit(b, 5);
    assert Bit(a, 6) == Bit(b, 6);
    assert Bit(a, 7) == Bit(b, 7);
  }

  function ReverseBits(b: bv8, numBits: nat): (r: bv8)
    requires numBits <= 8
  {
    var b := ((b & 0xF0) >> 4) | ((b & 0x0F) << 4);
    var b := ((b & 0xCC) >> 2) | ((b & 0x33) << 2);
    var b := ((b & 0xAA) >> 1) | ((b & 0x55) << 1);
    b >> (8 - numBits)
  }

  /** `ReverseBits` really reverses: its bit `j` is bit `numBits - 1 - j` of the input. */
  lemma ReverseBitsReverses(b: bv8, numBits: nat, j: nat)
    requires j < numBits <= 8
    ensures Bit(ReverseBits(b, numBits), j) == Bit(b, numBits - 1 - j)
  {
    assert j == 0 || j == 1 || j == 2 || j == 3 || j == 4 || j == 5 || j == 6 || j == 7;
    assert numBits == 1 || numBits == 2 || numBits == 3 || numBits == 4 || numBits == 5 || numBits == 6 || numBits == 7 || numBits == 8;
  }

  lemma NextByte(b: bv8)
    requires b != 255
    ensures (b + 1) as int == b as int + 1
  {
  }

  lemma {:induction false} SomeByte(x: nat) returns (b: bv8)
    requires x < 0x100
    ensures b as int == x
  {
    if x == 0 {
      b := 0;
    } else {
      var c := SomeByte(x - 1);
      NextByte(c);
      b := c + 1;
    }
  }

  lemma ByteAndBack(b: bv8)
    ensures b as int as bv8 == b
  {
  }

  lemma {:induction false} ByteOfInt(x: nat)
    requires x < 0x100
    ensures x as bv8 as int == x
  {
    var b := SomeByte(x);
    ByteAndBack(b);
  }

  method ToByte(x: nat) returns (b: bv8)
    requires x < 0x100
    ensures b as int == x
  {
    ByteOfInt(x);
    b := x as bv8;
  }

  lemma ShiftIn(code: bv8, bit: bool, j: nat)
    requires j < 8
    ensures Bit((code << 1) | BoolBit(bit), j) == if j == 0 then bit else Bit(code, j - 1)
  {
    assert j == 0 || j == 1 || j == 2 || j == 3 || j == 4 || j == 5 || j == 6 || j == 7;
  }

  lemma ShiftOut(b: bv8, i: nat)
    requires i < 8
    ensures Bit(b, i) == ((b >> i) & 1 == 1)
    ensures (b >> i) >> 1 == b >> (i + 1)
  {
    assert i == 0 || i == 1 || i == 2 || i == 3 || i == 4 || i == 5 || i == 6 || i == 7;
  }
}
