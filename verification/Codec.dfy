/** The compressed block of huffman_compress, what huffman_inflate makes of a block, and when one undoes the other. */
module Codec {
  import opened Bits
  import opened HuffmanTree
  import opened Serial
  import opened Codes
  import opened TextCode

  const TREE_MAX_SIZE := 117 // ALPHABET_SIZE * 2 - 1
  const QUEUE_MAX_SIZE := 59 // ALPHABET_SIZE

  /** A tree over `n` bytes fits both pools, of records and of cells, if and only if there are at most 30. */
  lemma PoolLimit(n: nat)
    ensures 2 * n - 1 <= QUEUE_MAX_SIZE && 2 * n - 1 <= TREE_MAX_SIZE <==> n <= 30
  {
  }

  /** inflate_data from bit `pos` on. Both bit counters of the original wrap: 8 bits per byte, 16 bits in all. */
  function InflateBits(t: Tree, bits: seq<bool>, pos: nat, bitsRead: nat, total: nat, dataSize: nat): (r: Option<seq<bv8>>)
    requires !t.Nil?
    decreases |bits| - pos
  {
    if bitsRead < total && pos / 8 < dataSize then
      var w := Walk(t, bits, pos);
      if w.None? then None
      else
        var (byte, next) := w.value;
        var rest := InflateBits(t, bits, next, (bitsRead + (next - pos) % 0x100) % 0x1_0000, total, dataSize);
        if rest.None? then None else Some([byte] + rest.value)
    else Some([])
  }

  /**
   huffman_inflate: the bytes written, or `None` where the original leaves its memory: the block is
   too short, its tree is missing or has more nodes than the block says, or the bits run out.
   */
  function Inflate(block: seq<bv8>, dataSize: nat): (r: Option<seq<bv8>>)
  {
    var tree := Parse(block, 3);
    if tree.None? || tree.value.0.Nil? || Size(tree.value.0) > block[0] as int then None
    else
      var (t, end) := tree.value;
      InflateBits(t, Unpack(block[end..]), 0, 0, 0x100 * (block[1] as int) + block[2] as int, dataSize)
  }

  /** Bytes `s` written over the beginning of `buff`. */
  function Overwrite(buff: seq<bv8>, s: seq<bv8>): (r: seq<bv8>)
    requires |s| <= |buff|
    ensures |r| == |buff|
  {
    s + buff[|s|..]
  }

  /** The output buffer has room for the header, the serial tree and the code bits of the text. */
  ghost predicate Room(data: seq<bv8>, length: nat)
    requires data != []
  {
    var t := CodecTree(TextTree(data));
    3 + |Serialize(t)| <= length && 8 * (3 + Size(t)) + |TextBits(data)| <= 8 * length
  }

  /**
   What huffman_compress makes of a buffer: node count, 16-bit bit count, serial tree from byte 3 on, and
   the code bits ORed in right behind as many bytes as the tree has nodes.
   */
  ghost predicate Compressed(data: seq<bv8>, before: seq<bv8>, after: seq<bv8>)
    requires data != []
  {
    var t, bits := CodecTree(TextTree(data)), TextBits(data);
    && Room(data, |before|) && |after| == |before|
    && after[0] as int == Size(t) % 0x100
    && after[1] as int == |bits| % 0x1_0000 / 0x100
    && after[2] as int == |bits| % 0x100
    && Unpack(after[3..]) == OrAt(Unpack(Overwrite(before[3..], Serialize(t))), 8 * Size(t), bits)
  }

  // ----- no block inflates to a mark

  /** No byte is zero, '*' or '-'. */
  ghost predicate NoMarks(data: seq<bv8>)
  {
    forall k :: 0 <= k < |data| ==> data[k] != 0 && data[k] != 42 && data[k] != 45
  }

  lemma {:induction false} InflateBitsUnmarked(t: Tree, bits: seq<bool>, pos: nat, bitsRead: nat, total: nat, dataSize: nat)
    requires !t.Nil? && Unmarked(t)
    requires InflateBits(t, bits, pos, bitsRead, total, dataSize).Some?
    ensures NoMarks(InflateBits(t, bits, pos, bitsRead, total, dataSize).value)
    decreases |bits| - pos
  {
    if bitsRead >= total || pos / 8 >= dataSize {
    } else {
      var next := Walk(t, bits, pos).value.1;
      WalkUnmarked(t, bits, pos);
      InflateBitsUnmarked(t, bits, next, (bitsRead + (next - pos) % 0x100) % 0x1_0000, total, dataSize);
    }
  }

  /** Whatever the block, huffman_inflate never writes a zero, a '*' or a '-'. */
  lemma {:induction false} InflateUnmarked(block: seq<bv8>, dataSize: nat)
    requires Inflate(block, dataSize).Some?
    ensures NoMarks(Inflate(block, dataSize).value)
  {
    var (t, end) := Parse(block, 3).value;
    ParsedIsUnmarked(block, 3);
    InflateBitsUnmarked(t, Unpack(block[end..]), 0, 0, 0x100 * (block[1] as int) + block[2] as int, dataSize);
  }

  // ----- a block whose tree is one leaf

  lemma {:induction false} LeafBits(t: Tree, bits: seq<bool>, pos: nat, total: nat, dataSize: nat) returns (out: seq<bv8>)
    requires t.Leaf? && pos <= total <= |bits| && total < 0x1_0000 && total <= 8 * dataSize
    ensures InflateBits(t, bits, pos, pos, total, dataSize) == Some(out)
    ensures |out| == total - pos && forall k :: 0 <= k < |out| ==> out[k] == 63
    decreases total - pos
  {
    if pos == total {
      out := [];
    } else {
      assert Walk(t, bits, pos).value.1 == pos + 1;
      var rest := LeafBits(t, bits, pos + 1, total, dataSize);
      out := [63] + rest;
    }
  }

  /** The walk never ends on the root, so that such a block gives a question mark for every bit and never its own byte. */
  lemma {:induction false} LeafBlock(block: seq<bv8>, dataSize: nat, total: nat) returns (out: seq<bv8>)
    requires |block| > 3 && block[0] as int >= 1 && block[3] != 0 && block[3] != 42 && block[3] != 45
    requires total == 0x100 * (block[1] as int) + block[2] as int && total <= 8 * (|block| - 4) && total <= 8 * dataSize
    ensures Inflate(block, dataSize) == Some(out) && |out| == total && forall k :: 0 <= k < total ==> out[k] == 63
  {
    var t := LeafParsed(block);
    var bits := Unpack(block[4..]);
    HeaderTotal(block[1], block[2]);
    out := LeafBits(t, bits, 0, total, dataSize);
    LeafInflated(block, t, bits, total, dataSize, out);
  }

  lemma {:induction false} LeafParsed(block: seq<bv8>) returns (t: Tree)
    requires |block| > 3 && block[3] != 0 && block[3] != 42 && block[3] != 45
    ensures t.Leaf? && Size(t) == 1 && Parse(block, 3) == Some((t, 4))
  {
    t := Leaf(0, block[3]);
  }

  lemma {:induction false} LeafInflated(block: seq<bv8>, t: Tree, bits: seq<bool>, total: nat, dataSize: nat, out: seq<bv8>)
    requires |block| > 3 && block[0] as int >= 1 && t.Leaf? && Size(t) == 1 && Parse(block, 3) == Some((t, 4))
    requires total == 0x100 * (block[1] as int) + block[2] as int && bits == Unpack(block[4..])
    requires InflateBits(t, bits, 0, 0, total, dataSize) == Some(out)
    ensures Inflate(block, dataSize) == Some(out)
  {
  }

  lemma HeaderTotal(hi: bv8, lo: bv8)
    ensures 0x100 * (hi as int) + lo as int < 0x1_0000
  {
  }

  // ----- decoding the code of a text

  /** The loop of inflate_data goes on at bit `start`: 16-bit counters, and a byte of the stream left to read. */
  predicate GoesOnAt(start: nat, total: nat, dataSize: nat)
  {
    start % 0x1_0000 < total % 0x1_0000 && start / 8 < dataSize
  }

  /** The guard of the loop of inflate_data, when it is about to decode byte `i`. */
  predicate GoesOn(data: seq<bv8>, dataSize: nat, i: nat)
    requires data != [] && i <= |data|
  {
    GoesOnAt(CodeStart(data, i), |TextBits(data)|, dataSize)
  }

  /** The loop goes on until it has decoded the last byte. */
  ghost predicate StreamFits(data: seq<bv8>, dataSize: nat)
    requires data != []
  {
    forall i :: 0 <= i < |data| ==> GoesOn(data, dataSize, i)
  }

  lemma {:induction false} SliceOfPrefix(bits: seq<bool>, n: nat, a: nat, b: nat)
    requires a <= b <= n <= |bits|
    ensures bits[..n][a..b] == bits[a..b]
  {
  }

  /** Decoding one byte of the text moves from its code to the next one. */
  lemma {:induction false} DecodeStep(data: seq<bv8>, bits: seq<bool>, i: nat)
    requires data != [] && NonZero(data) && CodecTree(TextTree(data)).Branch?
    requires |TextBits(data)| <= |bits| && bits[..|TextBits(data)|] == TextBits(data)
    requires i < |data|
    ensures Walk(CodecTree(TextTree(data)), bits, CodeStart(data, i)) == Some((data[i], CodeStart(data, i + 1)))
    ensures CodeStart(data, i + 1) == CodeStart(data, i) + |Lookup(TextRoutes(data), data[i])|
  {
    var rs, a, b := TextRoutes(data), CodeStart(data, i), CodeStart(data, i + 1);
    EncodePart(rs, data, i);
    TextCodeLeads(data, i);
    SliceOfPrefix(bits, |TextBits(data)|, a, b);
    WalkDecodes(CodecTree(TextTree(data)), Lookup(rs, data[i]), data[i], bits, a);
  }

  lemma {:induction false} InflateNext(
      t: Tree, bits: seq<bool>, pos: nat, bitsRead: nat, total: nat, dataSize: nat, byte: bv8, next: nat, bitsRead': nat, rest: seq<bv8>)
    requires !t.Nil? && bitsRead < total && pos / 8 < dataSize && Walk(t, bits, pos) == Some((byte, next))
    requires bitsRead' == (bitsRead + (next - pos) % 0x100) % 0x1_0000
    requires InflateBits(t, bits, next, bitsRead', total, dataSize) == Some(rest)
    ensures InflateBits(t, bits, pos, bitsRead, total, dataSize) == Some([byte] + rest)
  {
  }

  /** The code of byte `i` lies between `starts[i]` and `starts[i + 1]`. */
  ghost predicate DecodedAt(t: Tree, bits: seq<bool>, data: seq<bv8>, starts: seq<nat>, i: nat)
    requires !t.Nil? && i < |data| && |starts| == |data| + 1
  {
    Walk(t, bits, starts[i]) == Some((data[i], starts[i + 1])) && starts[i + 1] <= starts[i] + 8
  }

  /** inflate_data writes bytes up to the first one at which the loop does not go on. */
  lemma {:induction false} InflateFrom(t: Tree, bits: seq<bool>, data: seq<bv8>, starts: seq<nat>, dataSize: nat, i: nat) returns (k: nat)
    requires !t.Nil? && i <= |data| && |starts| == |data| + 1
    requires forall j :: 0 <= j < |data| ==> DecodedAt(t, bits, data, starts, j)
    ensures i <= k <= |data| && (forall j :: i <= j < k ==> GoesOnAt(starts[j], starts[|data|], dataSize))
    ensures k < |data| ==> !GoesOnAt(starts[k], starts[|data|], dataSize)
    ensures InflateBits(t, bits, starts[i], starts[i] % 0x1_0000, starts[|data|] % 0x1_0000, dataSize) == Some(data[i..k])
    decreases |data| - i
  {
    if i < |data| && GoesOnAt(starts[i], starts[|data|], dataSize) {
      assert DecodedAt(t, bits, data, starts, i);
      CountersAgree(starts[i], starts[i + 1] - starts[i]);
      k := InflateFrom(t, bits, data, starts, dataSize, i + 1);
      InflateNext(t, bits, starts[i], starts[i] % 0x1_0000, starts[|data|] % 0x1_0000, dataSize,
                  data[i], starts[i + 1], starts[i + 1] % 0x1_0000, data[i + 1..k]);
      assert [data[i]] + data[i + 1..k] == data[i..k];
    } else {
      k := i;
      assert data[i..k] == [];
    }
  }

  lemma CountersAgree(a: nat, len: nat)
    requires len <= 8
    ensures (a % 0x1_0000 + len % 0x100) % 0x1_0000 == (a + len) % 0x1_0000
  {
  }

  // ----- weights play no part in decoding

  lemma {:induction false} WalkUnweighted(t: Tree, bits: seq<bool>, pos: nat)
    requires !t.Nil?
    ensures !Unweighted(t).Nil? && Walk(Unweighted(t), bits, pos) == Walk(t, bits, pos)
    decreases t
  {
    if pos >= |bits| || !t.Branch? {
    } else {
      var next := if bits[pos] then t.right else t.left;
      if next.Branch? {
        WalkUnweighted(next, bits, pos + 1);
      }
    }
  }

  lemma {:induction false} InflateUnweighted(t: Tree, bits: seq<bool>, pos: nat, bitsRead: nat, total: nat, dataSize: nat)
    requires !t.Nil? && !Unweighted(t).Nil?
    ensures InflateBits(Unweighted(t), bits, pos, bitsRead, total, dataSize)
            == InflateBits(t, bits, pos, bitsRead, total, dataSize)
    decreases |bits| - pos
  {
    WalkUnweighted(t, bits, pos);
    if bitsRead >= total || pos / 8 >= dataSize || Walk(t, bits, pos).None? {
    } else {
      var next := Walk(t, bits, pos).value.1;
      InflateUnweighted(t, bits, next, (bitsRead + (next - pos) % 0x100) % 0x1_0000, total, dataSize);
    }
  }

  // ----- the block read back

  lemma {:induction false} ItemsUnmarked(h: HTree)
    requires forall i :: 0 <= i < |Items(h)| ==> Items(h)[i].Item? && !IsMark(Items(h)[i].byte)
    ensures Unmarked(CodecTree(h))
  {
    if h.Join? {
      var l, r := Items(h.left), Items(h.right);
      assert forall i :: 0 <= i < |l| ==> l[i] == Items(h)[i];
      assert forall i :: 0 <= i < |r| ==> r[i] == Items(h)[|l| + i];
      ItemsUnmarked(h.left);
      ItemsUnmarked(h.right);
    } else {
      assert Items(h)[0] == h;
    }
  }

  lemma {:induction false} TextTreeUnmarked(data: seq<bv8>)
    requires data != [] && NoMarks(data)
    ensures Unmarked(CodecTree(TextTree(data)))
    ensures |Serialize(CodecTree(TextTree(data)))| == Size(CodecTree(TextTree(data))) == 2 * |BuildQueue(data)| - 1
  {
    var h := TextTree(data);
    var items, q := Items(h), BuildQueue(data);
    TextItems(data);
    TextTreeCounts(data);
    BuildQueueCounts(data);
    BuildTreeConserves(q);
    ItemsOfItems(q);
    forall i | 0 <= i < |items| ensures !IsMark(items[i].byte) {
      assert items[i] in multiset(items);
      assert items[i] in q;
      OccursSomewhere(data, items[i].byte);
    }
    ItemsUnmarked(h);
    CodecTreeFull(h);
    FullTree(h);
    SerialLength(CodecTree(h));
  }

  /** Bits ORed in behind the serial tree leave its bytes alone. */
  lemma {:induction false} BytesBefore(buff: seq<bv8>, base: seq<bv8>, pos: nat, bits: seq<bool>, k: nat)
    requires Unpack(buff) == OrAt(Unpack(base), 8 * pos, bits)
    requires k < pos <= |buff|
    ensures |buff| == |base| && buff[k] == base[k]
  {
    assert |Unpack(buff)| == |Unpack(base)|;
    forall j | 0 <= j < 8 ensures Bit(buff[k], j) == Bit(base[k], j) {
      assert (8 * k + j) / 8 == k && (8 * k + j) % 8 == j;
      assert Unpack(buff)[8 * k + j] == Unpack(base)[8 * k + j];
    }
    SameBits(buff[k], base[k]);
  }

  /** Bits ORed into zero bytes are read back. */
  lemma {:induction false} BitsBehind(buff: seq<bv8>, base: seq<bv8>, pos: nat, bits: seq<bool>)
    requires Unpack(buff) == OrAt(Unpack(base), 8 * pos, bits)
    requires pos <= |base| && 8 * pos + |bits| <= 8 * |base|
    requires forall k :: pos <= k < |base| ==> base[k] == 0
    ensures |buff| == |base| && |bits| <= 8 * |buff[pos..]|
    ensures Unpack(buff[pos..])[..|bits|] == bits
  {
    assert |Unpack(buff)| == |Unpack(base)|;
    forall m | 0 <= m < |bits| ensures Unpack(buff[pos..])[m] == bits[m] {
      assert (8 * pos + m) / 8 == pos + m / 8 && (8 * pos + m) % 8 == m % 8;
      assert Unpack(buff[pos..])[m] == Unpack(buff)[8 * pos + m];
      ZeroBits(m % 8);
      assert !Unpack(base)[8 * pos + m];
    }
  }

  lemma ZeroBits(i: nat)
    requires i < 8
    ensures !Bit(0, i)
  {
    assert i == 0 || i == 1 || i == 2 || i == 3 || i == 4 || i == 5 || i == 6 || i == 7;
  }

  ghost predicate Zeroed(buff: seq<bv8>)
  {
    forall k :: 0 <= k < |buff| ==> buff[k] == 0
  }

  /** Behind the header stand a serial tree and, over zeros, bits. */
  ghost predicate TreeAndBits(before: seq<bv8>, after: seq<bv8>, t: Tree, bits: seq<bool>)
  {
    && Unmarked(t) && |Serialize(t)| == Size(t) && Zeroed(before)
    && |after| == |before| && 3 + Size(t) <= |before| && 8 * (3 + Size(t)) + |bits| <= 8 * |before|
    && Unpack(after[3..]) == OrAt(Unpack(Overwrite(before[3..], Serialize(t))), 8 * Size(t), bits)
  }

  lemma {:induction false} TreeBytes(before: seq<bv8>, after: seq<bv8>, s: seq<bv8>, bits: seq<bool>)
    requires |after| == |before| && 3 + |s| <= |before|
    requires Unpack(after[3..]) == OrAt(Unpack(Overwrite(before[3..], s)), 8 * |s|, bits)
    ensures after[3..3 + |s|] == s
  {
    forall k | 0 <= k < |s| ensures after[3 + k] == s[k] {
      BytesBefore(after[3..], Overwrite(before[3..], s), |s|, bits, k);
    }
  }

  /** The block of a text with `n` distinct bytes, none a mark: `n - 1` stars, the first right behind the header, and no dash. */
  lemma {:induction false} BlockMarks(data: seq<bv8>, before: seq<bv8>, after: seq<bv8>) returns (n: nat, tree: seq<bv8>)
    requires data != [] && NoMarks(data) && Compressed(data, before, after)
    ensures n == |BuildQueue(data)| > 0 && 2 * n + 2 <= |after| && tree == after[3..2 * n + 2]
    ensures Occurrences(tree, 42) == n - 1 && Occurrences(tree, 45) == 0 && (n > 1 ==> after[3] == 42)
  {
    var t := CodecTree(TextTree(data));
    n, tree := |BuildQueue(data)|, Serialize(t);
    TextTreeUnmarked(data);
    SerialMarks(t);
    SerialLength(t);
    FullSize(t);
    TreeBytes(before, after, tree, TextBits(data));
    assert after[3] == after[3..3 + |tree|][0];
  }

  lemma {:induction false} TreeReadBack(before: seq<bv8>, after: seq<bv8>, t: Tree, bits: seq<bool>)
    requires TreeAndBits(before, after, t, bits)
    ensures Parse(after, 3) == Some((Unweighted(t), 3 + Size(t)))
  {
    TreeBytes(before, after, Serialize(t), bits);
    SerialRoundTrip(t, after, 3);
  }

  lemma {:induction false} BitsReadBack(before: seq<bv8>, after: seq<bv8>, t: Tree, bits: seq<bool>)
    requires TreeAndBits(before, after, t, bits)
    ensures |bits| <= 8 * |after[3 + Size(t)..]| && Unpack(after[3 + Size(t)..])[..|bits|] == bits
  {
    var n := Size(t);
    BitsBehind(after[3..], Overwrite(before[3..], Serialize(t)), n, bits);
    assert after[3..][n..] == after[3 + n..];
  }

  lemma {:induction false} BlockParts(data: seq<bv8>, before: seq<bv8>, after: seq<bv8>)
    requires data != [] && NoMarks(data) && Zeroed(before) && Compressed(data, before, after)
    ensures TreeAndBits(before, after, CodecTree(TextTree(data)), TextBits(data))
  {
    TextTreeUnmarked(data);
  }

  lemma LowByte(total: nat)
    ensures total % 0x1_0000 % 0x100 == total % 0x100
  {
    assert total == 0x100 * (0x100 * (total / 0x1_0000)) + total % 0x1_0000;
  }

  lemma HeaderBits(total: nat)
    ensures 0x100 * (total % 0x1_0000 / 0x100) + total % 0x100 == total % 0x1_0000
  {
    LowByte(total);
  }

  lemma FitsByte(n: nat)
    requires n < 0x100
    ensures n % 0x100 == n
  {
  }

  lemma {:induction false} InflateReads(block: seq<bv8>, t: Tree, end: nat, total: nat, dataSize: nat)
    requires !t.Nil? && Parse(block, 3) == Some((Unweighted(t), end)) && block[0] as int == Size(t)
    requires block[1] as int == total % 0x1_0000 / 0x100 && block[2] as int == total % 0x100
    ensures Inflate(block, dataSize) == InflateBits(t, Unpack(block[end..]), 0, 0, total % 0x1_0000, dataSize)
  {
    UnweightedSize(t);
    HeaderBits(total);
    assert !Unweighted(t).Nil?;
    InflateUnweighted(t, Unpack(block[end..]), 0, 0, total % 0x1_0000, dataSize);
  }

  /** On the block of a text, huffman_inflate decodes the stream of its code bits with its own tree. */
  lemma {:induction false} InflateBlock(data: seq<bv8>, before: seq<bv8>, after: seq<bv8>, t: Tree, dataSize: nat)
    returns (stream: seq<bool>)
    requires data != [] && NoMarks(data) && 2 * |BuildQueue(data)| - 1 <= QUEUE_MAX_SIZE
    requires Zeroed(before) && Compressed(data, before, after) && t == CodecTree(TextTree(data))
    ensures |TextBits(data)| <= |stream| && stream[..|TextBits(data)|] == TextBits(data)
    ensures Inflate(after, dataSize) == InflateBits(t, stream, 0, 0, |TextBits(data)| % 0x1_0000, dataSize)
  {
    BlockParts(data, before, after);
    TreeReadBack(before, after, t, TextBits(data));
    BitsReadBack(before, after, t, TextBits(data));
    TextTreeUnmarked(data);
    FitsByte(Size(t));
    InflateReads(after, t, 3 + Size(t), |TextBits(data)|, dataSize);
    stream := Unpack(after[3 + Size(t)..]);
  }

  /**
   Exactly when inflating a compressed text gives it back. The text must not hold one of the three
   marks, and the loop of inflate_data, which compares 16-bit bit counts and whole bytes read, must not
   stop before the last byte. (A text of a single distinct byte has no bits at all, so its loop stops at once.)
   */
  lemma {:induction false} RoundTripIff(data: seq<bv8>, before: seq<bv8>, after: seq<bv8>, dataSize: nat)
    requires data != [] && CodesFit(data) && 2 * |BuildQueue(data)| - 1 <= QUEUE_MAX_SIZE
    requires Zeroed(before) && Compressed(data, before, after)
    ensures Inflate(after, dataSize) == Some(data) <==> NoMarks(data) && StreamFits(data, dataSize)
  {
    if !NoMarks(data) {
      if Inflate(after, dataSize).Some? {
        InflateUnmarked(after, dataSize);
      }
    } else {
      var t := CodecTree(TextTree(data));
      var stream := InflateBlock(data, before, after, t, dataSize);
      DecodeText(data, t, stream, dataSize);
    }
  }

  lemma {:induction false} TextDecoded(data: seq<bv8>, t: Tree, bits: seq<bool>) returns (starts: seq<nat>)
    requires data != [] && NonZero(data) && CodesFit(data) && t == CodecTree(TextTree(data)) && t.Branch?
    requires |TextBits(data)| <= |bits| && bits[..|TextBits(data)|] == TextBits(data)
    ensures |starts| == |data| + 1 && (forall i :: 0 <= i <= |data| ==> starts[i] == CodeStart(data, i))
    ensures forall i :: 0 <= i < |data| ==> DecodedAt(t, bits, data, starts, i)
  {
    starts := seq(|data| + 1, i requires 0 <= i <= |data| => CodeStart(data, i));
    forall i | 0 <= i < |data| ensures DecodedAt(t, bits, data, starts, i) {
      DecodeStep(data, bits, i);
      LookupLength(TextRoutes(data), data[i], 8);
    }
  }

  lemma {:induction false} DecodeText(data: seq<bv8>, t: Tree, bits: seq<bool>, dataSize: nat)
    requires data != [] && NonZero(data) && CodesFit(data) && t == CodecTree(TextTree(data))
    requires |TextBits(data)| <= |bits| && bits[..|TextBits(data)|] == TextBits(data)
    ensures InflateBits(t, bits, 0, 0, |TextBits(data)| % 0x1_0000, dataSize) == Some(data) <==> StreamFits(data, dataSize)
  {
    assert data[..0] == [] && data[..|data|] == data;
    assert CodeStart(data, 0) == 0 && CodeStart(data, |data|) == |TextBits(data)|;
    if t.Leaf? {
      LeafRoot(data);
      assert !GoesOn(data, dataSize, 0);
    } else {
      var starts := TextDecoded(data, t, bits);
      var k := InflateFrom(t, bits, data, starts, dataSize, 0);
      assert forall i :: 0 <= i < |data| ==> GoesOn(data, dataSize, i) == GoesOnAt(starts[i], starts[|data|], dataSize);
      assert StreamFits(data, dataSize) <==> k == |data|;
      assert data[0..k] == data <==> k == |data|;
    }
  }

  /** A text of one distinct byte takes no bits. */
  lemma {:induction false} LeafRoot(data: seq<bv8>)
    requires data != [] && NonZero(data) && CodecTree(TextTree(data)).Leaf?
    ensures |TextBits(data)| == 0
  {
    BitCount(data);
    assert TextTree(data).Item?;
  }

  // ----- and when the stream fits

  lemma {:induction false} OneCode(data: seq<bv8>, i: nat)
    requires data != [] && NonZero(data) && CodecTree(TextTree(data)).Branch? && CodesFit(data) && i < |data|
    ensures CodeStart(data, i) < CodeStart(data, i + 1) <= CodeStart(data, i) + 8
  {
    var rs := TextRoutes(data);
    EncodePart(rs, data, i);
    TextCodeLeads(data, i);
    LookupLength(rs, data[i], 8);
  }

  lemma {:induction false} CodeStartGrows(data: seq<bv8>, i: nat, j: nat)
    requires data != [] && NonZero(data) && CodecTree(TextTree(data)).Branch? && CodesFit(data)
    requires i < j <= |data|
    ensures CodeStart(data, i) < CodeStart(data, j) <= CodeStart(data, i) + 8 * (j - i)
    decreases j
  {
    OneCode(data, j - 1);
    if i == j - 1 {
    } else {
      CodeStartGrows(data, i, j - 1);
    }
  }

  /** Below 65536 bits the loop goes on at a code if it starts before the last one's end, within the bytes to be read. */
  lemma GoesOnBelow(start: nat, total: nat, dataSize: nat)
    requires start < total < 0x1_0000
    ensures GoesOnAt(start, total, dataSize) <==> start < 8 * dataSize
  {
  }

  lemma {:induction false} OneByteStops(data: seq<bv8>, dataSize: nat)
    requires data != [] && NonZero(data) && |BuildQueue(data)| == 1
    ensures !StreamFits(data, dataSize)
  {
    TextTreeCounts(data);
    TextItems(data);
    FullTree(TextTree(data));
    assert Items(TextTree(data))[0] == TextTree(data);
    LeafRoot(data);
    assert !GoesOn(data, dataSize, 0);
  }

  lemma {:induction false} ManyBytesFit(data: seq<bv8>, dataSize: nat)
    requires data != [] && NonZero(data) && CodesFit(data)
    requires |BuildQueue(data)| >= 2 && |TextBits(data)| < 0x1_0000
    ensures StreamFits(data, dataSize) <==> CodeStart(data, |data| - 1) < 8 * dataSize
  {
    TextTreeCounts(data);
    assert TextTree(data).Join?;
    assert data[..|data|] == data;
    var last := |data| - 1;
    forall i | 0 <= i < |data|
      ensures CodeStart(data, i) <= CodeStart(data, last)
      ensures GoesOn(data, dataSize, i) <==> CodeStart(data, i) < 8 * dataSize
    {
      CodeStartGrows(data, i, |data|);
      if i < last {
        CodeStartGrows(data, i, last);
      }
      GoesOnBelow(CodeStart(data, i), |TextBits(data)|, dataSize);
    }
    assert GoesOn(data, dataSize, last) <==> CodeStart(data, last) < 8 * dataSize;
  }

  /**
   Below 65536 code bits the stream fits if and only if the text has two distinct bytes and its last
   code starts within the first data_size bytes of the stream.
   */
  lemma {:induction false} ShortStreamFitsIff(data: seq<bv8>, dataSize: nat)
    requires data != [] && NonZero(data) && CodesFit(data) && |TextBits(data)| < 0x1_0000
    ensures StreamFits(data, dataSize) <==> |BuildQueue(data)| >= 2 && CodeStart(data, |data| - 1) < 8 * dataSize
  {
    BuildQueueCounts(data);
    assert HasByte(BuildQueue(data), data[0]);
    if |BuildQueue(data)| == 1 {
      OneByteStops(data, dataSize);
    } else {
      ManyBytesFit(data, dataSize);
    }
  }

  /** The length of the text is always enough. */
  lemma {:induction false} LengthSuffices(data: seq<bv8>)
    requires data != [] && NonZero(data) && CodesFit(data)
    requires |BuildQueue(data)| >= 2 && |TextBits(data)| < 0x1_0000
    ensures StreamFits(data, |data|)
  {
    ShortStreamFitsIff(data, |data|);
    TextTreeCounts(data);
    assert TextTree(data).Join?;
    assert data[..0] == [];
    if |data| > 1 {
      CodeStartGrows(data, 0, |data| - 1);
    }
  }
}
