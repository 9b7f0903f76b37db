/** Compressing and inflating a block: huffman/huffman.c, lines 225 to 517. */
module HuffmanCodec {
  import opened Bits
  import opened BitStreams
  import opened HuffmanTree
  import opened Serial
  import opened Codes
  import opened TextCode
  import opened Codec
  import opened Pools
  import Huffman

  // ----- reading a tree in the node pool

  function TreeGetSize(nodes: seq<NodeRec>, p: nat, ghost lo: nat, ghost t: Tree): (size: nat)
    requires Rep(nodes, lo, At(p), t)
    ensures size == Size(t)
    decreases t
  {
    var node := nodes[p];
    ChildrenNull(nodes, lo, p, t);
    var left := if node.left.At? then TreeGetSize(nodes, node.left.index, lo, t.left) else 0;
    var right := if node.right.At? then TreeGetSize(nodes, node.right.index, lo, t.right) else 0;
    left + right + 1
  }

  function TreeCountLeaves(nodes: seq<NodeRec>, p: nat, ghost lo: nat, ghost t: Tree): (n: nat)
    requires Rep(nodes, lo, At(p), t)
    ensures n == CountLeaves(t)
    decreases t
  {
    var node := nodes[p];
    ChildrenNull(nodes, lo, p, t);
    if node.byte != 0 then 1
    else
      var left := if node.left.At? then TreeCountLeaves(nodes, node.left.index, lo, t.left) else 0;
      var right := if node.right.At? then TreeCountLeaves(nodes, node.right.index, lo, t.right) else 0;
      left + right
  }

  /** serialize_tree_node: writes the serial form at `pos` and nothing else. */
  method SerializeTreeNode(nodes: seq<NodeRec>, p: Ptr, out: array<bv8>, pos: nat, ghost lo: nat, ghost t: Tree)
    returns (end: nat)
    requires Rep(nodes, lo, p, t) && pos + |Serialize(t)| <= out.Length
    modifies out
    ensures end == pos + |Serialize(t)|
    ensures out[..] == old(out[..pos]) + Serialize(t) + old(out[end..])
    decreases t
  {
    if p == Null {
      out[pos] := DASH;
      return pos + 1;
    }
    var node := nodes[p.index];
    if node.byte != 0 {
      out[pos] := node.byte;
      return pos + 1;
    }
    out[pos] := STAR;
    ghost var s0 := out[..];
    var mid := SerializeTreeNode(nodes, node.left, out, pos + 1, lo, t.left);
    ghost var s1 := out[..];
    end := SerializeTreeNode(nodes, node.right, out, mid, lo, t.right);
    WrittenTwice(old(out[..]), s0, s1, out[..], pos, STAR, Serialize(t.left), Serialize(t.right));
  }

  lemma WrittenTwice(s: seq<bv8>, s0: seq<bv8>, s1: seq<bv8>, s2: seq<bv8>, pos: nat, mark: bv8, a: seq<bv8>, b: seq<bv8>)
    requires pos + 1 + |a| + |b| <= |s| == |s0| == |s1|
    requires s0 == s[pos := mark]
    requires s1 == s0[..pos + 1] + a + s0[pos + 1 + |a|..]
    requires s2 == s1[..pos + 1 + |a|] + b + s1[pos + 1 + |a| + |b|..]
    ensures s2 == s[..pos] + ([mark] + a + b) + s[pos + 1 + |a| + |b|..]
  {
  }

  /** build_encoding_table: fills the table from `i` on. */
  method BuildEncodingTable(nodes: seq<NodeRec>, p: nat, encodedByte: bv8, numBits: nat, table: array<EncodingInfo>, i: nat,
                            ghost lo: nat, ghost t: Tree)
    returns (end: nat)
    requires Rep(nodes, lo, At(p), t) && i + CountLeaves(t) <= table.Length
    modifies table
    ensures end == i + CountLeaves(t)
    ensures table[..i] == old(table[..i]) && table[i..end] == Table(t, encodedByte, numBits)
    decreases t
  {
    var node := nodes[p];
    if node.byte != 0 {
      table[i] := EncodingInfo(node.byte, encodedByte, numBits);
      return i + 1;
    }
    end := i;
    if node.left.At? {
      end := BuildEncodingTable(nodes, node.left.index, (encodedByte << 1) | 0, (numBits + 1) % 256, table, end, lo, t.left);
    }
    ghost var mid, before := end, table[..end];
    if node.right.At? {
      end := BuildEncodingTable(nodes, node.right.index, (encodedByte << 1) | 1, (numBits + 1) % 256, table, end, lo, t.right);
    }
    TwoParts(before, table[..end], i, mid);
    assert table[..end][mid..] == table[mid..end] && table[..end][i..] == table[i..end];
    assert before[i..] == before[..mid][i..] && table[..end][..i] == table[..i];
  }

  lemma {:induction false} TwoParts(before: seq<EncodingInfo>, after: seq<EncodingInfo>, i: nat, mid: nat)
    requires i <= mid == |before| <= |after| && after[..mid] == before
    ensures after[i..] == before[i..] + after[mid..] && after[..i] == before[..i]
  {
    assert after == before + after[mid..];
  }

  // ----- compressing

  /** find_encoded_byte on a table that spells the routes `rs`. */
  method FindEncodedByte(table: seq<EncodingInfo>, b: bv8, ghost rs: seq<Route>) returns (encodedByte: bv8, numBits: nat)
    requires table == EntriesOf(rs)
    requires forall i :: 0 <= i < |rs| ==> |rs[i].turns| <= 8
    ensures encodedByte == CodeOf(Lookup(rs, b)) && numBits == |Lookup(rs, b)|
  {
    for i := 0 to |table|
      invariant Lookup(rs, b) == Lookup(rs[i..], b)
    {
      assert rs[i..][1..] == rs[i + 1..];
      if table[i].byte == b {
        return table[i].encodedByte, table[i].numBits;
      }
    }
    assert rs[|table|..] == [];
    return 0, 0;
  }

  lemma {:induction false} EncodeSnoc(rs: seq<Route>, data: seq<bv8>, i: nat)
    requires i < |data|
    ensures Encode(rs, data[..i + 1]) == Encode(rs, data[..i]) + Lookup(rs, data[i])
  {
    assert data[..i + 1][..i] == data[..i];
  }

  lemma {:induction false} EncodeGrows(rs: seq<Route>, data: seq<bv8>, i: nat)
    requires i <= |data|
    ensures |Encode(rs, data[..i])| <= |Encode(rs, data)|
    decreases |data| - i
  {
    if i == |data| {
      assert data[..i] == data;
    } else {
      EncodeSnoc(rs, data, i);
      EncodeGrows(rs, data, i + 1);
    }
  }

  /** One round of compress_data. */
  method PutByte(stream: BitStream, table: seq<EncodingInfo>, b: bv8, ghost rs: seq<Route>) returns (numBits: nat)
    requires table == EntriesOf(rs)
    requires forall i :: 0 <= i < |rs| ==> |rs[i].turns| <= 8
    requires stream.Valid() && stream.Cursor() + |Lookup(rs, b)| <= 8 * (stream.buff.Length - stream.base)
    modifies stream, stream.buff
    ensures stream.Valid() && numBits == |Lookup(rs, b)| <= 8
    ensures stream.Cursor() == old(stream.Cursor()) + numBits
    ensures stream.buff[..stream.base] == old(stream.buff[..stream.base])
    ensures stream.Stream() == OrAt(old(stream.Stream()), old(stream.Cursor()), Lookup(rs, b))
  {
    var encodedByte;
    encodedByte, numBits := FindEncodedByte(table, b, rs);
    LookupLength(rs, b, 8);
    EmittedBits(Lookup(rs, b));
    encodedByte := ReverseBits(encodedByte, numBits);
    stream.PutBits(encodedByte, numBits);
  }

  /** The stream after one code more. */
  lemma {:induction false} NextCode(before: seq<bool>, rs: seq<Route>, data: seq<bv8>, i: nat)
    requires i < |data| && |Encode(rs, data)| <= |before|
    ensures Encode(rs, data[..i + 1]) == Encode(rs, data[..i]) + Lookup(rs, data[i])
    ensures |Encode(rs, data[..i + 1])| <= |Encode(rs, data)|
    ensures OrAt(OrAt(before, 0, Encode(rs, data[..i])), |Encode(rs, data[..i])|, Lookup(rs, data[i]))
            == OrAt(before, 0, Encode(rs, data[..i + 1]))
  {
    EncodeSnoc(rs, data, i);
    EncodeGrows(rs, data, i + 1);
    OrAtConcat(before, 0, Encode(rs, data[..i]), Lookup(rs, data[i]));
  }

  /** compress_data: ORs the code bits of the text into the buffer from `base` on. */
  method CompressData(table: seq<EncodingInfo>, data: seq<bv8>, out: array<bv8>, base: nat, ghost rs: seq<Route>)
    returns (totalBits: uint16)
    requires table == EntriesOf(rs)
    requires forall i :: 0 <= i < |rs| ==> |rs[i].turns| <= 8
    requires base <= out.Length < 0x1_0000 && |Encode(rs, data)| <= 8 * (out.Length - base)
    modifies out
    ensures totalBits == |Encode(rs, data)| % 0x1_0000
    ensures out[..base] == old(out[..base])
    ensures Unpack(out[base..]) == OrAt(old(Unpack(out[base..])), 0, Encode(rs, data))
  {
    totalBits := 0;
    var stream := new BitStream(out, base);
    ghost var before := stream.Stream();
    ghost var bits: seq<bool> := [];
    OrAtNothing(before, 0, bits);
    for i := 0 to |data|
      invariant stream.Valid() && stream.buff == out && stream.base == base && fresh(stream)
      invariant bits == Encode(rs, data[..i])
      invariant stream.Cursor() == |bits| && totalBits == |bits| % 0x1_0000
      invariant out[..base] == old(out[..base])
      invariant stream.Stream() == OrAt(before, 0, bits)
    {
      NextCode(before, rs, data, i);
      var numBits := PutByte(stream, table, data[i], rs);
      CountBits(|bits|, numBits);
      totalBits := Wrap16(totalBits + numBits);
      bits := bits + Lookup(rs, data[i]);
    }
    assert data[..|data|] == data;
  }

  lemma CountBits(n: nat, m: nat)
    requires m < 0x1_0000
    ensures Wrap16(n % 0x1_0000 + m) == (n + m) % 0x1_0000
  {
  }

  /**
   The first half of huffman_compress: the queue and the tree of the text, in pools of their own. For n
   distinct bytes exactly 2n - 1 records and 2n - 1 cells are used, so the cells run out first.
   */
  method BuildTextTree(data: seq<bv8>) returns (mem: Huffman.Memory, root: nat)
    requires data != [] && |data| < 0x1_0000 && 2 * |BuildQueue(data)| - 1 <= QUEUE_MAX_SIZE
    ensures mem.Valid() && fresh(mem) && fresh(mem.tree)
    ensures Rep(mem.Nodes(), 0, At(root), CodecTree(TextTree(data)))
    ensures mem.treePtr == mem.queuePtr == 2 * |BuildQueue(data)| - 1
  {
    ghost var q := BuildQueue(data);
    assert q != [] && TotalWeight(q) == |data| by {
      BuildQueueCounts(data);
      assert HasByte(q, data[0]);
    }
    mem := new Huffman.Memory(TREE_MAX_SIZE, QUEUE_MAX_SIZE);
    var head, s := mem.BuildQueue(data);
    root := mem.BuildTree(head, s, q);
  }

  /** The table of a tree, spelling the routes to its leaves. */
  method EncodingTable(nodes: seq<NodeRec>, root: nat, ghost lo: nat, ghost t: Tree) returns (table: seq<EncodingInfo>)
    requires Rep(nodes, lo, At(root), t)
    ensures table == EntriesOf(Routes(t, []))
  {
    var size := TreeCountLeaves(nodes, root, lo, t);
    var arr := new EncodingInfo[size](_ => EncodingInfo(0, 0, 0));
    var end := BuildEncodingTable(nodes, root, 0, 0, arr, 0, lo, t);
    TableSpellsRoutes(t, []);
    table := arr[..];
    assert table == arr[0..end];
  }

  lemma {:induction false} OrTail(before: seq<bv8>, after: seq<bv8>, n: nat, bits: seq<bool>)
    requires n <= |before| == |after| && before[..n] == after[..n]
    requires Unpack(after[n..]) == OrAt(Unpack(before[n..]), 0, bits)
    ensures Unpack(after) == OrAt(Unpack(before), 8 * n, bits)
  {
    forall k | 0 <= k < 8 * |before| ensures Unpack(after)[k] == OrAt(Unpack(before), 8 * n, bits)[k] {
      if k < 8 * n {
        assert before[..n][k / 8] == after[..n][k / 8];
      } else {
        var m := k - 8 * n;
        assert m / 8 == k / 8 - n && m % 8 == k % 8;
        assert Unpack(after[n..])[m] == OrAt(Unpack(before[n..]), 0, bits)[m];
      }
    }
  }

  lemma {:induction false} BlockWritten(before: seq<bv8>, mid: seq<bv8>, after: seq<bv8>, s: seq<bv8>, size: nat, bits: seq<bool>)
    requires 3 + |s| <= |before| && 3 + size <= |before| == |after|
    requires mid == before[..3] + s + before[3 + |s|..]
    requires after[..3 + size] == mid[..3 + size]
    requires Unpack(after[3 + size..]) == OrAt(Unpack(mid[3 + size..]), 0, bits)
    ensures after[..3] == before[..3]
    ensures Unpack(after[3..]) == OrAt(Unpack(Overwrite(before[3..], s)), 8 * size, bits)
  {
    assert mid[3..] == Overwrite(before[3..], s);
    assert after[3..][size..] == after[3 + size..] && mid[3..][size..] == mid[3 + size..];
    assert after[3..][..size] == after[..3 + size][3..] == mid[..3 + size][3..] == mid[3..][..size];
    OrTail(mid[3..], after[3..], size, bits);
    assert after[..3] == after[..3 + size][..3] == mid[..3 + size][..3];
  }

  /** The second half of huffman_compress: serial tree and code bits, behind the three header bytes. */
  method WriteBlock(nodes: seq<NodeRec>, root: nat, size: nat, data: seq<bv8>, out: array<bv8>, ghost t: Tree) returns (totalBits: uint16)
    requires Rep(nodes, 0, At(root), t) && size == Size(t)
    requires forall i :: 0 <= i < |Routes(t, [])| ==> |Routes(t, [])[i].turns| <= 8
    requires 3 + |Serialize(t)| <= out.Length < 0x1_0000
    requires 8 * (3 + size) + |Encode(Routes(t, []), data)| <= 8 * out.Length
    modifies out
    ensures totalBits == |Encode(Routes(t, []), data)| % 0x1_0000
    ensures out[..3] == old(out[..3])
    ensures Unpack(out[3..]) == OrAt(Unpack(Overwrite(old(out[3..]), Serialize(t))), 8 * size, Encode(Routes(t, []), data))
  {
    ghost var rs := Routes(t, []);
    var _ := SerializeTreeNode(nodes, At(root), out, 3, 0, t);
    ghost var mid := out[..];
    var table := EncodingTable(nodes, root, 0, t);
    totalBits := CompressData(table, data, out, 3 + size, rs);
    BlockWritten(old(out[..]), mid, out[..], Serialize(t), size, Encode(rs, data));
  }

  /** The header: node count and 16-bit bit count, most significant byte first. */
  method WriteHeader(out: array<bv8>, size: nat, numBits: uint16)
    requires out.Length >= 3
    modifies out
    ensures out[0] as int == size % 0x100 && out[1] as int == numBits / 0x100 && out[2] as int == numBits % 0x100
    ensures out[3..] == old(out[3..])
  {
    var b0 := ToByte(size % 0x100);
    var b1 := ToByte(numBits / 0x100);
    var b2 := ToByte(numBits % 0x100);
    out[0], out[1], out[2] := b0, b1, b2;
  }

  /** huffman_compress. */
  method HuffmanCompress(data: seq<bv8>, out: array<bv8>)
    requires data != [] && |data| < 0x1_0000 && CodesFit(data)
    requires 2 * |BuildQueue(data)| - 1 <= QUEUE_MAX_SIZE
    requires Room(data, out.Length) && out.Length < 0x1_0000
    modifies out
    ensures Compressed(data, old(out[..]), out[..])
  {
    var mem, root := BuildTextTree(data);
    ghost var t := CodecTree(TextTree(data));
    var nodes := mem.tree[..mem.treePtr];
    var size := TreeGetSize(nodes, root, 0, t);
    var numBits := WriteBlock(nodes, root, size, data, out, t);
    WriteHeader(out, size, numBits);
    LowByte(|TextBits(data)|);
  }

  // ----- inflating

  /** deserialize_tree_node: reads the serial form at `pos` into fresh records. */
  method DeserializeTreeNode(mem: Huffman.Memory, data: seq<bv8>, pos: nat) returns (p: Ptr, end: nat)
    requires mem.Valid() && Parse(data, pos).Some?
    requires mem.treePtr + Size(Parse(data, pos).value.0) <= mem.tree.Length
    modifies mem`treePtr, mem.tree
    ensures mem.Valid() && mem.treePtr == old(mem.treePtr) + Size(Parse(data, pos).value.0)
    ensures old(mem.Nodes()) <= mem.Nodes()
    ensures Rep(mem.Nodes(), old(mem.treePtr), p, Parse(data, pos).value.0)
    ensures end == Parse(data, pos).value.1
    decreases |data| - pos, 0
  {
    if data[pos] == DASH {
      return Null, pos + 1;
    }
    var n := mem.TreeAlloc(0);
    p := At(n);
    if data[pos] != STAR {
      mem.SetNode(n, mem.tree[n].(byte := data[pos]));
      return p, pos + 1;
    }
    var left, right;
    left, right, end := DeserializeChildren(mem, data, pos + 1);
    RepBranch(mem.Nodes(), n, left, Parse(data, pos).value.0.left, right, Parse(data, pos).value.0.right);
    mem.SetNode(n, mem.tree[n].(left := left, right := right));
  }

  method DeserializeChildren(mem: Huffman.Memory, data: seq<bv8>, pos: nat) returns (left: Ptr, right: Ptr, end: nat)
    requires mem.Valid() && Parse(data, pos).Some? && Parse(data, Parse(data, pos).value.1).Some?
    requires var l := Parse(data, pos).value; mem.treePtr + Size(l.0) + Size(Parse(data, l.1).value.0) <= mem.tree.Length
    modifies mem`treePtr, mem.tree
    ensures mem.Valid() && old(mem.Nodes()) <= mem.Nodes()
    ensures var l := Parse(data, pos).value;
            var r := Parse(data, l.1).value;
            && mem.treePtr == old(mem.treePtr) + Size(l.0) + Size(r.0)
            && Rep(mem.Nodes(), old(mem.treePtr), left, l.0)
            && Rep(mem.Nodes(), old(mem.treePtr), right, r.0)
            && end == r.1
    decreases |data| - pos, 1
  {
    ghost var l := Parse(data, pos).value;
    ghost var r := Parse(data, l.1).value;
    ghost var lo := mem.treePtr;
    var mid;
    left, mid := DeserializeTreeNode(mem, data, pos);
    ghost var nodes, hi := mem.Nodes(), mem.treePtr;
    right, end := DeserializeTreeNode(mem, data, mid);
    RepFrame(nodes, mem.Nodes(), lo, lo, left, l.0);
    RepFrame(mem.Nodes(), mem.Nodes(), hi, lo, right, r.0);
  }

  /** The node below `t` on the side of `turn`; a leaf has none. */
  function Child(t: Tree, turn: bool): (c: Tree)
    requires !t.Nil?
  {
    if t.Leaf? then Nil else if turn then t.right else t.left
  }

  /** One step of the walk, on the records. */
  lemma {:induction false} StepDown(nodes: seq<NodeRec>, lo: nat, curr: nat, u: Tree, bits: seq<bool>, pos: nat)
    requires Rep(nodes, lo, At(curr), u) && Walk(u, bits, pos).Some?
    ensures pos < |bits| && curr < |nodes|
    ensures var next := if bits[pos] then nodes[curr].right else nodes[curr].left;
            && (next == Null ==> Walk(u, bits, pos) == Some((QUERY, pos + 1)))
            && (next != Null ==> next.index < |nodes|)
            && (next != Null && nodes[next.index].byte != 0 ==> Walk(u, bits, pos) == Some((nodes[next.index].byte, pos + 1)))
            && (next != Null && nodes[next.index].byte == 0 ==>
                  && Rep(nodes, lo, next, Child(u, bits[pos])) && Child(u, bits[pos]).Branch? && Child(u, bits[pos]) < u
                  && Walk(Child(u, bits[pos]), bits, pos + 1) == Walk(u, bits, pos))
  {
    RepNull(nodes, lo, if bits[pos] then nodes[curr].right else nodes[curr].left, Child(u, bits[pos]));
  }

  method ReadAndCount(stream: BitStream, numBits: nat, ghost start: nat) returns (bit: bv8, numBits': nat)
    requires stream.Valid() && stream.Cursor() < 8 * (stream.buff.Length - stream.base)
    requires start <= stream.Cursor() && numBits == (stream.Cursor() - start) % 0x100
    modifies stream
    ensures stream.Valid() && stream.Cursor() == old(stream.Cursor()) + 1 && numBits' == (stream.Cursor() - start) % 0x100
    ensures old(stream.Cursor()) < |stream.Stream()| && bit == BoolBit(stream.Stream()[old(stream.Cursor())])
  {
    OneMoreBit(stream.Cursor() - start);
    bit := stream.ReadBit();
    numBits' := (numBits + 1) % 0x100;
  }

  /** One round of the walk: to a leaf, off the tree, or to the next inner node. */
  method TakeTurn(nodes: seq<NodeRec>, curr: nat, stream: BitStream, numBits: nat, ghost lo: nat, ghost u: Tree, ghost start: nat)
    returns (done: bool, byte: bv8, curr': nat, numBits': nat)
    requires stream.Valid() && Rep(nodes, lo, At(curr), u) && Walk(u, stream.Stream(), stream.Cursor()).Some?
    requires start <= stream.Cursor() && numBits == (stream.Cursor() - start) % 0x100
    modifies stream
    ensures stream.Valid() && stream.Cursor() == old(stream.Cursor()) + 1 && numBits' == (stream.Cursor() - start) % 0x100
    ensures done ==> Walk(u, stream.Stream(), old(stream.Cursor())) == Some((byte, stream.Cursor()))
    ensures !done ==>
              && old(stream.Cursor()) < |stream.Stream()|
              && var c := Child(u, stream.Stream()[old(stream.Cursor())]);
                 Rep(nodes, lo, At(curr'), c) && c.Branch? && c < u
                 && Walk(c, stream.Stream(), stream.Cursor()) == Walk(u, stream.Stream(), old(stream.Cursor()))
  {
    StepDown(nodes, lo, curr, u, stream.Stream(), stream.Cursor());
    var nextBit;
    nextBit, numBits' := ReadAndCount(stream, numBits, start);
    var next := if nextBit == 0 then nodes[curr].left else nodes[curr].right;
    if next == Null {
      return true, QUERY, curr, numBits';
    }
    if nodes[next.index].byte != 0 {
      return true, nodes[next.index].byte, next.index, numBits';
    }
    return false, 0, next.index, numBits';
  }

  /** deserialize_next_char: walks from the root to a leaf or off the tree. */
  method DeserializeNextChar(nodes: seq<NodeRec>, root: nat, stream: BitStream, ghost lo: nat, ghost t: Tree)
    returns (byte: bv8, numBits: nat)
    requires stream.Valid() && Rep(nodes, lo, At(root), t) && Walk(t, stream.Stream(), stream.Cursor()).Some?
    modifies stream
    ensures stream.Valid()
    ensures Walk(t, stream.Stream(), old(stream.Cursor())) == Some((byte, stream.Cursor()))
    ensures numBits == (stream.Cursor() - old(stream.Cursor())) % 0x100
  {
    var curr, done := root, false;
    byte, numBits := 0, 0;
    ghost var u, bits, start := t, stream.Stream(), stream.Cursor();
    while !done
      invariant stream.Valid() && start <= stream.Cursor() && numBits == (stream.Cursor() - start) % 0x100
      invariant !done ==> Rep(nodes, lo, At(curr), u) && Walk(u, bits, stream.Cursor()) == Walk(t, bits, start)
      invariant done ==> Walk(t, bits, start) == Some((byte, stream.Cursor()))
      decreases !done, u
    {
      ghost var turn := bits[stream.Cursor()];
      done, byte, curr, numBits := TakeTurn(nodes, curr, stream, numBits, lo, u, start);
      if !done {
        u := Child(u, turn);
      }
    }
  }

  lemma OneMoreBit(n: nat)
    ensures (n % 0x100 + 1) % 0x100 == (n + 1) % 0x100
  {
  }

  /** What is left to decode when `written` has been. */
  ghost predicate Decodes(t: Tree, bits: seq<bool>, pos: nat, bitsRead: nat, total: nat, dataSize: nat, written: seq<bv8>, all: seq<bv8>)
    requires !t.Nil?
  {
    var rest := InflateBits(t, bits, pos, bitsRead, total, dataSize);
    rest.Some? && all == written + rest.value
  }

  lemma {:induction false} DecodesOne(t: Tree, bits: seq<bool>, pos: nat, bitsRead: nat, total: nat, dataSize: nat, written: seq<bv8>, all: seq<bv8>)
    requires !t.Nil? && Decodes(t, bits, pos, bitsRead, total, dataSize, written, all)
    requires bitsRead < total && pos / 8 < dataSize
    ensures Walk(t, bits, pos).Some?
    ensures var (byte, next) := Walk(t, bits, pos).value;
            && Decodes(t, bits, next, (bitsRead + (next - pos) % 0x100) % 0x1_0000, total, dataSize, written + [byte], all)
            && |written| < |all|
  {
    var (byte, next) := Walk(t, bits, pos).value;
    var rest := InflateBits(t, bits, next, (bitsRead + (next - pos) % 0x100) % 0x1_0000, total, dataSize).value;
    assert written + ([byte] + rest) == written + [byte] + rest;
  }

  lemma WrapSum(a: nat, b: nat)
    requires a < 0x1_0000 && b < 0x100
    ensures Wrap16(a + b) == (a + b) % 0x1_0000
  {
  }

  /** One round of inflate_data, up to the write. */
  method DecodeOne(nodes: seq<NodeRec>, root: nat, stream: BitStream, bitsRead: uint16, totalBits: uint16, dataSize: uint16,
                   ghost lo: nat, ghost t: Tree, ghost written: seq<bv8>, ghost all: seq<bv8>)
    returns (byte: bv8, bitsRead': uint16)
    requires stream.Valid() && Rep(nodes, lo, At(root), t)
    requires bitsRead < totalBits && stream.buffIndex < dataSize
    requires Decodes(t, stream.Stream(), stream.Cursor(), bitsRead, totalBits, dataSize, written, all)
    modifies stream
    ensures stream.Valid() && old(stream.Cursor()) < stream.Cursor() <= |stream.Stream()|
    ensures |written| < |all|
    ensures Decodes(t, stream.Stream(), stream.Cursor(), bitsRead', totalBits, dataSize, written + [byte], all)
  {
    assert stream.Cursor() / 8 == stream.buffIndex;
    DecodesOne(t, stream.Stream(), stream.Cursor(), bitsRead, totalBits, dataSize, written, all);
    var numBits;
    byte, numBits := DeserializeNextChar(nodes, root, stream, lo, t);
    WrapSum(bitsRead, numBits);
    bitsRead' := Wrap16(bitsRead + numBits);
  }

  method StoreByte(out: array<bv8>, o: nat, byte: bv8)
    requires o < out.Length
    modifies out
    ensures out[..o + 1] == old(out[..o]) + [byte] && out[o + 1..] == old(out[o + 1..])
  {
    out[o] := byte;
  }

  /** inflate_data: writes the decoded bytes to the beginning of `out`. */
  method InflateData(nodes: seq<NodeRec>, root: nat, data: array<bv8>, base: nat, dataSize: uint16, totalBits: uint16, out: array<bv8>,
                     ghost lo: nat, ghost t: Tree, ghost all: seq<bv8>)
    requires Rep(nodes, lo, At(root), t) && base <= data.Length < 0x1_0000 && data != out
    requires InflateBits(t, Unpack(data[base..]), 0, 0, totalBits, dataSize) == Some(all) && |all| <= out.Length
    modifies out
    ensures out[..] == all + old(out[|all|..])
  {
    var bitsRead: uint16, o := 0, 0;
    var stream := new BitStream(data, base);
    ghost var bits := stream.Stream();
    while bitsRead < totalBits && stream.buffIndex < dataSize
      invariant stream.Valid() && stream.buff == data && fresh(stream) && stream.Stream() == bits
      invariant o <= |all| && out[o..] == old(out[o..])
      invariant Decodes(t, bits, stream.Cursor(), bitsRead, totalBits, dataSize, out[..o], all)
      decreases |bits| - stream.Cursor()
    {
      var byte;
      byte, bitsRead := DecodeOne(nodes, root, stream, bitsRead, totalBits, dataSize, lo, t, out[..o], all);
      StoreByte(out, o, byte);
      o := o + 1;
    }
    assert out[..] == out[..o] + out[o..];
  }

  /** The tree of a block, in a pool of the size the block gives. */
  method ReadTree(data: seq<bv8>, ghost t: Tree, ghost end: nat) returns (nodes: seq<NodeRec>, root: nat, base: nat)
    requires Parse(data, 3) == Some((t, end)) && !t.Nil? && Size(t) <= data[0] as int
    ensures Rep(nodes, 0, At(root), t) && base == end
  {
    var mem := new Huffman.Memory(data[0] as int, 0);
    var p;
    p, base := DeserializeTreeNode(mem, data, 3);
    nodes := mem.tree[..mem.treePtr];
    RepNull(nodes, 0, p, t);
    root := p.index;
  }

  function HeaderTotal(hi: bv8, lo: bv8): (total: uint16)
  {
    0x100 * (hi as int) + lo as int
  }

  /** huffman_inflate, on a block that keeps it within its memory. */
  method HuffmanInflate(data: array<bv8>, dataSize: uint16, out: array<bv8>)
    requires data != out && data.Length < 0x1_0000
    requires Inflate(data[..], dataSize).Some? && |Inflate(data[..], dataSize).value| <= out.Length
    modifies out
    ensures out[..] == Inflate(old(data[..]), dataSize).value + old(out[|Inflate(data[..], dataSize).value|..])
  {
    ghost var (t, end) := Parse(data[..], 3).value;
    ghost var all := Inflate(data[..], dataSize).value;
    var numBits := HeaderTotal(data[1], data[2]);
    var nodes, root, base := ReadTree(data[..], t, end);
    var _ := EncodingTable(nodes, root, 0, t);
    assert data[..][base..] == data[base..];
    InflateData(nodes, root, data, base, dataSize, numBits, out, 0, t, all);
  }

  /**
   The round trip of huffman/main.c: compressing a text into a zeroed buffer and inflating it again, with any size that
   lets the code of the last byte begin; the length of the text is such a size.
   */
  method CompressThenInflate(data: seq<bv8>, dataSize: uint16, block: array<bv8>, out: array<bv8>)
    requires |data| < 0x1_0000 && NoMarks(data) && |BuildQueue(data)| >= 2
    requires CodesFit(data) && |TextBits(data)| < 0x1_0000 && 2 * |BuildQueue(data)| - 1 <= QUEUE_MAX_SIZE
    requires Room(data, block.Length) && block.Length < 0x1_0000 && Zeroed(block[..])
    requires CodeStart(data, |data| - 1) < 8 * dataSize && out != block && |data| <= out.Length
    modifies block, out
    ensures out[..] == data + old(out[|data|..])
  {
    ghost var before := block[..];
    HuffmanCompress(data, block);
    RoundTripIff(data, before, block[..], dataSize);
    ShortStreamFitsIff(data, dataSize);
    HuffmanInflate(block, dataSize, out);
  }
}
