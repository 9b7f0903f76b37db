/** Building the Huffman tree in the two pools: huffman/huffman.c, lines 51 to 223. */
module Huffman {
  import opened HuffmanTree
  import opened Serial
  import opened Pools

  /** huffman_t, with the two pools it points into. */
  class Memory {
    const tree: array<NodeRec>
    var treePtr: nat
    const queue: array<Cell>
    var queuePtr: nat

    ghost predicate Valid()
      reads this
    {
      treePtr <= tree.Length && queuePtr <= queue.Length < 0x1_0000
    }

    /** The node records handed out so far. */
    ghost function Nodes(): (s: seq<NodeRec>)
      reads this, tree
      requires Valid()
    {
      tree[..treePtr]
    }

    /** The queue cells handed out so far. */
    ghost function Cells(): (s: seq<Cell>)
      reads this, queue
      requires Valid()
    {
      queue[..queuePtr]
    }

    constructor (treeSize: nat, queueSize: nat)
      requires queueSize < 0x1_0000
      ensures Valid() && fresh(tree) && fresh(queue)
      ensures tree.Length == treeSize && queue.Length == queueSize && treePtr == 0 && queuePtr == 0
    {
      tree := new NodeRec[treeSize](_ => NodeRec(Null, Null, 0, 0));
      queue := new Cell[queueSize](_ => Cell(Null, Null));
      treePtr, queuePtr := 0, 0;
    }

    method TreeAlloc(weight: uint16) returns (n: nat)
      requires Valid() && treePtr < tree.Length
      modifies `treePtr, tree
      ensures Valid() && n == old(treePtr) && treePtr == n + 1
      ensures Nodes() == old(Nodes()) + [NodeRec(Null, Null, weight, 0)]
    {
      n := treePtr;
      treePtr := treePtr + 1;
      tree[n] := NodeRec(Null, Null, weight, 0);
    }

    method SetNode(n: nat, node: NodeRec)
      requires Valid() && n < treePtr
      modifies tree
      ensures Nodes() == old(Nodes())[n := node]
    {
      tree[n] := node;
    }

    method QueueAlloc(el: Ptr) returns (c: nat)
      requires Valid() && queuePtr < queue.Length
      modifies `queuePtr, queue
      ensures Valid() && c == old(queuePtr) && queuePtr == c + 1
      ensures Cells() == old(Cells()) + [Cell(Null, el)]
    {
      c := queuePtr;
      queuePtr := queuePtr + 1;
      queue[c] := Cell(Null, el);
    }

    method SetNext(c: nat, next: Ptr)
      requires Valid() && c < queuePtr
      modifies queue
      ensures Cells() == old(Cells())[c := old(Cells())[c].(next := next)]
    {
      queue[c] := queue[c].(next := next);
    }

    /**
     The search of queue_add_element: the cell behind which a new element of weight `w` belongs,
     or `Null` for the front.
     */
    method FindPlace(head: Ptr, w: nat, ghost s: seq<nat>, ghost q: seq<HTree>) returns (prev: Ptr)
      requires Valid() && IsQueue(Nodes(), Cells(), head, s, q)
      ensures prev == if FirstHeavier(q, w) == 0 then Null else At(s[FirstHeavier(q, w) - 1])
      ensures prev.At? ==> prev.index < queuePtr
    {
      if head == Null {
        return Null;
      }
      var curr := head.index;
      assert LinkedAt(Cells(), s, 0);
      QueueWeight(Nodes(), Cells(), s, q, 0);
      if tree[queue[curr].el.index].weight > w {
        return Null;
      }
      ghost var i := 0;
      while queue[curr].next != Null
        invariant i < |s| && curr == s[i]
        invariant forall j :: 0 <= j <= i ==> Weight(q[j]) <= w
        invariant LinkedAt(Cells(), s, i)
        decreases |s| - i
      {
        var next := queue[curr].next.index;
        assert LinkedAt(Cells(), s, i + 1);
        QueueWeight(Nodes(), Cells(), s, q, i + 1);
        if tree[queue[next].el.index].weight > w {
          return At(curr);
        }
        curr := next;
        i := i + 1;
      }
      return At(curr);
    }

    /** The writes of queue_add_element: cell `c` goes behind `prev`, or in front of `head`. */
    method LinkCell(c: nat, prev: Ptr, head: Ptr) returns (head': Ptr)
      requires Valid() && c < queuePtr && (prev.At? ==> prev.index < queuePtr && prev.index != c)
      modifies queue
      ensures head' == if prev == Null then At(c) else head
      ensures Cells()[c].next == if prev == Null then head else old(Cells()[prev.index].next)
      ensures prev.At? ==> Cells()[prev.index].next == At(c)
      ensures forall i :: 0 <= i < queuePtr && i != c && prev != At(i) ==> Cells()[i] == old(Cells()[i])
      ensures forall i :: 0 <= i < queuePtr ==> Cells()[i].el == old(Cells()[i].el)
    {
      if prev == Null {
        SetNext(c, head);
        head' := At(c);
      } else {
        SetNext(c, queue[prev.index].next);
        SetNext(prev.index, At(c));
        head' := head;
      }
    }

    /** queue_add_element: links the tree at `el` in behind all that are not heavier, up to the first heavier one. */
    method QueueAddElement(head: Ptr, el: nat, ghost s: seq<nat>, ghost q: seq<HTree>, ghost t: HTree)
      returns (head': Ptr, ghost s': seq<nat>)
      requires Valid() && queuePtr < queue.Length
      requires IsQueue(Nodes(), Cells(), head, s, q) && Rep(Nodes(), 0, At(el), CodecTree(t))
      modifies `queuePtr, queue
      ensures Valid() && queuePtr == old(queuePtr) + 1
      ensures s' == PutBefore(s, FirstHeavier(q, Weight(t)), old(queuePtr))
      ensures IsQueue(Nodes(), Cells(), head', s', Insert(q, t))
      ensures forall c :: 0 <= c < old(queuePtr) ==> Cells()[c].el == old(Cells())[c].el
      ensures Cells()[old(queuePtr)].el == At(el)
    {
      ghost var k, cells := FirstHeavier(q, Weight(t)), Cells();
      assert k > 0 ==> LinkedAt(cells, s, k - 1);
      var prev := FindPlace(head, tree[el].weight, s, q);
      var c := QueueAlloc(At(el));
      head' := LinkCell(c, prev, head);
      s' := PutBefore(s, k, c);
      LinkIn(cells, head, s, k, c, Cells(), head');
      HoldIn(Nodes(), cells, s, q, k, c, t, Cells());
    }

    /** queue_pop2: the first two trees of the queue, the second one missing if there is only one, and the rest. */
    method QueuePop2(head: nat, ghost s: seq<nat>, ghost q: seq<HTree>) returns (head': Ptr, a: Ptr, b: Ptr)
      requires Valid() && IsQueue(Nodes(), Cells(), At(head), s, q)
      ensures q != [] && a.At? && Rep(Nodes(), 0, a, CodecTree(q[0]))
      ensures |q| == 1 ==> b == Null && head' == Null
      ensures |q| >= 2 ==> b.At? && Rep(Nodes(), 0, b, CodecTree(q[1])) && IsQueue(Nodes(), Cells(), head', s[2..], q[2..])
    {
      assert LinkedAt(Cells(), s, 0) && HoldsAt(Nodes(), Cells(), s, q, 0);
      a := queue[head].el;
      var next := queue[head].next;
      if next.At? {
        DropTwo(Nodes(), Cells(), At(head), s, q);
        assert HoldsAt(Nodes(), Cells(), s, q, 1);
        return queue[next.index].next, a, queue[next.index].el;
      }
      return Null, a, Null;
    }

    method QueueSize(head: Ptr, ghost s: seq<nat>) returns (size: uint16)
      requires Valid() && Linked(Cells(), head, s) && |s| < 0x1_0000
      ensures size == |s|
    {
      size := 0;
      var curr := head;
      while curr != Null
        invariant size <= |s| && curr == PtrAt(s, size)
        decreases |s| - size
      {
        assert LinkedAt(Cells(), s, size);
        size := Wrap16(size + 1);
        curr := queue[curr.index].next;
      }
    }

    /** The search of build_queue: the cell whose record counts `byte`. */
    method FindByte(head: Ptr, byte: bv8, ghost s: seq<nat>, ghost q: seq<HTree>) returns (cell: Ptr)
      requires Valid() && IsQueue(Nodes(), Cells(), head, s, q)
      requires forall i :: 0 <= i < |q| ==> q[i].Item? && q[i].weight < 0x1_0000
      ensures cell == PtrAt(s, IndexOfByte(q, byte))
    {
      cell := head;
      ghost var i := 0;
      while cell != Null
        invariant i <= |s| && cell == PtrAt(s, i)
        invariant forall j :: 0 <= j < i ==> q[j].byte != byte
        decreases |s| - i
      {
        assert LinkedAt(Cells(), s, i) && HoldsAt(Nodes(), Cells(), s, q, i);
        RepItem(Nodes(), queue[cell.index].el, q[i].weight, q[i].byte);
        if tree[queue[cell.index].el.index].byte == byte {
          return cell;
        }
        cell := queue[cell.index].next;
        i := i + 1;
      }
    }

    /** The queue of a text that is still being counted: every cell owns the record of its byte. */
    ghost predicate Counting(head: Ptr, s: seq<nat>, q: seq<HTree>)
      reads this, tree, queue
    {
      && Valid()
      && IsQueue(Nodes(), Cells(), head, s, q) && OwnRecords(Cells(), s)
      && (forall i :: 0 <= i < |q| ==> q[i].Item?)
    }

    /** A byte seen before: its record is changed in place. */
    method CountAgain(head: Ptr, cell: nat, ghost s: seq<nat>, ghost q: seq<HTree>, ghost j: nat)
      requires Counting(head, s, q) && TotalWeight(q) < 0xFFFF
      requires j < |q| && cell == s[j]
      modifies tree
      ensures Counting(head, s, q[j := Item(q[j].weight + 1, q[j].byte)])
    {
      forall i | 0 <= i < |q| ensures q[i].weight < 0xFFFF {
        WeightInTotal(q, i);
      }
      QueueWeight(Nodes(), Cells(), s, q, j);
      var el := queue[cell].el.index;
      var w := Wrap16(tree[el].weight + 1);
      CountInPlace(Nodes(), Cells(), s, q, j, w);
      SetNode(el, tree[el].(weight := w));
    }

    /** A new byte: it gets a record and a cell. */
    method CountFirst(head: Ptr, byte: bv8, ghost s: seq<nat>, ghost q: seq<HTree>) returns (head': Ptr, ghost s': seq<nat>)
      requires Counting(head, s, q) && treePtr < tree.Length && queuePtr < queue.Length
      modifies this, tree, queue
      ensures Counting(head', s', Insert(q, Item(1, byte)))
      ensures treePtr == old(treePtr) + 1 && queuePtr == old(queuePtr) + 1
    {
      ghost var nodes, cells := Nodes(), Cells();
      var n := TreeAlloc(1);
      SetNode(n, tree[n].(byte := byte));
      HoldsFrame(nodes, Nodes(), cells, s, q);
      RepItem(Nodes(), At(n), 1, byte);
      forall i | 0 <= i < |s| ensures cells[s[i]].el.At? && cells[s[i]].el.index < n {
        QueueWeight(nodes, cells, s, q, i);
      }
      head', s' := QueueAddElement(head, n, s, q, Item(1, byte));
      OwnOneMore(cells, Cells(), s, FirstHeavier(q, 1), n);
    }

    /** One round of build_queue. */
    method CountByte(head: Ptr, byte: bv8, ghost s: seq<nat>, ghost q: seq<HTree>) returns (head': Ptr, ghost s': seq<nat>)
      requires Counting(head, s, q) && TotalWeight(q) < 0xFFFF
      requires treePtr + |AddByte(q, byte)| - |q| <= tree.Length && queuePtr + |AddByte(q, byte)| - |q| <= queue.Length
      modifies this, tree, queue
      ensures Counting(head', s', AddByte(q, byte))
      ensures treePtr == old(treePtr) + |AddByte(q, byte)| - |q|
      ensures queuePtr == old(queuePtr) + |AddByte(q, byte)| - |q|
    {
      forall j | 0 <= j < |q| ensures q[j].weight < 0x1_0000 {
        WeightInTotal(q, j);
      }
      var cell := FindByte(head, byte, s, q);
      if cell != Null {
        CountAgain(head, cell.index, s, q, IndexOfByte(q, byte));
        head', s' := head, s;
      } else {
        head', s' := CountFirst(head, byte, s, q);
      }
    }

    /** build_queue. */
    method BuildQueue(data: seq<bv8>) returns (head: Ptr, ghost s: seq<nat>)
      requires Valid() && |data| < 0x1_0000
      requires treePtr + |HuffmanTree.BuildQueue(data)| <= tree.Length
      requires queuePtr + |HuffmanTree.BuildQueue(data)| <= queue.Length
      modifies this, tree, queue
      ensures Counting(head, s, HuffmanTree.BuildQueue(data))
      ensures treePtr == old(treePtr) + |HuffmanTree.BuildQueue(data)|
      ensures queuePtr == old(queuePtr) + |HuffmanTree.BuildQueue(data)|
    {
      head, s := Null, [];
      ghost var q: seq<HTree> := [];
      for i := 0 to |data|
        invariant q == HuffmanTree.BuildQueue(data[..i])
        invariant Counting(head, s, q)
        invariant treePtr == old(treePtr) + |q| && queuePtr == old(queuePtr) + |q|
      {
        NextByte(data, i);
        head, s := CountByte(head, data[i], s, q);
        q := AddByte(q, data[i]);
      }
      assert data[..|data|] == data;
    }

    /** One round of build_tree: the first two trees are taken off the queue and their union put back. */
    method MergeTwo(head: nat, ghost s: seq<nat>, ghost q: seq<HTree>) returns (head': Ptr, ghost s': seq<nat>)
      requires Valid() && IsQueue(Nodes(), Cells(), At(head), s, q)
      requires |q| >= 2 && TotalWeight(q) < 0x1_0000
      requires treePtr < tree.Length && queuePtr < queue.Length
      modifies this, tree, queue
      ensures Valid() && IsQueue(Nodes(), Cells(), head', s', MergeFirstTwo(q))
      ensures treePtr == old(treePtr) + 1 && queuePtr == old(queuePtr) + 1
    {
      ghost var nodes, cells := Nodes(), Cells();
      var rest, a, b := QueuePop2(head, s, q);
      TwoInTotal(q);
      var n := TreeAlloc(Wrap16(tree[a.index].weight + tree[b.index].weight));
      SetNode(n, tree[n].(left := a, right := b, byte := 0));
      HoldsFrame(nodes, Nodes(), cells, s[2..], q[2..]);
      RepFrame(nodes, Nodes(), 0, 0, a, CodecTree(q[0]));
      RepFrame(nodes, Nodes(), 0, 0, b, CodecTree(q[1]));
      head', s' := QueueAddElement(rest, n, s[2..], q[2..], Join(q[0], q[1]));
    }

    /** build_tree. The original asserts that the queue is not empty. */
    method BuildTree(head: Ptr, ghost s: seq<nat>, ghost q: seq<HTree>) returns (root: nat)
      requires Valid() && IsQueue(Nodes(), Cells(), head, s, q) && q != []
      requires TotalWeight(q) < 0x1_0000 && |q| < 0x1_0000
      requires treePtr + |q| - 1 <= tree.Length && queuePtr + |q| - 1 <= queue.Length
      modifies this, tree, queue
      ensures Valid() && Rep(Nodes(), 0, At(root), CodecTree(HuffmanTree.BuildTree(q)))
      ensures treePtr == old(treePtr) + |q| - 1 && queuePtr == old(queuePtr) + |q| - 1
    {
      var head := head;
      ghost var s, q' := s, q;
      var size := QueueSize(head, s);
      while size >= 2
        invariant Valid() && IsQueue(Nodes(), Cells(), head, s, q') && size == |q'|
        invariant 1 <= |q'| <= |q| && TotalWeight(q') < 0x1_0000
        invariant HuffmanTree.BuildTree(q') == HuffmanTree.BuildTree(q)
        invariant treePtr + |q'| == old(treePtr) + |q| && queuePtr + |q'| == old(queuePtr) + |q|
        decreases |q'|
      {
        MergeConserves(q');
        head, s := MergeTwo(head.index, s, q');
        q' := MergeFirstTwo(q');
        size := QueueSize(head, s);
      }
      assert HoldsAt(Nodes(), Cells(), s, q', 0);
      root := queue[head.index].el.index;
    }
  }

  lemma {:induction false} NextByte(data: seq<bv8>, i: nat)
    requires i < |data|
    ensures TotalWeight(BuildQueue(data[..i])) == i
    ensures BuildQueue(data[..i + 1]) == AddByte(BuildQueue(data[..i]), data[i])
    ensures |BuildQueue(data[..i + 1])| <= |BuildQueue(data)|
  {
    BuildQueueCounts(data[..i]);
    assert data[..i + 1][..i] == data[..i];
    QueueGrows(data, i + 1);
  }

  lemma TwoInTotal(q: seq<HTree>)
    requires |q| >= 2
    ensures Weight(q[0]) + Weight(q[1]) <= TotalWeight(q)
  {
    assert TotalWeight(q[1..]) == Weight(q[1]) + TotalWeight(q[1..][1..]);
  }
}
