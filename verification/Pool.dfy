/** The node and queue pools of huffman/huffman.c. A pointer is an index into its pool. */
module Pools {
  import opened Basics
  import opened HuffmanTree
  import opened Serial

  type uint16 = x: int | 0 <= x < 0x1_0000

  /** A sum of two 16-bit numbers, as 16 bits hold it. */
  function Wrap16(x: nat): (r: uint16)
    requires x < 0x2_0000
  {
    if x < 0x1_0000 then x else x - 0x1_0000
  }

  datatype Ptr = Null | At(index: nat)

  /** node_t. */
  datatype NodeRec = NodeRec(left: Ptr, right: Ptr, weight: uint16, byte: bv8)

  /** queue_t. */
  datatype Cell = Cell(next: Ptr, el: Ptr)

  // ----- trees in the node pool

  /** Pointer `p` represents tree `t`, all of whose records lie at `lo` or above. */
  ghost predicate Rep(nodes: seq<NodeRec>, lo: nat, p: Ptr, t: Tree)
    decreases t
  {
    match t
    case Nil => p.Null?
    case Leaf(w, b) =>
      && p.At? && lo <= p.index < |nodes|
      && nodes[p.index].byte == b != 0 && nodes[p.index].weight == w
      && nodes[p.index].left.Null? && nodes[p.index].right.Null?
    case Branch(w, l, r) =>
      && p.At? && lo <= p.index < |nodes|
      && nodes[p.index].byte == 0 && nodes[p.index].weight == w
      && Rep(nodes, lo, nodes[p.index].left, l) && Rep(nodes, lo, nodes[p.index].right, r)
  }

  lemma {:induction false} RepNull(nodes: seq<NodeRec>, lo: nat, p: Ptr, t: Tree)
    requires Rep(nodes, lo, p, t)
    ensures p.Null? <==> t.Nil?
  {
  }

  lemma {:induction false} ChildrenNull(nodes: seq<NodeRec>, lo: nat, p: nat, t: Tree)
    requires Rep(nodes, lo, At(p), t)
    ensures t.Branch? ==> (nodes[p].left.Null? <==> t.left.Nil?) && (nodes[p].right.Null? <==> t.right.Nil?)
  {
    if t.Branch? {
      RepNull(nodes, lo, nodes[p].left, t.left);
      RepNull(nodes, lo, nodes[p].right, t.right);
    }
  }

  /** A tree only depends on the records from `lo` on. */
  lemma {:induction false} RepFrame(nodes: seq<NodeRec>, nodes': seq<NodeRec>, lo: nat, lo': nat, p: Ptr, t: Tree)
    requires Rep(nodes, lo, p, t) && lo' <= lo
    requires |nodes| <= |nodes'| && forall i :: lo <= i < |nodes| ==> nodes'[i] == nodes[i]
    ensures Rep(nodes', lo', p, t)
    decreases t
  {
    if !t.Branch? {
    } else {
      RepFrame(nodes, nodes', lo, lo', nodes[p.index].left, t.left);
      RepFrame(nodes, nodes', lo, lo', nodes[p.index].right, t.right);
    }
  }

  /** Writing the children into a record below them. */
  lemma {:induction false} RepBranch(nodes: seq<NodeRec>, n: nat, left: Ptr, l: Tree, right: Ptr, r: Tree)
    requires n < |nodes| && nodes[n].byte == 0 && nodes[n].weight == 0
    requires Rep(nodes, n + 1, left, l) && Rep(nodes, n + 1, right, r)
    ensures Rep(nodes[n := nodes[n].(left := left, right := right)], n, At(n), Branch(0, l, r))
  {
    var nodes' := nodes[n := nodes[n].(left := left, right := right)];
    RepFrame(nodes, nodes', n + 1, n, left, l);
    RepFrame(nodes, nodes', n + 1, n, right, r);
  }

  // ----- the queue in the cell pool

  function PtrAt(s: seq<nat>, i: nat): (p: Ptr)
  {
    if i < |s| then At(s[i]) else Null
  }

  /** Cell `s[i]` is linked to the next one, or to none if it is the last. */
  ghost predicate LinkedAt(cells: seq<Cell>, s: seq<nat>, i: nat)
    requires i < |s|
  {
    s[i] < |cells| && cells[s[i]].next == PtrAt(s, i + 1)
  }

  /** The cells `s`, all different, are linked in this order from `head` to the end. */
  ghost predicate Linked(cells: seq<Cell>, head: Ptr, s: seq<nat>)
  {
    head == PtrAt(s, 0) && Different(s) && (forall i :: 0 <= i < |s| ==> LinkedAt(cells, s, i))
  }

  /** Cell `s[i]` holds the tree `q[i]`. */
  ghost predicate HoldsAt(nodes: seq<NodeRec>, cells: seq<Cell>, s: seq<nat>, q: seq<HTree>, i: nat)
    requires i < |s| == |q|
  {
    s[i] < |cells| && cells[s[i]].el.At? && Rep(nodes, 0, cells[s[i]].el, CodecTree(q[i]))
  }

  ghost predicate Holds(nodes: seq<NodeRec>, cells: seq<Cell>, s: seq<nat>, q: seq<HTree>)
  {
    |s| == |q| && (forall i :: 0 <= i < |s| ==> HoldsAt(nodes, cells, s, q, i))
  }

  ghost predicate IsQueue(nodes: seq<NodeRec>, cells: seq<Cell>, head: Ptr, s: seq<nat>, q: seq<HTree>)
  {
    Linked(cells, head, s) && Holds(nodes, cells, s, q)
  }

  lemma {:induction false} QueueWeight(nodes: seq<NodeRec>, cells: seq<Cell>, s: seq<nat>, q: seq<HTree>, i: nat)
    requires Holds(nodes, cells, s, q) && i < |s|
    ensures s[i] < |cells| && cells[s[i]].el.At? && cells[s[i]].el.index < |nodes|
    ensures nodes[cells[s[i]].el.index].weight == Weight(q[i])
  {
    assert HoldsAt(nodes, cells, s, q, i);
  }

  lemma {:induction false} HoldsFrame(nodes: seq<NodeRec>, nodes': seq<NodeRec>, cells: seq<Cell>, s: seq<nat>, q: seq<HTree>)
    requires Holds(nodes, cells, s, q) && nodes <= nodes'
    ensures Holds(nodes', cells, s, q)
  {
    forall i | 0 <= i < |s| ensures HoldsAt(nodes', cells, s, q, i) {
      assert HoldsAt(nodes, cells, s, q, i);
      RepFrame(nodes, nodes', 0, 0, cells[s[i]].el, CodecTree(q[i]));
    }
  }

  /** The list with cell `c` put before position `k`. */
  function PutBefore<T>(s: seq<T>, k: nat, c: T): (r: seq<T>)
    requires k <= |s|
    ensures |r| == |s| + 1
  {
    s[..k] + [c] + s[k..]
  }

  lemma {:induction false} DifferentIn(s: seq<nat>, k: nat, c: nat)
    requires Different(s) && k <= |s| && (forall i :: 0 <= i < |s| ==> s[i] < c)
    ensures Different(PutBefore(s, k, c))
  {
    var r := PutBefore(s, k, c);
    assert forall i :: 0 <= i < |r| ==> r[i] == if i < k then s[i] else if i == k then c else s[i - 1];
  }

  lemma {:induction false} InPool(cells: seq<Cell>, head: Ptr, s: seq<nat>)
    requires Linked(cells, head, s)
    ensures forall i :: 0 <= i < |s| ==> s[i] < |cells|
  {
    forall i | 0 <= i < |s| ensures s[i] < |cells| {
      assert LinkedAt(cells, s, i);
    }
  }

  /** Linking a new cell in before position `k` takes two writes, or one at the front. */
  lemma {:induction false} LinkIn(cells: seq<Cell>, head: Ptr, s: seq<nat>, k: nat, c: nat, cells': seq<Cell>, head': Ptr)
    requires Linked(cells, head, s) && k <= |s| && |cells| == c && |cells'| == c + 1
    requires cells'[c].next == PtrAt(s, k)
    requires forall i :: 0 <= i < c && (k == 0 || i != s[k - 1]) ==> cells'[i] == cells[i]
    requires k > 0 ==> s[k - 1] < c && cells'[s[k - 1]].next == At(c)
    requires head' == if k == 0 then At(c) else head
    ensures Linked(cells', head', PutBefore(s, k, c))
  {
    InPool(cells, head, s);
    DifferentIn(s, k, c);
    var r := PutBefore(s, k, c);
    forall i | 0 <= i < |r| ensures LinkedAt(cells', r, i) {
      if i < k {
        assert LinkedAt(cells, s, i);
        assert r[i] == s[i] && (i + 1 < k ==> r[i + 1] == s[i + 1]);
      } else if i > k {
        assert LinkedAt(cells, s, i - 1);
        assert r[i] == s[i - 1] && (i < |s| ==> r[i + 1] == s[i]);
      }
    }
  }

  lemma {:induction false} HoldIn(nodes: seq<NodeRec>, cells: seq<Cell>, s: seq<nat>, q: seq<HTree>, k: nat, c: nat, t: HTree, cells': seq<Cell>)
    requires Holds(nodes, cells, s, q) && k <= |s| && |cells| == c && |cells'| == c + 1
    requires forall i :: 0 <= i < c ==> cells'[i].el == cells[i].el
    requires cells'[c].el.At? && Rep(nodes, 0, cells'[c].el, CodecTree(t))
    ensures Holds(nodes, cells', PutBefore(s, k, c), PutBefore(q, k, t))
  {
    var r, p := PutBefore(s, k, c), PutBefore(q, k, t);
    forall i | 0 <= i < |r| ensures HoldsAt(nodes, cells', r, p, i) {
      if i < k {
        assert HoldsAt(nodes, cells, s, q, i);
        assert r[i] == s[i] && p[i] == q[i];
      } else if i > k {
        assert HoldsAt(nodes, cells, s, q, i - 1);
        assert r[i] == s[i - 1] && p[i] == q[i - 1];
      }
    }
  }

  lemma {:induction false} DropTwo(nodes: seq<NodeRec>, cells: seq<Cell>, head: Ptr, s: seq<nat>, q: seq<HTree>)
    requires IsQueue(nodes, cells, head, s, q) && |s| >= 2
    ensures s[0] < |cells| && cells[s[0]].next == At(s[1]) && s[1] < |cells|
    ensures IsQueue(nodes, cells, cells[s[1]].next, s[2..], q[2..])
  {
    var r, p := s[2..], q[2..];
    assert LinkedAt(cells, s, 0) && LinkedAt(cells, s, 1);
    forall i | 0 <= i < |r| ensures LinkedAt(cells, r, i) && HoldsAt(nodes, cells, r, p, i) {
      assert LinkedAt(cells, s, i + 2) && HoldsAt(nodes, cells, s, q, i + 2);
    }
  }

  // ----- the queue of items, whose records are changed in place

  /** The record of a counted byte. */
  lemma {:induction false} RepItem(nodes: seq<NodeRec>, p: Ptr, w: uint16, b: bv8)
    ensures Rep(nodes, 0, p, CodecTree(Item(w, b)))
            <==> p.At? && p.index < |nodes| && nodes[p.index] == NodeRec(Null, Null, w, b)
  {
    assert RecordTree(w, b) == CodecTree(Item(w, b));
  }

  /** No two cells share a record. */
  ghost predicate OwnRecords(cells: seq<Cell>, s: seq<nat>)
  {
    && (forall i :: 0 <= i < |s| ==> s[i] < |cells|)
    && (forall i, j :: 0 <= i < j < |s| ==> cells[s[i]].el != cells[s[j]].el)
  }

  lemma {:induction false} CountInPlace(nodes: seq<NodeRec>, cells: seq<Cell>, s: seq<nat>, q: seq<HTree>, j: nat, w: uint16)
    requires Holds(nodes, cells, s, q) && OwnRecords(cells, s) && j < |s|
    requires forall i :: 0 <= i < |q| ==> q[i].Item? && q[i].weight < 0x1_0000
    ensures s[j] < |cells| && cells[s[j]].el.At?
    ensures var e := cells[s[j]].el.index;
            && e < |nodes|
            && Holds(nodes[e := nodes[e].(weight := w)], cells, s, q[j := Item(w, q[j].byte)])
  {
    assert HoldsAt(nodes, cells, s, q, j);
    var e := cells[s[j]].el.index;
    RepItem(nodes, cells[s[j]].el, q[j].weight, q[j].byte);
    var nodes', q' := nodes[e := nodes[e].(weight := w)], q[j := Item(w, q[j].byte)];
    forall i | 0 <= i < |s| ensures HoldsAt(nodes', cells, s, q', i) {
      assert HoldsAt(nodes, cells, s, q, i);
      RepItem(nodes, cells[s[i]].el, q[i].weight, q[i].byte);
      RepItem(nodes', cells[s[i]].el, q'[i].weight, q'[i].byte);
      assert i != j ==> cells[s[i]].el != cells[s[j]].el;
    }
  }

  lemma {:induction false} OwnOneMore(cells: seq<Cell>, cells': seq<Cell>, s: seq<nat>, k: nat, bound: nat)
    requires OwnRecords(cells, s) && k <= |s| && |cells'| == |cells| + 1
    requires forall i :: 0 <= i < |cells| ==> cells'[i].el == cells[i].el
    requires forall i :: 0 <= i < |s| ==> cells[s[i]].el.At? && cells[s[i]].el.index < bound
    requires cells'[|cells|].el == At(bound)
    ensures OwnRecords(cells', PutBefore(s, k, |cells|))
  {
    var r := PutBefore(s, k, |cells|);
    assert forall i :: 0 <= i < |r| ==> r[i] == if i < k then s[i] else if i == k then |cells| else s[i - 1];
  }
}
