/** The queue and the tree that huffman/huffman.c builds, as values. */
module HuffmanTree {

  /** A tree while it is being built: a counted byte, or two trees merged. */
  datatype HTree = Item(weight: nat, byte: bv8) | Join(left: HTree, right: HTree)

  function Weight(t: HTree): (w: nat)
  {
    match t
    case Item(w, _) => w
    case Join(l, r) => Weight(l) + Weight(r)
  }

  function Height(t: HTree): (h: nat)
  {
    match t
    case Item(_, _) => 0
    case Join(l, r) => 1 + if Height(l) >= Height(r) then Height(l) else Height(r)
  }

  /** The items of a tree, left to right. */
  function Items(t: HTree): (items: seq<HTree>)
  {
    match t
    case Item(_, _) => [t]
    case Join(l, r) => Items(l) + Items(r)
  }

  /** Number of nodes, both kinds. */
  function NodeCount(t: HTree): (n: nat)
  {
    match t
    case Item(_, _) => 1
    case Join(l, r) => 1 + NodeCount(l) + NodeCount(r)
  }

  /** Sum over the items of weight times depth, the root lying at depth `d`. */
  function Cost(t: HTree, d: nat): (c: nat)
  {
    match t
    case Item(w, _) => w * d
    case Join(l, r) => Cost(l, d + 1) + Cost(r, d + 1)
  }

  /** Sum of the weights of the merged nodes. */
  function JoinWeights(t: HTree): (c: nat)
  {
    match t
    case Item(_, _) => 0
    case Join(l, r) => Weight(t) + JoinWeights(l) + JoinWeights(r)
  }

  lemma OneLevelDown(d: nat, a: nat, b: nat)
    ensures (d + 1) * a + (d + 1) * b == d * (a + b) + (a + b)
  {
  }

  lemma {:induction false} CostIsJoinWeights(t: HTree, d: nat)
    ensures Cost(t, d) == d * Weight(t) + JoinWeights(t)
  {
    match t
    case Item(_, _) =>
    case Join(l, r) =>
      CostIsJoinWeights(l, d + 1);
      CostIsJoinWeights(r, d + 1);
      OneLevelDown(d, Weight(l), Weight(r));
  }

  /** A full binary tree over n items has 2n - 1 nodes and is at most n - 1 high. */
  lemma {:induction false} FullTree(t: HTree)
    ensures NodeCount(t) == 2 * |Items(t)| - 1
    ensures Height(t) < |Items(t)|
  {
    match t
    case Item(_, _) =>
    case Join(l, r) =>
      FullTree(l);
      FullTree(r);
  }

  // ----- the queue

  function TotalWeight(q: seq<HTree>): (w: nat)
  {
    if q == [] then 0 else Weight(q[0]) + TotalWeight(q[1..])
  }

  function AllItems(q: seq<HTree>): (items: seq<HTree>)
  {
    if q == [] then [] else Items(q[0]) + AllItems(q[1..])
  }

  ghost predicate Sorted(q: seq<HTree>)
  {
    forall i, j :: 0 <= i < j < |q| ==> Weight(q[i]) <= Weight(q[j])
  }

  /** The first position whose tree outweighs `w`, or the end of the queue. */
  function FirstHeavier(q: seq<HTree>, w: nat): (k: nat)
    ensures k <= |q|
    ensures forall i :: 0 <= i < k ==> Weight(q[i]) <= w
    ensures k < |q| ==> Weight(q[k]) > w
  {
    if q == [] || Weight(q[0]) > w then 0 else 1 + FirstHeavier(q[1..], w)
  }

  /** queue_add_element. */
  function Insert(q: seq<HTree>, t: HTree): (r: seq<HTree>)
    ensures |r| == |q| + 1
  {
    var k := FirstHeavier(q, Weight(t));
    q[..k] + [t] + q[k..]
  }

  /** One round of the merging loop of build_tree. */
  function MergeFirstTwo(q: seq<HTree>): (r: seq<HTree>)
    requires |q| >= 2
    ensures |r| == |q| - 1
  {
    Insert(q[2..], Join(q[0], q[1]))
  }

  function BuildTree(q: seq<HTree>): (t: HTree)
    requires q != []
    decreases |q|
  {
    if |q| == 1 then q[0] else BuildTree(MergeFirstTwo(q))
  }

  /** Position of the first item holding `byte`, or the end of the queue. */
  function IndexOfByte(q: seq<HTree>, byte: bv8): (j: nat)
    requires forall i :: 0 <= i < |q| ==> q[i].Item?
    ensures j <= |q|
    ensures forall i :: 0 <= i < j ==> q[i].byte != byte
    ensures j < |q| ==> q[j].byte == byte
  {
    if q == [] || q[0].byte == byte then 0 else 1 + IndexOfByte(q[1..], byte)
  }

  /** One round of build_queue: count the byte in place, or insert a new item. */
  function AddByte(q: seq<HTree>, byte: bv8): (r: seq<HTree>)
    requires forall i :: 0 <= i < |q| ==> q[i].Item?
    ensures forall i :: 0 <= i < |r| ==> r[i].Item?
  {
    var j := IndexOfByte(q, byte);
    if j < |q| then q[j := Item(q[j].weight + 1, byte)] else Insert(q, Item(1, byte))
  }

  function BuildQueue(data: seq<bv8>): (q: seq<HTree>)
    ensures forall i :: 0 <= i < |q| ==> q[i].Item?
  {
    if data == [] then [] else AddByte(BuildQueue(data[..|data| - 1]), data[|data| - 1])
  }

  // ----- insertion and merging keep what is in the queue

  /** On a sorted queue, insertion keeps the order and puts the new tree behind its equals. */
  lemma {:induction false} InsertKeepsOrder(q: seq<HTree>, t: HTree)
    requires Sorted(q)
    ensures Sorted(Insert(q, t))
    ensures forall i :: 0 <= i < |q| && Weight(q[i]) == Weight(t) ==> i < FirstHeavier(q, Weight(t))
  {
  }

  lemma {:induction false} TotalsConcat(a: seq<HTree>, b: seq<HTree>)
    ensures TotalWeight(a + b) == TotalWeight(a) + TotalWeight(b)
    ensures AllItems(a + b) == AllItems(a) + AllItems(b)
    decreases |a|
  {
    if a == [] {
      assert a + b == b;
    } else {
      assert (a + b)[1..] == a[1..] + b;
      TotalsConcat(a[1..], b);
    }
  }

  /** Totals of a queue with `t` in its middle. */
  lemma {:induction false} TotalsMiddle(a: seq<HTree>, t: HTree, b: seq<HTree>)
    ensures TotalWeight(a + [t] + b) == TotalWeight(a) + Weight(t) + TotalWeight(b)
    ensures AllItems(a + [t] + b) == AllItems(a) + Items(t) + AllItems(b)
  {
    TotalsConcat(a + [t], b);
    TotalsConcat(a, [t]);
    assert [t][1..] == [];
  }

  lemma {:induction false} InsertConserves(q: seq<HTree>, t: HTree)
    ensures TotalWeight(Insert(q, t)) == TotalWeight(q) + Weight(t)
    ensures multiset(AllItems(Insert(q, t))) == multiset(AllItems(q)) + multiset(Items(t))
  {
    var k := FirstHeavier(q, Weight(t));
    var a, b := q[..k], q[k..];
    assert q == a + b;
    TotalsConcat(a, b);
    TotalsMiddle(a, t, b);
  }

  lemma {:induction false} FirstTwo(q: seq<HTree>)
    requires |q| >= 2
    ensures TotalWeight(q) == Weight(q[0]) + Weight(q[1]) + TotalWeight(q[2..])
    ensures AllItems(q) == Items(q[0]) + Items(q[1]) + AllItems(q[2..])
  {
    assert q[1..][1..] == q[2..];
    assert AllItems(q[1..]) == Items(q[1]) + AllItems(q[2..]);
  }

  lemma {:induction false} MergeConserves(q: seq<HTree>)
    requires |q| >= 2
    ensures TotalWeight(MergeFirstTwo(q)) == TotalWeight(q)
    ensures multiset(AllItems(MergeFirstTwo(q))) == multiset(AllItems(q))
  {
    InsertConserves(q[2..], Join(q[0], q[1]));
    FirstTwo(q);
  }

  /** build_tree neither loses nor invents an item, and its root carries the whole weight. */
  lemma {:induction false} BuildTreeConserves(q: seq<HTree>)
    requires q != []
    ensures Weight(BuildTree(q)) == TotalWeight(q)
    ensures multiset(Items(BuildTree(q))) == multiset(AllItems(q))
    decreases |q|
  {
    if |q| == 1 {
      assert q == [q[0]] && q[1..] == [];
    } else {
      MergeConserves(q);
      BuildTreeConserves(MergeFirstTwo(q));
    }
  }

  // ----- the queue counts the text

  function Occurrences(data: seq<bv8>, byte: bv8): (n: nat)
  {
    if data == [] then 0
    else Occurrences(data[..|data| - 1], byte) + if data[|data| - 1] == byte then 1 else 0
  }

  lemma OccurrencesSnoc(data: seq<bv8>, last: bv8, byte: bv8)
    ensures Occurrences(data + [last], byte) == Occurrences(data, byte) + if last == byte then 1 else 0
  {
    assert (data + [last])[..|data|] == data;
  }

  ghost predicate HasByte(q: seq<HTree>, byte: bv8)
  {
    exists i :: 0 <= i < |q| && q[i].Item? && q[i].byte == byte
  }

  /** Each byte of the text stands once in the queue, with the number of its occurrences. */
  ghost predicate Counts(q: seq<HTree>, data: seq<bv8>)
  {
    && (forall i :: 0 <= i < |q| ==> q[i].Item? && q[i].weight == Occurrences(data, q[i].byte) > 0)
    && (forall i, j :: 0 <= i < j < |q| ==> q[i].byte != q[j].byte)
    && (forall k :: 0 <= k < |data| ==> HasByte(q, data[k]))
  }

  lemma {:induction false} CountAgain(q: seq<HTree>, data: seq<bv8>, j: nat)
    requires Counts(q, data) && j < |q|
    ensures Counts(q[j := Item(q[j].weight + 1, q[j].byte)], data + [q[j].byte])
  {
    var byte := q[j].byte;
    var r, data' := q[j := Item(q[j].weight + 1, byte)], data + [byte];
    forall i | 0 <= i < |r| ensures r[i].weight == Occurrences(data', r[i].byte) > 0 {
      OccurrencesSnoc(data, byte, q[i].byte);
    }
    forall k | 0 <= k < |data'| ensures HasByte(r, data'[k]) {
      assert HasByte(q, data'[k]);
      var i :| 0 <= i < |q| && q[i].byte == data'[k];
      assert r[i].byte == data'[k];
    }
  }

  lemma NotCounted(q: seq<HTree>, data: seq<bv8>, byte: bv8)
    requires forall k :: 0 <= k < |data| ==> HasByte(q, data[k])
    requires !HasByte(q, byte)
    ensures Occurrences(data, byte) == 0
  {
  }

  lemma {:induction false} CountFirst(q: seq<HTree>, data: seq<bv8>, byte: bv8, k: nat)
    requires Counts(q, data) && k <= |q| && !HasByte(q, byte)
    ensures Counts(q[..k] + [Item(1, byte)] + q[k..], data + [byte])
  {
    var r, data' := q[..k] + [Item(1, byte)] + q[k..], data + [byte];
    NotCounted(q, data, byte);
    forall i | 0 <= i < |r| ensures r[i].Item? && r[i].weight == Occurrences(data', r[i].byte) > 0 {
      OccurrencesSnoc(data, byte, r[i].byte);
    }
    forall m | 0 <= m < |data'| ensures HasByte(r, data'[m]) {
      if m < |data| {
        assert HasByte(q, data[m]);
        var i :| 0 <= i < |q| && q[i].byte == data[m];
        assert r[if i < k then i else i + 1] == q[i];
      } else {
        assert r[k].byte == data'[m];
      }
    }
  }

  lemma {:induction false} CountedOnce(q: seq<HTree>, j: nat, t: HTree)
    requires j < |q| && Weight(t) == Weight(q[j]) + 1
    ensures TotalWeight(q[j := t]) == TotalWeight(q) + 1
  {
    assert q == q[..j] + [q[j]] + q[j + 1..] && q[j := t] == q[..j] + [t] + q[j + 1..];
    TotalsMiddle(q[..j], q[j], q[j + 1..]);
    TotalsMiddle(q[..j], t, q[j + 1..]);
  }

  lemma {:induction false} AddByteCounts(q: seq<HTree>, data: seq<bv8>, byte: bv8)
    requires Counts(q, data)
    ensures Counts(AddByte(q, byte), data + [byte])
    ensures TotalWeight(AddByte(q, byte)) == TotalWeight(q) + 1
  {
    var j := IndexOfByte(q, byte);
    if j < |q| {
      CountAgain(q, data, j);
      CountedOnce(q, j, Item(q[j].weight + 1, byte));
    } else {
      InsertConserves(q, Item(1, byte));
      CountFirst(q, data, byte, FirstHeavier(q, 1));
    }
  }

  /** build_queue counts every text exactly, whatever order it leaves the queue in. */
  lemma {:induction false} BuildQueueCounts(data: seq<bv8>)
    ensures Counts(BuildQueue(data), data)
    ensures TotalWeight(BuildQueue(data)) == |data|
    decreases |data|
  {
    if data == [] {
    } else {
      var n := |data| - 1;
      BuildQueueCounts(data[..n]);
      assert data == data[..n] + [data[n]];
      AddByteCounts(BuildQueue(data[..n]), data[..n], data[n]);
    }
  }

  lemma {:induction false} WeightInTotal(q: seq<HTree>, j: nat)
    requires j < |q|
    ensures Weight(q[j]) <= TotalWeight(q)
    decreases |q|
  {
    if j == 0 {
    } else {
      WeightInTotal(q[1..], j - 1);
    }
  }

  /** The queue never gets shorter as the text goes on. */
  lemma {:induction false} QueueGrows(data: seq<bv8>, i: nat)
    requires i <= |data|
    ensures |BuildQueue(data[..i])| <= |BuildQueue(data)|
    decreases |data|
  {
    if i == |data| {
      assert data[..i] == data;
    } else {
      var n := |data| - 1;
      assert data[..n][..i] == data[..i];
      QueueGrows(data[..n], i);
    }
  }
}
