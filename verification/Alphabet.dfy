/** Which alphabets are safe: on how many different bytes build_tree is optimal, and on how many its codes fit. */
module Alphabet {
  import opened Basics
  import opened HuffmanTree
  import opened Optimality
  import opened Depth
  import opened TextCode
  import ShortText

  /** A text over the alphabet `bytes`. */
  ghost predicate TextOver(data: seq<bv8>, bytes: set<bv8>)
  {
    data != [] && (forall k :: 0 <= k < |data| ==> data[k] in bytes)
  }

  // ----- counting bytes

  lemma {:induction false} DifferentAtMost(s: seq<bv8>, bytes: set<bv8>)
    requires Different(s) && (forall i :: 0 <= i < |s| ==> s[i] in bytes)
    ensures |s| <= |bytes|
    decreases |s|
  {
    if s == [] {
    } else {
      DifferentAtMost(s[1..], bytes - {s[0]});
    }
  }

  lemma {:induction false} PickByte(bytes: set<bv8>) returns (b: bv8)
    requires |bytes| > 0
    ensures b in bytes
  {
    if forall x: bv8 :: x !in bytes {
      assert false;
    }
    b :| b in bytes;
  }

  lemma {:induction false} PickDifferent(bytes: set<bv8>, n: nat) returns (s: seq<bv8>)
    requires n <= |bytes|
    ensures |s| == n && Different(s) && (forall i :: 0 <= i < n ==> s[i] in bytes)
    decreases n
  {
    if n == 0 {
      s := [];
    } else {
      var b := PickByte(bytes);
      var rest := PickDifferent(bytes - {b}, n - 1);
      s := [b] + rest;
    }
  }

  function BytesIn(q: seq<HTree>): (s: seq<bv8>)
    requires forall i :: 0 <= i < |q| ==> q[i].Item?
    ensures |s| == |q| && (forall i :: 0 <= i < |q| ==> s[i] == q[i].byte)
  {
    seq(|q|, i requires 0 <= i < |q| => q[i].byte)
  }

  /** The queue of a text has no more items than the alphabet has bytes. */
  lemma {:induction false} QueueWithin(data: seq<bv8>, bytes: set<bv8>)
    requires TextOver(data, bytes)
    ensures 1 <= |BuildQueue(data)| <= |bytes|
  {
    var q := BuildQueue(data);
    BuildQueueCounts(data);
    assert HasByte(q, data[0]);
    forall i | 0 <= i < |q| ensures q[i].byte in bytes {
      OccursSomewhere(data, q[i].byte);
    }
    DifferentAtMost(BytesIn(q), bytes);
  }

  /** A text whose queue has only bytes of the alphabet is a text over it. */
  lemma {:induction false} OverQueue(data: seq<bv8>, bytes: set<bv8>)
    requires data != [] && (forall i :: 0 <= i < |BuildQueue(data)| ==> BuildQueue(data)[i].byte in bytes)
    ensures TextOver(data, bytes)
  {
    var q := BuildQueue(data);
    BuildQueueCounts(data);
    forall k | 0 <= k < |data| ensures data[k] in bytes {
      assert HasByte(q, data[k]);
    }
  }

  // ----- optimal trees

  /** No tree over the same weights costs less than the one that build_tree makes of the queue. */
  ghost predicate Optimal(q: seq<HTree>)
    requires q != []
  {
    forall other :: multiset(ItemWeights(other)) == multiset(Weights(q)) ==> Cost(BuildTree(q), 0) <= Cost(other, 0)
  }

  ghost predicate AllItem(q: seq<HTree>)
  {
    forall i :: 0 <= i < |q| ==> q[i].Item?
  }

  lemma {:induction false} SortedOptimal(q: seq<HTree>)
    requires q != [] && Sorted(q) && AllItem(q)
    ensures Optimal(q)
  {
    forall other | multiset(ItemWeights(other)) == multiset(Weights(q)) ensures Cost(BuildTree(q), 0) <= Cost(other, 0) {
      BuildTreeOptimal(q, other);
    }
  }

  /** The queue that queue_add_element makes of the items, one by one. */
  function SortQueue(q: seq<HTree>): (r: seq<HTree>)
    ensures |r| == |q|
  {
    if q == [] then [] else Insert(SortQueue(q[1..]), q[0])
  }

  lemma {:induction false} SortQueueSorts(q: seq<HTree>)
    requires AllItem(q)
    ensures Sorted(SortQueue(q)) && AllItem(SortQueue(q))
    ensures multiset(Weights(SortQueue(q))) == multiset(Weights(q))
    decreases |q|
  {
    if q == [] {
    } else {
      SortQueueSorts(q[1..]);
      InsertKeepsOrder(SortQueue(q[1..]), q[0]);
      InsertWeights(SortQueue(q[1..]), q[0]);
      assert Weights(q) == [Weight(q[0])] + Weights(q[1..]);
    }
  }

  /** The tree of a queue has the weights of the queue. */
  lemma {:induction false} TreeOfQueue(q: seq<HTree>)
    requires q != [] && AllItem(q)
    ensures multiset(ItemWeights(BuildTree(q))) == multiset(Weights(q))
  {
    BuildTreeConserves(q);
    ItemsOfItems(q);
    PermutedWeights(Items(BuildTree(q)), q);
  }

  lemma {:induction false} PermutedWeights(a: seq<HTree>, b: seq<HTree>)
    requires multiset(a) == multiset(b)
    ensures multiset(Weights(a)) == multiset(Weights(b))
    decreases |a|
  {
    if a == [] {
      assert |multiset(b)| == |b|;
    } else {
      var k := FirstElsewhere(a, b);
      PermutedWeights(a[1..], b[..k] + b[k + 1..]);
      TakenOut(b, k);
      assert Weights(a) == [Weight(a[0])] + Weights(a[1..]);
    }
  }

  lemma {:induction false} FirstElsewhere(a: seq<HTree>, b: seq<HTree>) returns (k: nat)
    requires a != [] && multiset(a) == multiset(b)
    ensures k < |b| && b[k] == a[0] && multiset(a[1..]) == multiset(b[..k] + b[k + 1..])
  {
    assert a == [a[0]] + a[1..];
    assert a[0] in multiset(b);
    k :| 0 <= k < |b| && b[k] == a[0];
    assert b == b[..k] + [b[k]] + b[k + 1..];
    assert multiset(a[1..]) == multiset(a) - multiset{a[0]};
    assert multiset(b[..k] + b[k + 1..]) == multiset(b) - multiset{b[k]};
  }

  lemma {:induction false} TakenOut(b: seq<HTree>, k: nat)
    requires k < |b|
    ensures multiset(Weights(b)) == multiset(Weights(b[..k] + b[k + 1..])) + multiset{Weight(b[k])}
  {
    WeightsConcat(b[..k], b[k + 1..]);
    assert Weights(b) == Weights(b[..k]) + [Weight(b[k])] + Weights(b[k + 1..]);
  }

  /** The tree of a queue is optimal if and only if it costs what the tree of the sorted queue costs. */
  lemma {:induction false} OptimalIff(q: seq<HTree>)
    requires q != [] && AllItem(q)
    ensures Optimal(q) <==> Cost(BuildTree(q), 0) == Cost(BuildTree(SortQueue(q)), 0)
  {
    var s := SortQueue(q);
    SortQueueSorts(q);
    SortedOptimal(s);
    TreeOfQueue(q);
    TreeOfQueue(s);
    assert Cost(BuildTree(s), 0) <= Cost(BuildTree(q), 0);
    if Cost(BuildTree(q), 0) == Cost(BuildTree(s), 0) {
      forall other | multiset(ItemWeights(other)) == multiset(Weights(q)) ensures Cost(BuildTree(q), 0) <= Cost(other, 0) {
        assert multiset(ItemWeights(other)) == multiset(Weights(s));
      }
    }
  }

  lemma {:induction false} TwoItemsOptimal(q: seq<HTree>)
    requires 1 <= |q| <= 2 && AllItem(q)
    ensures Optimal(q)
  {
    if |q| == 1 || Weight(q[0]) <= Weight(q[1]) {
      SortedOptimal(q);
    } else {
      var r := [q[1], q[0]];
      SortedOptimal(r);
      assert q == [q[0], q[1]];
      assert Weights(q) == [Weight(q[0])] + [Weight(q[1])] && Weights(r) == [Weight(q[1])] + [Weight(q[0])];
      TwoItemsCost(q);
      TwoItemsCost(r);
    }
  }

  lemma {:induction false} TwoItemsCost(q: seq<HTree>)
    requires |q| == 2 && AllItem(q)
    ensures Cost(BuildTree(q), 0) == q[0].weight + q[1].weight
  {
    assert q[2..] == [];
    assert BuildTree(q) == Join(q[0], q[1]);
  }

  /** Every text over the alphabet gets a tree of minimal cost. */
  ghost predicate AlwaysOptimal(bytes: set<bv8>)
  {
    forall data :: TextOver(data, bytes) ==> Counted(data) && Optimal(BuildQueue(data))
  }

  ghost predicate Counted(data: seq<bv8>)
  {
    BuildQueue(data) != []
  }

  /** Three bytes are enough for a text whose tree is not optimal. */
  lemma {:induction false} ThreeBytesFail(bytes: set<bv8>) returns (data: seq<bv8>)
    requires |bytes| >= 3
    ensures TextOver(data, bytes) && BuildQueue(data) != [] && !Optimal(BuildQueue(data))
  {
    var s := PickDifferent(bytes, 3);
    data := NotOptimalText(s);
    OverQueue(data, bytes);
  }

  lemma {:induction false} NotOptimalText(s: seq<bv8>) returns (data: seq<bv8>)
    requires |s| == 3 && Different(s)
    ensures data != [] && Spells(BuildQueue(data), s) && !Optimal(BuildQueue(data))
  {
    var better;
    data, better := UnsortedNotOptimal(s[0], s[1], s[2]);
    Beaten(BuildQueue(data), better);
  }

  lemma {:induction false} Beaten(q: seq<HTree>, better: HTree)
    requires |q| == 3 && Items(better) == [q[1], q[2], q[0]] && Cost(better, 0) < Cost(BuildTree(q), 0)
    ensures !Optimal(q)
  {
    Rotated(q);
    PermutedWeights(Items(better), q);
  }

  lemma {:induction false} Rotated(q: seq<HTree>)
    requires |q| == 3
    ensures multiset([q[1], q[2], q[0]]) == multiset(q)
  {
    assert q == [q[0], q[1], q[2]];
  }

  /** build_tree is optimal on all texts over an alphabet if and only if it has at most two bytes. */
  lemma {:induction false} AlwaysOptimalIff(bytes: set<bv8>)
    ensures AlwaysOptimal(bytes) <==> |bytes| <= 2
  {
    if |bytes| <= 2 {
      forall data | TextOver(data, bytes) ensures Counted(data) && Optimal(BuildQueue(data)) {
        QueueWithin(data, bytes);
        BuildQueueCounts(data);
        TwoItemsOptimal(BuildQueue(data));
      }
    } else {
      var data := ThreeBytesFail(bytes);
    }
  }

  // ----- codes that fit

  /** Over any ten bytes there is a text of 62 bytes with a code longer than 8 bits. */
  lemma {:induction false} ShortTextTooDeep(bytes: set<bv8>) returns (data: seq<bv8>)
    requires |bytes| >= 10
    ensures |data| == 62 && TextOver(data, bytes) && !CodesFit(data)
  {
    var s := PickDifferent(bytes, 10);
    data := TenBytesTooDeep(s);
    OverQueue(data, bytes);
    CodesFitIff(data);
  }

  /** A text of fewer than 23 bytes has codes that fit 8 bits, whatever its bytes and their order. */
  lemma {:induction false} ShortTextFits(data: seq<bv8>)
    requires 0 < |data| < 23
    ensures CodesFit(data)
  {
    BuildQueueCounts(data);
    assert HasByte(BuildQueue(data), data[0]);
    ShortText.LightQueueLow(BuildQueue(data));
    CodesFitIff(data);
  }

  ghost predicate AlwaysFits(bytes: set<bv8>)
  {
    forall data :: TextOver(data, bytes) ==> CodesFit(data)
  }

  /** All texts over an alphabet have codes that fit 8 bits if and only if it has at most nine bytes. */
  lemma {:induction false} AlwaysFitsIff(bytes: set<bv8>)
    ensures AlwaysFits(bytes) <==> |bytes| <= 9
  {
    if |bytes| <= 9 {
      forall data | TextOver(data, bytes) ensures CodesFit(data) {
        QueueWithin(data, bytes);
        LowTreeFits(data);
      }
    } else {
      var data := ShortTextTooDeep(bytes);
    }
  }
}
