/**
 How deep the tree gets. A code has to fit the 8 bits of encoded_byte, so the tree must
 not be more than 8 high: a sorted queue guarantees that below a total weight of 89, the
 queues that build_queue really hands over do not.
 */
module Depth {
  import opened Basics
  import opened HuffmanTree

  function Fib(n: nat): (f: nat)
  {
    if n < 2 then n else Fib(n - 1) + Fib(n - 2)
  }

  lemma {:induction false} FibGrows(m: nat, n: nat)
    requires m <= n
    ensures Fib(m) <= Fib(n)
    decreases n
  {
    if m >= n {
    } else {
      FibGrows(m, n - 1);
    }
  }

  /** Weight of the heavier child; an item has none. */
  function ChildWeight(t: HTree): (w: nat)
  {
    match t
    case Item(_, _) => 0
    case Join(l, r) => if Weight(l) >= Weight(r) then Weight(l) else Weight(r)
  }

  /** Nowhere in the tree does a node weigh less than a child of its sibling. */
  ghost predicate Balanced(t: HTree)
  {
    match t
    case Item(w, _) => w > 0
    case Join(l, r) => Balanced(l) && Balanced(r) && ChildWeight(l) <= Weight(r) && ChildWeight(r) <= Weight(l)
  }

  /** No tree of the queue weighs less than a child of another one. */
  ghost predicate Level(q: seq<HTree>)
  {
    forall i, j :: 0 <= i < |q| && 0 <= j < |q| && i != j ==> ChildWeight(q[i]) <= Weight(q[j])
  }

  ghost predicate AllBalanced(q: seq<HTree>)
  {
    forall i :: 0 <= i < |q| ==> Balanced(q[i])
  }

  lemma {:induction false} InsertLevel(q: seq<HTree>, t: HTree)
    requires Level(q) && (forall i :: 0 <= i < |q| ==> ChildWeight(q[i]) <= Weight(t) && ChildWeight(t) <= Weight(q[i]))
    ensures Level(Insert(q, t))
  {
    var r := Insert(q, t);
    forall i, j | 0 <= i < |r| && 0 <= j < |r| && i != j ensures ChildWeight(r[i]) <= Weight(r[j]) {
      InsertedAt(q, t, i);
      InsertedAt(q, t, j);
    }
  }

  lemma {:induction false} InsertBalanced(q: seq<HTree>, t: HTree)
    requires AllBalanced(q) && Balanced(t)
    ensures AllBalanced(Insert(q, t))
  {
    var r := Insert(q, t);
    forall i | 0 <= i < |r| ensures Balanced(r[i]) {
      InsertedAt(q, t, i);
    }
  }

  lemma {:induction false} InsertedAt(q: seq<HTree>, t: HTree, i: nat)
    requires i <= |q|
    ensures var k := FirstHeavier(q, Weight(t));
            Insert(q, t)[i] == if i < k then q[i] else if i == k then t else q[i - 1]
  {
  }

  lemma {:induction false} MergeLevel(q: seq<HTree>)
    requires |q| >= 2 && Sorted(q) && Level(q) && AllBalanced(q)
    ensures Sorted(MergeFirstTwo(q)) && Level(MergeFirstTwo(q)) && AllBalanced(MergeFirstTwo(q))
  {
    var rest, t := q[2..], Join(q[0], q[1]);
    assert forall i :: 0 <= i < |rest| ==> rest[i] == q[i + 2];
    InsertKeepsOrder(rest, t);
    InsertLevel(rest, t);
    InsertBalanced(rest, t);
  }

  lemma {:induction false} BuildTreeBalanced(q: seq<HTree>)
    requires q != [] && Sorted(q) && Level(q) && AllBalanced(q)
    ensures Balanced(BuildTree(q))
    decreases |q|
  {
    if |q| == 1 {
    } else {
      MergeLevel(q);
      BuildTreeBalanced(MergeFirstTwo(q));
    }
  }

  lemma {:induction false} HeavyNode(high: HTree, low: HTree)
    requires Height(high) >= Height(low) && Weight(high) >= Fib(Height(high) + 2)
    requires Weight(low) > 0 && ChildWeight(high) <= Weight(low)
    requires high.Join? ==> ChildWeight(high) >= Fib(Height(high) + 1)
    ensures Weight(high) + Weight(low) >= Fib(Height(high) + 3)
  {
    var h := Height(high);
    assert Fib(h + 3) == Fib(h + 2) + Fib(h + 1);
  }

  lemma BalancedIsPositive(t: HTree)
    requires Balanced(t)
    ensures Weight(t) > 0
  {
  }

  lemma {:induction false} HeavyJoin(t: HTree, high: HTree, low: HTree)
    requires t == Join(high, low) || t == Join(low, high)
    requires Height(high) >= Height(low) && Weight(high) >= Fib(Height(high) + 2)
    requires Weight(low) > 0 && ChildWeight(high) <= Weight(low)
    requires high.Join? ==> ChildWeight(high) >= Fib(Height(high) + 1)
    ensures Weight(t) >= Fib(Height(t) + 2) && ChildWeight(t) >= Fib(Height(t) + 1)
  {
    HeavyNode(high, low);
    assert Height(t) == Height(high) + 1 && Weight(t) == Weight(high) + Weight(low) && ChildWeight(t) >= Weight(high);
  }

  lemma {:induction false} BalancedIsHeavy(t: HTree)
    requires Balanced(t)
    ensures Weight(t) >= Fib(Height(t) + 2)
    ensures t.Join? ==> ChildWeight(t) >= Fib(Height(t) + 1)
  {
    if t.Item? {
    } else {
      BalancedIsHeavy(t.left);
      BalancedIsHeavy(t.right);
      BalancedIsPositive(t.left);
      BalancedIsPositive(t.right);
      if Height(t.left) >= Height(t.right) {
        HeavyJoin(t, t.left, t.right);
      } else {
        HeavyJoin(t, t.right, t.left);
      }
    }
  }

  /**
   From a sorted queue of positive counts, a tree of height h weighs at least Fib(h + 2);
   so a total below 89 keeps every code within 8 bits.
   */
  lemma {:induction false} SortedDepthBound(q: seq<HTree>)
    requires q != [] && Sorted(q) && forall i :: 0 <= i < |q| ==> q[i].Item? && q[i].weight > 0
    ensures TotalWeight(q) >= Fib(Height(BuildTree(q)) + 2)
    ensures TotalWeight(q) < 89 ==> Height(BuildTree(q)) <= 8
  {
    BuildTreeBalanced(q);
    BuildTreeConserves(q);
    var h := Height(BuildTree(q));
    BalancedIsHeavy(BuildTree(q));
    if h > 8 {
      FibGrows(11, h + 2);
      assert Fib(3) == 2 && Fib(5) == 5 && Fib(7) == 13 && Fib(9) == 34 && Fib(11) == 89;
    }
  }

  // ----- the queues build_queue can return

  ghost predicate DistinctItems(q: seq<HTree>)
  {
    && (forall i :: 0 <= i < |q| ==> q[i].Item? && q[i].weight > 0)
    && (forall i, j :: 0 <= i < j < |q| ==> q[i].byte != q[j].byte)
  }

  lemma {:induction false} CountOneMore(data: seq<bv8>, q: seq<HTree>, j: nat)
    requires BuildQueue(data) == q && DistinctItems(q) && j < |q|
    ensures BuildQueue(data + [q[j].byte]) == q[j := Item(q[j].weight + 1, q[j].byte)]
  {
    assert (data + [q[j].byte])[..|data|] == data;
  }

  lemma {:induction false} CountMore(data: seq<bv8>, q: seq<HTree>, j: nat, w: nat) returns (data': seq<bv8>)
    requires BuildQueue(data) == q && DistinctItems(q) && j < |q| && q[j].weight <= w
    ensures BuildQueue(data') == q[j := Item(w, q[j].byte)]
    decreases w - q[j].weight
  {
    if q[j].weight == w {
      data' := data;
      assert q == q[j := q[j]];
    } else {
      CountOneMore(data, q, j);
      var t := Item(q[j].weight + 1, q[j].byte);
      data' := CountMore(data + [q[j].byte], q[j := t], j, w);
      assert q[j := t][j := Item(w, q[j].byte)] == q[j := Item(w, q[j].byte)];
    }
  }

  /** The first `k` items of the queue, all counted once. */
  function Ones(q: seq<HTree>, k: nat): (r: seq<HTree>)
    requires k <= |q| && forall i :: 0 <= i < |q| ==> q[i].Item?
    ensures |r| == k
  {
    seq(k, i requires 0 <= i < k => Item(1, q[i].byte))
  }

  lemma {:induction false} EachOnce(q: seq<HTree>, k: nat) returns (data: seq<bv8>)
    requires DistinctItems(q) && k <= |q|
    ensures BuildQueue(data) == Ones(q, k)
    decreases k
  {
    if k == 0 {
      data := [];
    } else {
      var d := EachOnce(q, k - 1);
      var b := q[k - 1].byte;
      data := d + [b];
      assert data[..|d|] == d;
      assert Ones(q, k) == Ones(q, k - 1) + [Item(1, b)];
    }
  }

  /** The counts of the first `k` items, and the remaining items counted once. */
  function Partly(q: seq<HTree>, k: nat): (r: seq<HTree>)
    requires k <= |q| && forall i :: 0 <= i < |q| ==> q[i].Item?
    ensures |r| == |q|
  {
    seq(|q|, i requires 0 <= i < |q| => if i < k then q[i] else Item(1, q[i].byte))
  }

  lemma {:induction false} ReachPrefix(q: seq<HTree>, k: nat) returns (data: seq<bv8>)
    requires DistinctItems(q) && k <= |q|
    ensures BuildQueue(data) == Partly(q, k)
    decreases k
  {
    if k == 0 {
      data := EachOnce(q, |q|);
      assert Partly(q, 0) == Ones(q, |q|);
    } else {
      var d := ReachPrefix(q, k - 1);
      data := CountMore(d, Partly(q, k - 1), k - 1, q[k - 1].weight);
      assert Partly(q, k - 1)[k - 1 := q[k - 1]] == Partly(q, k);
    }
  }

  /** build_queue does not sort: every order of every positive counts is the queue of some text. */
  lemma {:induction false} EveryQueueIsReached(q: seq<HTree>) returns (data: seq<bv8>)
    requires DistinctItems(q)
    ensures BuildQueue(data) == q && |data| == TotalWeight(q)
  {
    data := ReachPrefix(q, |q|);
    assert Partly(q, |q|) == q;
    BuildQueueCounts(data);
  }

  // ----- what an unsorted queue costs

  lemma {:induction false} MergeAt(x: HTree, y: HTree, a: seq<HTree>, b: seq<HTree>, q: seq<HTree>)
    requires q == [x, y] + a + b
    requires forall i :: 0 <= i < |a| ==> Weight(a[i]) <= Weight(x) + Weight(y)
    requires b != [] ==> Weight(b[0]) > Weight(x) + Weight(y)
    ensures BuildTree(q) == BuildTree(a + [Join(x, y)] + b)
  {
    assert q[2..] == a + b;
    var k := FirstHeavier(a + b, Weight(x) + Weight(y));
    assert forall i :: 0 <= i < |a| ==> (a + b)[i] == a[i];
    assert b != [] ==> (a + b)[|a|] == b[0];
    assert k == |a|;
  }

  lemma {:induction false} MergeFront(x: HTree, y: HTree, rest: seq<HTree>, q: seq<HTree>)
    requires q == [x, y] + rest && (rest != [] ==> Weight(rest[0]) > Weight(x) + Weight(y))
    ensures BuildTree(q) == BuildTree([Join(x, y)] + rest)
  {
    MergeAt(x, y, [], rest, q);
    assert [] + [Join(x, y)] + rest == [Join(x, y)] + rest;
  }

  /** Two merges that hang a heavy and a light item one below the other on the same tree. */
  lemma {:induction false} TwoRounds(t: HTree, heavy: HTree, light: HTree, rest: seq<HTree>, q: seq<HTree>)
    requires q == [t, heavy, light] + rest
    requires Weight(light) <= Weight(t) + Weight(heavy)
    requires rest != [] ==> Weight(rest[0]) > Weight(t) + Weight(heavy) + Weight(light)
    ensures BuildTree(q) == BuildTree([Join(light, Join(t, heavy))] + rest)
  {
    var u := Join(t, heavy);
    MergeAt(t, heavy, [light], rest, q);
    MergeFront(light, u, rest, [light] + [u] + rest);
  }

  lemma {:induction false} TwoRoundsHigher(t: HTree, heavy: HTree, light: HTree, rest: seq<HTree>, q: seq<HTree>) returns (u: HTree)
    requires q == [t, heavy, light] + rest
    requires heavy.Item? && light.Item? && light.weight == 1 && heavy.weight == Weight(t) + 1
    requires rest != [] ==> Weight(rest[0]) > 2 * Weight(t) + 2
    ensures BuildTree(q) == BuildTree([u] + rest)
    ensures Weight(u) == 2 * Weight(t) + 2 && Height(u) == Height(t) + 2
  {
    TwoRounds(t, heavy, light, rest, q);
    var s := Join(t, heavy);
    u := Join(light, s);
    assert Weight(s) == Weight(t) + heavy.weight && Height(s) == Height(t) + 1;
  }

  /** Pairs of a heavy and a light item, each just too heavy for the tree of weight `w` before it. */
  ghost predicate Rungs(w: nat, q: seq<HTree>)
    decreases |q|
  {
    q == [] || (|q| >= 2 && q[0].Item? && q[1].Item? && q[0].weight == w + 1 && q[1].weight == 1 && Rungs(2 * w + 2, q[2..]))
  }

  /** Each rung lifts the tree by a level. */
  lemma {:induction false} Climb(t: HTree, rungs: seq<HTree>, q: seq<HTree>)
    requires Rungs(Weight(t), rungs) && q == [t] + rungs
    ensures Height(BuildTree(q)) == Height(t) + |rungs|
    decreases |rungs|
  {
    if rungs == [] {
      assert q == [t];
    } else {
      var u, rest, q' := ClimbTwo(t, rungs, q);
      Climb(u, rest, q');
    }
  }

  /** Two rungs up. */
  lemma {:induction false} ClimbTwo(t: HTree, rungs: seq<HTree>, q: seq<HTree>) returns (u: HTree, rest: seq<HTree>, q': seq<HTree>)
    requires Rungs(Weight(t), rungs) && rungs != [] && q == [t] + rungs
    ensures |rest| + 2 == |rungs| && q' == [u] + rest && Rungs(Weight(u), rest)
    ensures Height(u) == Height(t) + 2 && BuildTree(q) == BuildTree(q')
  {
    rest := rungs[2..];
    NextRung(Weight(t), rungs);
    ThreeFirst(t, rungs, q);
    u := TwoRoundsHigher(t, rungs[0], rungs[1], rest, q);
    q' := [u] + rest;
  }

  lemma {:induction false} ThreeFirst(t: HTree, rungs: seq<HTree>, q: seq<HTree>)
    requires |rungs| >= 2 && q == [t] + rungs
    ensures q == [t, rungs[0], rungs[1]] + rungs[2..]
  {
  }

  lemma {:induction false} NextRung(w: nat, rungs: seq<HTree>)
    requires Rungs(w, rungs) && rungs != []
    ensures |rungs| >= 2 && Rungs(2 * w + 2, rungs[2..])
    ensures rungs[2..] != [] ==> Weight(rungs[2..][0]) > 2 * w + 2
  {
  }

  /** Items for the bytes, in their order. */
  ghost predicate Spells(q: seq<HTree>, bytes: seq<bv8>)
  {
    |q| == |bytes| && (forall i :: 0 <= i < |q| ==> q[i].Item? && q[i].weight > 0 && q[i].byte == bytes[i])
  }

  lemma {:induction false} AddRung(w: nat, bytes: seq<bv8>, k: nat, rest: seq<HTree>) returns (q: seq<HTree>)
    requires k + 2 <= |bytes| && Rungs(2 * w + 2, rest) && Spells(rest, bytes[k + 2..])
    ensures Spells(q, bytes[k..]) && Rungs(w, q) && TotalWeight(q) == w + 2 + TotalWeight(rest)
  {
    q := [Item(w + 1, bytes[k]), Item(1, bytes[k + 1])] + rest;
    assert q[2..] == rest;
    FirstTwo(q);
  }

  lemma {:induction false} LadderExists(bytes: seq<bv8>) returns (q: seq<HTree>)
    requires |bytes| == 10
    ensures Spells(q, bytes) && q[0].weight == q[1].weight == 1 && Rungs(2, q[2..])
    ensures TotalWeight(q) == 62
  {
    var r3 := AddRung(30, bytes, 8, []);
    var r2 := AddRung(14, bytes, 6, r3);
    var r1 := AddRung(6, bytes, 4, r2);
    var r0 := AddRung(2, bytes, 2, r1);
    q := [Item(1, bytes[0]), Item(1, bytes[1])] + r0;
    assert q[2..] == r0;
    FirstTwo(q);
  }

  /** Over any ten bytes there is a text of 62 of them whose tree is 9 high. */
  lemma {:induction false} TenBytesTooDeep(bytes: seq<bv8>) returns (data: seq<bv8>)
    requires |bytes| == 10 && Different(bytes)
    ensures |data| == 62 && Spells(BuildQueue(data), bytes) && Height(BuildTree(BuildQueue(data))) == 9
  {
    var q := LadderExists(bytes);
    MergeFront(q[0], q[1], q[2..], q);
    var t := Join(q[0], q[1]);
    Climb(t, q[2..], [t] + q[2..]);
    data := EveryQueueIsReached(q);
  }

  /** Over any three bytes there is a text, like "ABCAA", for which build_tree misses the best tree. */
  lemma {:induction false} UnsortedNotOptimal(x: bv8, y: bv8, z: bv8) returns (data: seq<bv8>, better: HTree)
    requires x != y && y != z && z != x
    ensures var q := BuildQueue(data);
            && |q| == 3 && q[0] == Item(3, x) && q[1] == Item(1, y) && q[2] == Item(1, z)
            && Items(better) == [q[1], q[2], q[0]] && Cost(better, 0) < Cost(BuildTree(q), 0)
  {
    var a, b, c := Item(3, x), Item(1, y), Item(1, z);
    data := EveryQueueIsReached([a, b, c]);
    var q, t := BuildQueue(data), Join(a, b);
    MergeAt(a, b, [c], [], q);
    MergeFront(c, t, [], [c] + [t] + []);
    assert [Join(c, t)] + [] == [Join(c, t)];
    better := Join(Join(b, c), a);
    assert Items(Join(b, c)) == [b] + [c] == [b, c];
    CostIsJoinWeights(better, 0);
    CostIsJoinWeights(Join(c, Join(a, b)), 0);
  }
}
