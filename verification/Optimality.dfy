/**
 Merging the two lightest trees first is optimal: no binary tree over the same
 weights has a smaller weighted path length than the one build_tree makes from a
 sorted queue. The competing tree is a shape `s` (an `HTree` whose own weights are
 ignored) with the weights `ws` written on its leaves from left to right.
 */
module Optimality {
  import opened HuffmanTree

  function Weights(q: seq<HTree>): (ws: seq<int>)
    ensures |ws| == |q|
  {
    seq(|q|, i requires 0 <= i < |q| => Weight(q[i]))
  }

  /** Depths of the leaves of a shape, left to right. */
  function Depths(s: HTree, d: nat): (ds: seq<int>)
    ensures ds != []
  {
    match s
    case Item(_, _) => [d]
    case Join(l, r) => Depths(l, d + 1) + Depths(r, d + 1)
  }

  function Dot(ws: seq<int>, ds: seq<int>): (c: int)
    requires |ws| == |ds|
  {
    if ws == [] then 0 else ws[0] * ds[0] + Dot(ws[1..], ds[1..])
  }

  lemma {:induction false} DotConcat(a: seq<int>, b: seq<int>, c: seq<int>, d: seq<int>)
    requires |a| == |c| && |b| == |d|
    ensures Dot(a + b, c + d) == Dot(a, c) + Dot(b, d)
    decreases |a|
  {
    if a == [] {
      assert a + b == b && c + d == d;
    } else {
      assert (a + b)[1..] == a[1..] + b && (c + d)[1..] == c[1..] + d;
      DotConcat(a[1..], b, c[1..], d);
    }
  }

  lemma {:induction false} DotUpdate(ws: seq<int>, ds: seq<int>, i: nat, v: int)
    requires |ws| == |ds| && i < |ws|
    ensures Dot(ws[i := v], ds) == Dot(ws, ds) - ws[i] * ds[i] + v * ds[i]
    decreases |ws|
  {
    if i > 0 {
      assert ws[i := v][1..] == ws[1..][i - 1 := v];
      DotUpdate(ws[1..], ds[1..], i - 1, v);
    } else {
      assert ws[0 := v][1..] == ws[1..];
    }
  }

  lemma LighterDeeper(a: int, b: int, c: int, d: int)
    requires a <= b && c <= d
    ensures b * c + a * d <= a * c + b * d
  {
    assert (b - a) * (d - c) >= 0;
  }

  /** Moving the lighter of two weights to the deeper leaf does not raise the cost. */
  lemma {:induction false} SwapHelps(ws: seq<int>, ds: seq<int>, i: nat, k: nat)
    requires |ws| == |ds| && i < |ws| && k < |ws|
    requires ws[i] <= ws[k] && ds[i] <= ds[k]
    ensures Dot(ws[i := ws[k]][k := ws[i]], ds) <= Dot(ws, ds)
    ensures multiset(ws[i := ws[k]][k := ws[i]]) == multiset(ws)
  {
    DotUpdate(ws, ds, i, ws[k]);
    DotUpdate(ws[i := ws[k]], ds, k, ws[i]);
    LighterDeeper(ws[i], ws[k], ds[i], ds[k]);
  }

  // ----- the deepest pair of sibling leaves

  /** `ds` with the two entries at `k` replaced by `v`. */
  function Splice(ds: seq<int>, k: nat, v: int): (r: seq<int>)
    requires k + 1 < |ds|
    ensures |r| == |ds| - 1
  {
    ds[..k] + [v] + ds[k + 2..]
  }

  ghost predicate AtMost(ds: seq<int>, m: int)
  {
    forall i :: 0 <= i < |ds| ==> ds[i] <= m
  }

  /** Positions `k` and `k + 1` are deeper than the root and at least as deep as any other. */
  ghost predicate Deepest(ds: seq<int>, k: nat)
  {
    k + 1 < |ds| && 1 <= ds[k] == ds[k + 1] && AtMost(ds, ds[k])
  }

  lemma ShrinksLeft(a: seq<int>, a': seq<int>, b: seq<int>, k: nat, d: nat)
    requires Shrinks(a, k, a', d + 1) && AtMost(b, a[k])
    ensures Shrinks(a + b, k, a' + b, d)
  {
  }

  lemma ShrinksRight(a: seq<int>, b: seq<int>, b': seq<int>, k: nat, d: nat)
    requires Shrinks(b, k, b', d + 1) && AtMost(a, b[k])
    ensures Shrinks(a + b, |a| + k, a + b', d)
  {
    assert (a + b)[..|a| + k] == a + b[..k];
    assert (a + b)[|a| + k + 2..] == b[k + 2..];
  }

  /** The two equal and largest depths at `k` become one that is smaller by one, and still not below `d`. */
  ghost predicate Shrinks(ds: seq<int>, k: nat, ds': seq<int>, d: nat)
  {
    Deepest(ds, k) && ds[k] > d && ds' == Splice(ds, k, ds[k] - 1)
  }

  /** Shape `s'` is `s` with its deepest pair of leaves, at positions `k` and `k + 1`, made one leaf. */
  ghost predicate Collapses(s: HTree, d: nat, k: nat, s': HTree)
  {
    Shrinks(Depths(s, d), k, Depths(s', d), d)
  }

  lemma {:induction false} JoinDepths(l: HTree, r: HTree, d: nat)
    ensures Depths(Join(l, r), d) == Depths(l, d + 1) + Depths(r, d + 1)
  {
  }

  lemma {:induction false} CollapseLeft(l: HTree, r: HTree, d: nat, k: nat, l': HTree)
    requires Collapses(l, d + 1, k, l')
    requires AtMost(Depths(r, d + 1), Depths(l, d + 1)[k])
    ensures Collapses(Join(l, r), d, k, Join(l', r))
  {
    ShrinksLeft(Depths(l, d + 1), Depths(l', d + 1), Depths(r, d + 1), k, d);
    JoinDepths(l, r, d);
    JoinDepths(l', r, d);
  }

  lemma {:induction false} CollapseRight(l: HTree, r: HTree, d: nat, k: nat, r': HTree)
    requires Collapses(r, d + 1, k, r')
    requires AtMost(Depths(l, d + 1), Depths(r, d + 1)[k])
    ensures Collapses(Join(l, r), d, |Depths(l, d + 1)| + k, Join(l, r'))
  {
    ShrinksRight(Depths(l, d + 1), Depths(r, d + 1), Depths(r', d + 1), k, d);
    JoinDepths(l, r, d);
    JoinDepths(l, r', d);
  }

  lemma {:induction false} CollapseDeepest(s: HTree, d: nat) returns (k: nat, s': HTree)
    requires s.Join?
    ensures Collapses(s, d, k, s')
    decreases s
  {
    var l, r := s.left, s.right;
    var kl, l' := 0, l;
    var kr, r' := 0, r;
    if l.Join? {
      kl, l' := CollapseDeepest(l, d + 1);
    }
    if r.Join? {
      kr, r' := CollapseDeepest(r, d + 1);
    }
    if l.Item? && r.Item? {
      k, s' := 0, Item(0, 0);
    } else if l.Join? && (r.Item? || Depths(r, d + 1)[kr] <= Depths(l, d + 1)[kl]) {
      CollapseLeft(l, r, d, kl, l');
      k, s' := kl, Join(l', r);
    } else {
      CollapseRight(l, r, d, kr, r');
      k, s' := |Depths(l, d + 1)| + kr, Join(l, r');
    }
  }

  lemma DotCons(w: int, ws: seq<int>, d: int, ds: seq<int>)
    requires |ws| == |ds|
    ensures Dot([w] + ws, [d] + ds) == w * d + Dot(ws, ds)
  {
    assert ([w] + ws)[1..] == ws && ([d] + ds)[1..] == ds;
  }

  lemma OneLevelUp(x: int, y: int, e: int)
    requires e >= 1
    ensures (x + y) * (e - 1) == x * e + y * e - x - y
  {
  }

  /** Writing the sum of two siblings one level higher saves exactly that sum. */
  lemma {:induction false} CollapseCost(ws: seq<int>, ds: seq<int>, k: nat)
    requires |ws| == |ds| && k + 1 < |ws| && ds[k] == ds[k + 1] >= 1
    ensures Dot(Splice(ws, k, ws[k] + ws[k + 1]), Splice(ds, k, ds[k] - 1))
            == Dot(ws, ds) - ws[k] - ws[k + 1]
  {
    var a, b := ws[..k], ws[k + 2..];
    var c, d := ds[..k], ds[k + 2..];
    var x, y, e := ws[k], ws[k + 1], ds[k];
    assert ws == a + ([x] + ([y] + b)) && ds == c + ([e] + ([e] + d));
    DotConcat(a, [x] + ([y] + b), c, [e] + ([e] + d));
    DotCons(x, [y] + b, e, [e] + d);
    DotCons(y, b, e, d);
    assert a + [x + y] + b == a + ([x + y] + b) && c + [e - 1] + d == c + ([e - 1] + d);
    DotConcat(a, [x + y] + b, c, [e - 1] + d);
    DotCons(x + y, b, e - 1, d);
    OneLevelUp(x, y, e);
  }

  lemma {:induction false} BringOne(ws: seq<int>, ds: seq<int>, i: nat, k: nat) returns (r: seq<int>)
    requires |ws| == |ds| && i < |ws| && k < |ws|
    requires ds[i] <= ds[k] && ws[i] <= ws[k]
    ensures |r| == |ws| && r[k] == ws[i] && multiset(r) == multiset(ws)
    ensures forall m :: 0 <= m < |r| && m != i && m != k ==> r[m] == ws[m]
    ensures Dot(r, ds) <= Dot(ws, ds)
  {
    SwapHelps(ws, ds, i, k);
    r := ws[i := ws[k]][k := ws[i]];
  }

  lemma FindWeight(ws: seq<int>, x: int) returns (i: nat)
    requires x in multiset(ws)
    ensures i < |ws| && ws[i] == x
  {
    i :| 0 <= i < |ws| && ws[i] == x;
  }

  lemma RemoveOne(ws: seq<int>, k: nat, rest: multiset<int>)
    requires k < |ws| && multiset(ws) == multiset{ws[k]} + rest
    ensures multiset(ws[..k] + ws[k + 1..]) == rest
  {
    assert ws == ws[..k] + [ws[k]] + ws[k + 1..];
    assert multiset(ws) == multiset(ws[..k] + ws[k + 1..]) + multiset{ws[k]};
    assert rest == multiset(ws) - multiset{ws[k]};
  }

  ghost predicate NoneBelow(rest: multiset<int>, y: int)
  {
    forall w :: w in rest ==> y <= w
  }

  /** The two lightest weights can be brought to positions `k` and `k + 1`, the deepest ones. */
  lemma {:induction false} BringLightest(ws: seq<int>, ds: seq<int>, k: nat, x: int, y: int, rest: multiset<int>)
    returns (r: seq<int>)
    requires |ws| == |ds| && Deepest(ds, k)
    requires multiset(ws) == multiset{x} + (multiset{y} + rest)
    requires x <= y && NoneBelow(rest, y)
    ensures |r| == |ws| && r[k] == x && r[k + 1] == y
    ensures multiset(r) == multiset(ws)
    ensures Dot(r, ds) <= Dot(ws, ds)
  {
    var i := FindWeight(ws, x);
    assert ws[k] in multiset(ws);
    var r1 := BringOne(ws, ds, i, k);
    r := BringSecond(r1, ds, k, y, rest);
  }

  lemma {:induction false} BringSecond(ws: seq<int>, ds: seq<int>, k: nat, y: int, rest: multiset<int>)
    returns (r: seq<int>)
    requires |ws| == |ds| && k + 1 < |ws|
    requires forall i :: 0 <= i < |ds| ==> ds[i] <= ds[k + 1]
    requires multiset(ws) == multiset{ws[k]} + (multiset{y} + rest)
    requires NoneBelow(rest, y)
    ensures |r| == |ws| && r[k] == ws[k] && r[k + 1] == y
    ensures multiset(r) == multiset(ws)
    ensures Dot(r, ds) <= Dot(ws, ds)
  {
    var others := ws[..k] + ws[k + 1..];
    RemoveOne(ws, k, multiset{y} + rest);
    var j := FindWeight(others, y);
    assert others[k] == ws[k + 1] && others[k] in multiset(others);
    var i := if j < k then j else j + 1;
    assert ws[i] == y;
    r := BringOne(ws, ds, i, k + 1);
  }

  lemma {:induction false} PairSum(r: seq<int>, k: nat, rest: multiset<int>)
    requires k + 1 < |r| && multiset(r) == multiset{r[k]} + (multiset{r[k + 1]} + rest)
    ensures multiset(Splice(r, k, r[k] + r[k + 1])) == multiset{r[k] + r[k + 1]} + rest
  {
    RemoveOne(r, k, multiset{r[k + 1]} + rest);
    var r1 := r[..k] + r[k + 1..];
    RemoveOne(r1, k, rest);
    assert r1[..k] == r[..k] && r1[k + 1..] == r[k + 2..];
  }

  /** The saving of one merge: the rearranged weights, with the lightest pair written one level higher. */
  lemma {:induction false} RoundCost(ws: seq<int>, ds: seq<int>, k: nat, x: int, y: int, rest: multiset<int>)
    returns (ws': seq<int>)
    requires |ws| == |ds| && Deepest(ds, k)
    requires multiset(ws) == multiset{x} + (multiset{y} + rest)
    requires x <= y && NoneBelow(rest, y)
    ensures |ws'| == |ws| - 1 && multiset(ws') == multiset{x + y} + rest
    ensures Dot(ws', Splice(ds, k, ds[k] - 1)) + x + y <= Dot(ws, ds)
  {
    var r := BringLightest(ws, ds, k, x, y, rest);
    CollapseCost(r, ds, k);
    PairSum(r, k, rest);
    ws' := Splice(r, k, x + y);
  }

  // ----- the theorem

  function SumJoins(q: seq<HTree>): (c: nat)
  {
    if q == [] then 0 else JoinWeights(q[0]) + SumJoins(q[1..])
  }

  lemma {:induction false} SumJoinsMiddle(a: seq<HTree>, t: HTree, b: seq<HTree>)
    ensures SumJoins(a + [t] + b) == JoinWeights(t) + SumJoins(a + b)
    decreases |a|
  {
    if a == [] {
      assert a + [t] + b == [t] + b && a + b == b;
    } else {
      assert (a + [t] + b)[1..] == a[1..] + [t] + b && (a + b)[1..] == a[1..] + b;
      SumJoinsMiddle(a[1..], t, b);
    }
  }

  lemma {:induction false} WeightsConcat(a: seq<HTree>, b: seq<HTree>)
    ensures Weights(a + b) == Weights(a) + Weights(b)
  {
  }

  lemma {:induction false} InsertWeights(q: seq<HTree>, t: HTree)
    ensures multiset(Weights(Insert(q, t))) == multiset{Weight(t)} + multiset(Weights(q))
    ensures SumJoins(Insert(q, t)) == JoinWeights(t) + SumJoins(q)
  {
    var k := FirstHeavier(q, Weight(t));
    var a, b := q[..k], q[k..];
    assert q == a + b;
    SumJoinsMiddle(a, t, b);
    WeightsConcat(a, b);
    WeightsConcat(a + [t], b);
    WeightsConcat(a, [t]);
    assert Weights([t]) == [Weight(t)];
  }

  /** What one merge does to the weights and to the joins made so far. */
  lemma {:induction false} MergeWeights(q: seq<HTree>) returns (x: int, y: int, rest: multiset<int>)
    requires |q| >= 2
    ensures x == Weight(q[0]) && y == Weight(q[1]) && rest == multiset(Weights(q[2..]))
    ensures multiset(Weights(MergeFirstTwo(q))) == multiset{x + y} + rest
    ensures multiset(Weights(q)) == multiset{x} + (multiset{y} + rest)
    ensures SumJoins(MergeFirstTwo(q)) == SumJoins(q) + x + y
  {
    x, y, rest := Weight(q[0]), Weight(q[1]), multiset(Weights(q[2..]));
    InsertWeights(q[2..], Join(q[0], q[1]));
    assert q[1..][1..] == q[2..];
    assert Weights(q) == [Weight(q[0])] + ([Weight(q[1])] + Weights(q[2..]));
  }

  lemma {:induction false} MergeKeepsOrder(q: seq<HTree>)
    requires |q| >= 2 && Sorted(q)
    ensures Sorted(MergeFirstTwo(q))
    ensures Weight(q[0]) <= Weight(q[1])
    ensures NoneBelow(multiset(Weights(q[2..])), Weight(q[1]))
  {
    var rest := q[2..];
    assert forall i :: 0 <= i < |rest| ==> rest[i] == q[i + 2];
    assert Sorted(rest);
    InsertKeepsOrder(rest, Join(q[0], q[1]));
    forall w | w in multiset(Weights(rest)) ensures Weight(q[1]) <= w {
      var i := FindWeight(Weights(rest), w);
    }
  }

  lemma {:induction false} FirstMerge(q: seq<HTree>)
    requires |q| >= 2
    ensures BuildTree(q) == BuildTree(MergeFirstTwo(q))
  {
  }

  /** One merge of a sorted queue, seen through its weights. */
  lemma {:induction false} MergeSummary(q: seq<HTree>)
    returns (q': seq<HTree>, x: int, y: int, rest: multiset<int>)
    requires |q| >= 2 && Sorted(q)
    ensures |q'| == |q| - 1 && Sorted(q') && BuildTree(q) == BuildTree(q')
    ensures multiset(Weights(q)) == multiset{x} + (multiset{y} + rest)
    ensures multiset(Weights(q')) == multiset{x + y} + rest
    ensures x <= y && NoneBelow(rest, y)
    ensures SumJoins(q') == SumJoins(q) + x + y
  {
    x, y, rest := MergeWeights(q);
    MergeKeepsOrder(q);
    FirstMerge(q);
    q' := MergeFirstTwo(q);
  }

  lemma {:induction false} LastTree(q: seq<HTree>, s: HTree, ws: seq<int>)
    requires |q| == 1 && |ws| == |Depths(s, 0)| == 1
    ensures JoinWeights(BuildTree(q)) <= SumJoins(q) + Dot(ws, Depths(s, 0))
  {
    assert q[1..] == [] && s.Item?;
    assert ws == [ws[0]] + [] && Depths(s, 0) == [0] + [];
    DotCons(ws[0], [], 0, []);
  }

  lemma {:induction false} OneRoundMore(q: seq<HTree>, s: HTree, ws: seq<int>, q': seq<HTree>, s': HTree, ws': seq<int>, xy: int)
    requires q != [] && q' != [] && |ws| == |Depths(s, 0)| && |ws'| == |Depths(s', 0)|
    requires BuildTree(q) == BuildTree(q') && SumJoins(q') == SumJoins(q) + xy
    requires Dot(ws', Depths(s', 0)) + xy <= Dot(ws, Depths(s, 0))
    requires JoinWeights(BuildTree(q')) <= SumJoins(q') + Dot(ws', Depths(s', 0))
    ensures JoinWeights(BuildTree(q)) <= SumJoins(q) + Dot(ws, Depths(s, 0))
  {
  }

  lemma {:induction false} MergesBeat(q: seq<HTree>, s: HTree, ws: seq<int>)
    requires q != [] && Sorted(q)
    requires |ws| == |Depths(s, 0)| && multiset(ws) == multiset(Weights(q))
    ensures JoinWeights(BuildTree(q)) <= SumJoins(q) + Dot(ws, Depths(s, 0))
    decreases |q|
  {
    assert |multiset(ws)| == |ws| && |multiset(Weights(q))| == |q|;
    if |q| == 1 {
      LastTree(q, s, ws);
    } else {
      var q', x, y, rest := MergeSummary(q);
      var k, s' := CollapseDeepest(s, 0);
      var ws' := RoundCost(ws, Depths(s, 0), k, x, y, rest);
      MergesBeat(q', s', ws');
      OneRoundMore(q, s, ws, q', s', ws', x + y);
    }
  }

  function ItemWeights(t: HTree): (ws: seq<int>)
    ensures |ws| == |Items(t)|
  {
    Weights(Items(t))
  }

  lemma {:induction false} CostIsDot(t: HTree, d: nat)
    ensures |Depths(t, d)| == |Items(t)|
    ensures Cost(t, d) == Dot(ItemWeights(t), Depths(t, d))
  {
    match t
    case Item(_, _) =>
    case Join(l, r) =>
      CostIsDot(l, d + 1);
      CostIsDot(r, d + 1);
      assert ItemWeights(t) == ItemWeights(l) + ItemWeights(r);
      DotConcat(ItemWeights(l), ItemWeights(r), Depths(l, d + 1), Depths(r, d + 1));
  }

  lemma {:induction false} NoJoinsYet(q: seq<HTree>)
    requires forall i :: 0 <= i < |q| ==> q[i].Item?
    ensures SumJoins(q) == 0
    decreases |q|
  {
    if q == [] {
    } else {
      NoJoinsYet(q[1..]);
    }
  }

  /**
   Optimality of build_tree: from a sorted queue of items it makes a tree whose weighted path
   length is minimal among all binary trees with the same item weights.
   */
  lemma {:induction false} BuildTreeOptimal(q: seq<HTree>, other: HTree)
    requires q != [] && Sorted(q) && forall i :: 0 <= i < |q| ==> q[i].Item?
    requires multiset(ItemWeights(other)) == multiset(Weights(q))
    ensures Cost(BuildTree(q), 0) <= Cost(other, 0)
  {
    CostIsJoinWeights(BuildTree(q), 0);
    NoJoinsYet(q);
    CostIsDot(other, 0);
    MergesBeat(q, other, ItemWeights(other));
  }
}
