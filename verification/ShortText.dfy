/** A text of fewer than 23 bytes has a tree at most 8 high, whatever the order of its queue. */
module ShortText {
  import opened HuffmanTree
  import opened Depth

  const LIMIT: nat := 22

  // ----- weights

  /** All items have a positive count. */
  ghost predicate Positive(t: HTree)
  {
    match t
    case Item(w, _) => w > 0
    case Join(l, r) => Positive(l) && Positive(r)
  }

  lemma {:induction false} AboveHeight(t: HTree)
    requires Positive(t)
    ensures Weight(t) >= Height(t) + 1
  {
    if t.Item? {
    } else {
      AboveHeight(t.left);
      AboveHeight(t.right);
    }
  }

  lemma {:induction false} TwoOf(q: seq<HTree>, i: nat, j: nat)
    requires i < j < |q|
    ensures Weight(q[i]) + Weight(q[j]) <= TotalWeight(q)
    decreases |q|
  {
    if i == 0 {
      WeightInTotal(q[1..], j - 1);
    } else {
      TwoOf(q[1..], i - 1, j - 1);
    }
  }

  /** The first two elements and two others weigh no more than the queue. */
  lemma {:induction false} FourOf(q: seq<HTree>, i: nat, j: nat)
    requires 2 <= i < |q| && 2 <= j < |q| && i != j
    ensures Weight(q[0]) + Weight(q[1]) + Weight(q[i]) + Weight(q[j]) <= TotalWeight(q)
  {
    FirstTwo(q);
    if i < j {
      TwoOf(q[2..], i - 2, j - 2);
    } else {
      TwoOf(q[2..], j - 2, i - 2);
    }
  }

  lemma {:induction false} ThreeOf(q: seq<HTree>)
    requires |q| >= 3
    ensures Weight(q[0]) + Weight(q[1]) + Weight(q[2]) <= TotalWeight(q)
  {
    FirstTwo(q);
    WeightInTotal(q[2..], 0);
  }

  // ----- merged trees and their neighbours

  /** A merged tree is never heavier than the element behind it. */
  ghost predicate Chained(q: seq<HTree>)
  {
    forall i :: 0 <= i < |q| - 1 && q[i].Join? ==> Weight(q[i]) <= Weight(q[i + 1])
  }

  ghost predicate AllPositive(q: seq<HTree>)
  {
    forall i :: 0 <= i < |q| ==> Positive(q[i])
  }

  /** Only merged trees stand from position `i` on. */
  ghost predicate JoinsFrom(q: seq<HTree>, i: nat)
  {
    forall j :: i <= j < |q| ==> q[j].Join?
  }

  /** All elements but the one at position `i` weigh at least `w`. */
  ghost predicate OthersFrom(q: seq<HTree>, i: nat, w: nat)
  {
    forall j :: 0 <= j < |q| && j != i ==> Weight(q[j]) >= w
  }

  /** Some element before position `i` weighs at least `w`. */
  ghost predicate Before(q: seq<HTree>, i: nat, w: nat)
  {
    exists j :: 0 <= j < i && j < |q| && Weight(q[j]) >= w
  }

  ghost predicate Behind(q: seq<HTree>, i: nat, w: nat)
  {
    exists j :: i < j < |q| && Weight(q[j]) >= w
  }

  /** Two elements behind position `i`, of at least these weights. */
  ghost predicate TwoBehind(q: seq<HTree>, i: nat, v: nat, w: nat)
  {
    exists j, k :: i < j < |q| && i < k < |q| && j != k && Weight(q[j]) >= v && Weight(q[k]) >= w
  }

  // ----- what a merged tree of some height has around it

  /** Around a tree of height 6 that weighs less than 12. */
  ghost predicate AroundSix(q: seq<HTree>, i: nat)
  {
    i == 0 || JoinsFrom(q, i + 1) || (Behind(q, i, 8) && Before(q, i, 6)) || TwoBehind(q, i, 7, 8)
  }

  ghost predicate Six(q: seq<HTree>, i: nat)
    requires i < |q|
  {
    Weight(q[i]) >= 12 || AroundSix(q, i)
  }

  ghost predicate Seven(q: seq<HTree>, i: nat)
    requires i < |q|
  {
    Weight(q[i]) >= 13 || (JoinsFrom(q, 0) && OthersFrom(q, i, 7))
  }

  ghost predicate Eight(q: seq<HTree>, i: nat)
    requires i < |q|
  {
    |q| == 1 || (JoinsFrom(q, 0) && Weight(q[i]) >= 15 && OthersFrom(q, i, 8))
  }

  ghost predicate Fine(q: seq<HTree>, i: nat)
    requires i < |q|
  {
    && Height(q[i]) <= 8
    && (Height(q[i]) == 6 ==> Six(q, i))
    && (Height(q[i]) == 7 ==> Seven(q, i))
    && (Height(q[i]) == 8 ==> Eight(q, i))
  }

  ghost predicate AllFine(q: seq<HTree>)
  {
    Chained(q) && AllPositive(q) && (forall i :: 0 <= i < |q| ==> Fine(q, i))
  }

  // ----- a round of build_tree

  /** A round: `q'` is `q` with its first two elements merged and put at position `p`. */
  ghost predicate Round(q: seq<HTree>, q': seq<HTree>, p: nat)
  {
    && |q| >= 2 && |q'| == |q| - 1 && p < |q'|
    && q'[p] == Join(q[0], q[1])
    && (forall i :: 2 <= i < |q| ==> q'[NewIndex(p, i)] == q[i])
    && (forall i :: 2 <= i < p + 2 ==> Weight(q[i]) <= Weight(q'[p]))
    && (p + 2 < |q| ==> Weight(q[p + 2]) > Weight(q'[p]))
  }

  /** Where an element goes. */
  function NewIndex(p: nat, i: nat): (n: nat)
    requires i >= 2
  {
    if i < p + 2 then i - 2 else i - 1
  }

  /** Where an element other than the merged one comes from. */
  function OldIndex(p: nat, n: nat): (i: nat)
    ensures n != p ==> i >= 2 && NewIndex(p, i) == n
  {
    if n < p then n + 2 else n + 1
  }

  lemma {:induction false} OneRound(q: seq<HTree>) returns (q': seq<HTree>, p: nat)
    requires |q| >= 2
    ensures q' == MergeFirstTwo(q) && Round(q, q', p)
    ensures TotalWeight(q') == TotalWeight(q) && BuildTree(q) == BuildTree(q')
  {
    var t := Join(q[0], q[1]);
    q', p := MergeFirstTwo(q), FirstHeavier(q[2..], Weight(t));
    InsertedAt(q[2..], t, p);
    forall i | 2 <= i < |q| ensures q'[NewIndex(p, i)] == q[i] {
      InsertedAt(q[2..], t, NewIndex(p, i));
    }
    forall i | 2 <= i < p + 2 ensures Weight(q[i]) <= Weight(t) {
      assert q[i] == q[2..][i - 2];
    }
    MergeConserves(q);
  }

  lemma {:induction false} RoundChained(q: seq<HTree>, q': seq<HTree>, p: nat)
    requires Round(q, q', p) && Chained(q)
    ensures Chained(q')
  {
    forall n | 0 <= n < |q'| - 1 && q'[n].Join? ensures Weight(q'[n]) <= Weight(q'[n + 1]) {
      var i := OldIndex(p, n);
      if n == p {
        assert q'[NewIndex(p, p + 2)] == q[p + 2];
      } else if n + 1 == p {
        assert q'[NewIndex(p, i)] == q[i];
      } else {
        assert q'[NewIndex(p, i)] == q[i] && q'[NewIndex(p, i + 1)] == q[i + 1];
      }
    }
  }

  lemma {:induction false} RoundPositive(q: seq<HTree>, q': seq<HTree>, p: nat)
    requires Round(q, q', p) && AllPositive(q)
    ensures AllPositive(q')
  {
    forall n | 0 <= n < |q'| ensures Positive(q'[n]) {
      var i := OldIndex(p, n);
      assert n != p ==> q'[NewIndex(p, i)] == q[i];
    }
  }

  lemma {:induction false} RoundJoins(q: seq<HTree>, q': seq<HTree>, p: nat, i: nat)
    requires Round(q, q', p) && 1 <= i < |q| && JoinsFrom(q, i + 1)
    ensures i >= 2 ==> JoinsFrom(q', NewIndex(p, i) + 1)
    ensures i == 1 ==> JoinsFrom(q', 0)
  {
    var from := if i == 1 then 0 else NewIndex(p, i) + 1;
    forall n | from <= n < |q'| ensures q'[n].Join? {
      var j := OldIndex(p, n);
      assert n != p ==> q'[NewIndex(p, j)] == q[j];
    }
  }

  lemma {:induction false} RoundOthers(q: seq<HTree>, q': seq<HTree>, p: nat, i: nat, w: nat)
    requires Round(q, q', p) && 2 <= i < |q| && OthersFrom(q, i, w)
    ensures OthersFrom(q', NewIndex(p, i), w)
  {
    forall n | 0 <= n < |q'| && n != NewIndex(p, i) ensures Weight(q'[n]) >= w {
      var j := OldIndex(p, n);
      assert n != p ==> q'[NewIndex(p, j)] == q[j];
    }
  }

  lemma {:induction false} RoundBehind(q: seq<HTree>, q': seq<HTree>, p: nat, i: nat, w: nat)
    requires Round(q, q', p) && 2 <= i < |q| && Behind(q, i, w)
    ensures Behind(q', NewIndex(p, i), w)
  {
    var j :| i < j < |q| && Weight(q[j]) >= w;
    assert q'[NewIndex(p, j)] == q[j];
  }

  lemma {:induction false} RoundTwoBehind(q: seq<HTree>, q': seq<HTree>, p: nat, i: nat, v: nat, w: nat)
    requires Round(q, q', p) && 2 <= i < |q| && TwoBehind(q, i, v, w)
    ensures TwoBehind(q', NewIndex(p, i), v, w)
  {
    var j, k :| i < j < |q| && i < k < |q| && j != k && Weight(q[j]) >= v && Weight(q[k]) >= w;
    assert q'[NewIndex(p, j)] == q[j] && q'[NewIndex(p, k)] == q[k];
  }

  /** What stood before a tree stays there, or it has been merged and stands behind the tree, heavier than it was. */
  lemma {:induction false} RoundBefore(q: seq<HTree>, q': seq<HTree>, p: nat, i: nat, v: nat, w: nat)
    requires Round(q, q', p) && AllPositive(q) && 2 <= i < |q| && Before(q, i, v) && Behind(q, i, w)
    ensures Before(q', NewIndex(p, i), v) || TwoBehind(q', NewIndex(p, i), v + 1, w)
  {
    var j :| 0 <= j < i && j < |q| && Weight(q[j]) >= v;
    if j >= 2 {
      assert q'[NewIndex(p, j)] == q[j];
    } else {
      AboveHeight(q[0]);
      AboveHeight(q[1]);
      assert Weight(q'[p]) >= v + 1;
      if p < NewIndex(p, i) {
        assert Before(q', NewIndex(p, i), v);
      } else {
        var k :| i < k < |q| && Weight(q[k]) >= w;
        assert q'[NewIndex(p, k)] == q[k];
      }
    }
  }

  /** An element that is not merged in the round. */
  lemma {:induction false} OldFine(q: seq<HTree>, q': seq<HTree>, p: nat, i: nat)
    requires Round(q, q', p) && AllFine(q) && 2 <= i < |q|
    ensures Fine(q', NewIndex(p, i))
  {
    assert Fine(q, i) && q'[NewIndex(p, i)] == q[i];
    if Height(q[i]) == 6 && Weight(q[i]) < 12 {
      OldSix(q, q', p, i);
    }
    if (Height(q[i]) == 7 && Weight(q[i]) < 13) || Height(q[i]) == 8 {
      assert JoinsFrom(q, 2);
      RoundJoins(q, q', p, 1);
      RoundOthers(q, q', p, i, if Height(q[i]) == 7 then 7 else 8);
    }
  }

  lemma {:induction false} OldSix(q: seq<HTree>, q': seq<HTree>, p: nat, i: nat)
    requires Round(q, q', p) && AllPositive(q) && 2 <= i < |q| && AroundSix(q, i)
    ensures AroundSix(q', NewIndex(p, i))
  {
    if JoinsFrom(q, i + 1) {
      RoundJoins(q, q', p, i);
    } else if TwoBehind(q, i, 7, 8) {
      RoundTwoBehind(q, q', p, i, 7, 8);
    } else {
      RoundBehind(q, q', p, i, 8);
      RoundBefore(q, q', p, i, 6, 8);
    }
  }

  // ----- the merged tree

  /** What the first two elements weigh, against each other and the third. */
  lemma {:induction false} FirstThree(q: seq<HTree>)
    requires |q| >= 2 && Chained(q) && AllPositive(q)
    ensures q[0].Join? ==> Weight(q[1]) >= Weight(q[0])
    ensures q[1].Join? && |q| > 2 ==> Weight(q[2]) >= Weight(q[1])
    ensures Weight(q[0]) >= Height(q[0]) + 1 && Weight(q[1]) >= Height(q[1]) + 1
  {
    AboveHeight(q[0]);
    AboveHeight(q[1]);
  }

  lemma {:induction false} NewSix(q: seq<HTree>, q': seq<HTree>, p: nat)
    requires Round(q, q', p) && AllFine(q) && Height(q'[p]) == 6
    ensures Six(q', p)
  {
    FirstThree(q);
    if Height(q[0]) < 5 && p > 0 {
      assert q'[NewIndex(p, 2)] == q[2];
      assert Before(q', p, 6);
      if p + 2 < |q| {
        assert q'[NewIndex(p, p + 2)] == q[p + 2];
        assert Behind(q', p, 8);
      }
    }
  }

  /** Merged trees behind one another grow. */
  lemma {:induction false} JoinsGrow(q: seq<HTree>, i: nat, j: nat)
    requires Chained(q) && i <= j < |q| && (forall k :: i <= k < j ==> q[k].Join?)
    ensures Weight(q[i]) <= Weight(q[j])
    decreases j
  {
    if i == j {
    } else {
      JoinsGrow(q, i, j - 1);
    }
  }

  lemma {:induction false} RestGrows(q: seq<HTree>, q': seq<HTree>, p: nat)
    requires Round(q, q', p) && Chained(q) && JoinsFrom(q, 1)
    ensures JoinsFrom(q', 0) && OthersFrom(q', p, Weight(q[1]))
  {
    RoundJoins(q, q', p, 1);
    forall n | 0 <= n < |q'| && n != p ensures Weight(q'[n]) >= Weight(q[1]) {
      var j := OldIndex(p, n);
      assert q'[NewIndex(p, j)] == q[j];
      JoinsGrow(q, 1, j);
    }
  }

  lemma {:induction false} NewSeven(q: seq<HTree>, q': seq<HTree>, p: nat)
    requires Round(q, q', p) && AllFine(q) && TotalWeight(q) <= LIMIT && Height(q'[p]) == 7
    ensures Seven(q', p)
  {
    FirstThree(q);
    if Height(q[0]) < 6 {
      assert Fine(q, 1);
      if Weight(q[1]) < 12 {
        if JoinsFrom(q, 2) {
          RestGrows(q, q', p);
        } else if TwoBehind(q, 1, 7, 8) {
          TooHeavy(q);
        } else {
          assert Before(q, 1, 6);
        }
      }
    }
  }

  lemma {:induction false} TooHeavy(q: seq<HTree>)
    requires |q| >= 2 && TwoBehind(q, 1, 7, 8)
    ensures TotalWeight(q) >= Weight(q[0]) + Weight(q[1]) + 15
  {
    var j, k :| 1 < j < |q| && 1 < k < |q| && j != k && Weight(q[j]) >= 7 && Weight(q[k]) >= 8;
    FourOf(q, j, k);
  }

  lemma {:induction false} NewEight(q: seq<HTree>, q': seq<HTree>, p: nat)
    requires Round(q, q', p) && AllFine(q) && TotalWeight(q) <= LIMIT && Height(q'[p]) == 8
    ensures Eight(q', p)
  {
    FirstThree(q);
    FirstTwo(q);
    assert Fine(q, 0) && Fine(q, 1);
    if JoinsFrom(q, 0) {
      RestGrows(q, q', p);
    } else if |q| > 2 {
      ThreeOf(q);
    }
  }

  lemma {:induction false} NoNine(q: seq<HTree>)
    requires |q| >= 2 && AllFine(q) && TotalWeight(q) <= LIMIT
    ensures Height(Join(q[0], q[1])) <= 8
  {
    FirstTwo(q);
    assert Fine(q, 0) && Fine(q, 1);
  }

  lemma {:induction false} RoundFine(q: seq<HTree>, q': seq<HTree>, p: nat)
    requires Round(q, q', p) && AllFine(q) && TotalWeight(q) <= LIMIT
    ensures AllFine(q')
  {
    RoundChained(q, q', p);
    RoundPositive(q, q', p);
    forall n | 0 <= n < |q'| ensures Fine(q', n) {
      if n != p {
        OldFine(q, q', p, OldIndex(p, n));
      } else {
        NewFine(q, q', p);
      }
    }
  }

  lemma {:induction false} NewFine(q: seq<HTree>, q': seq<HTree>, p: nat)
    requires Round(q, q', p) && AllFine(q) && TotalWeight(q) <= LIMIT
    ensures Fine(q', p)
  {
    NoNine(q);
    if Height(q'[p]) == 6 {
      NewSix(q, q', p);
    } else if Height(q'[p]) == 7 {
      NewSeven(q, q', p);
    } else if Height(q'[p]) == 8 {
      NewEight(q, q', p);
    }
  }

  lemma {:induction false} FineTree(q: seq<HTree>)
    requires q != [] && AllFine(q) && TotalWeight(q) <= LIMIT
    ensures Height(BuildTree(q)) <= 8
    decreases |q|
  {
    if |q| == 1 {
      assert Fine(q, 0);
    } else {
      var q', p := OneRound(q);
      RoundFine(q, q', p);
      FineTree(q');
    }
  }

  /** From any queue of items that weigh less than 23 together, build_tree makes a tree at most 8 high. */
  lemma {:induction false} LightQueueLow(q: seq<HTree>)
    requires DistinctItems(q) && q != [] && TotalWeight(q) <= LIMIT
    ensures Height(BuildTree(q)) <= 8
  {
    FineTree(q);
  }
}
