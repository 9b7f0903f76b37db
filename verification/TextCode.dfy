/** The code of a text: which tree it gets, how long it is, and where each byte's code stands. */
module TextCode {
  import opened HuffmanTree
  import opened Serial
  import opened Codes
  import Depth

  /** The tree huffman_compress builds for a text. */
  function TextTree(data: seq<bv8>): (h: HTree)
    requires data != []
  {
    BuildQueueCounts(data);
    assert HasByte(BuildQueue(data), data[0]);
    BuildTree(BuildQueue(data))
  }

  function TextRoutes(data: seq<bv8>): (rs: seq<Route>)
    requires data != []
  {
    Routes(CodecTree(TextTree(data)), [])
  }

  function TextBits(data: seq<bv8>): (bits: seq<bool>)
    requires data != []
  {
    Encode(TextRoutes(data), data)
  }

  // ----- the items of the tree are the counted bytes

  lemma {:induction false} ItemsOfItems(q: seq<HTree>)
    requires forall i :: 0 <= i < |q| ==> q[i].Item?
    ensures AllItems(q) == q
    decreases |q|
  {
    if q == [] {
    } else {
      ItemsOfItems(q[1..]);
    }
  }

  lemma {:induction false} TwiceCounted(s: seq<HTree>, i: nat, j: nat)
    requires i < j < |s| && s[i] == s[j]
    ensures multiset(s)[s[i]] >= 2
  {
    assert s == s[..i] + [s[i]] + s[i + 1..j] + [s[j]] + s[j + 1..];
  }

  lemma {:induction false} OnceCounted(s: seq<HTree>, t: HTree)
    requires forall i, j :: 0 <= i < j < |s| ==> s[i] != s[j]
    ensures multiset(s)[t] <= 1
    decreases |s|
  {
    if s == [] {
    } else {
      OnceCounted(s[1..], t);
      assert s == [s[0]] + s[1..];
    }
  }

  lemma {:induction false} PermutedCounts(items: seq<HTree>, q: seq<HTree>, data: seq<bv8>)
    requires Counts(q, data) && multiset(items) == multiset(q)
    ensures Counts(items, data)
  {
    forall i | 0 <= i < |items| ensures items[i] in q {
      assert items[i] in multiset(items);
    }
    forall i, j | 0 <= i < j < |items| ensures items[i].byte != items[j].byte {
      if items[i].byte == items[j].byte {
        assert items[i] in q && items[j] in q;
        TwiceCounted(items, i, j);
        OnceCounted(q, items[i]);
      }
    }
    forall k | 0 <= k < |data| ensures HasByte(items, data[k]) {
      assert HasByte(q, data[k]);
      var m :| 0 <= m < |q| && q[m].Item? && q[m].byte == data[k];
      assert q[m] in multiset(q);
      assert q[m] in items;
    }
  }

  /** Every byte of the text is an item of its tree, exactly once and with its exact count. */
  lemma {:induction false} TextTreeCounts(data: seq<bv8>)
    requires data != []
    ensures Counts(Items(TextTree(data)), data)
    ensures Weight(TextTree(data)) == |data|
    ensures |Items(TextTree(data))| == |BuildQueue(data)|
  {
    BuildQueueCounts(data);
    var q, h := BuildQueue(data), TextTree(data);
    BuildTreeConserves(q);
    ItemsOfItems(q);
    assert |multiset(Items(h))| == |Items(h)|;
    assert |multiset(q)| == |q|;
    PermutedCounts(Items(h), q, data);
  }

  // ----- how long the code is

  function WeightedLength(rs: seq<Route>, data: seq<bv8>): (n: nat)
  {
    if rs == [] then 0 else Occurrences(data, rs[0].byte) * |rs[0].turns| + WeightedLength(rs[1..], data)
  }

  ghost predicate DistinctBytes(rs: seq<Route>)
  {
    forall i, j :: 0 <= i < j < |rs| ==> rs[i].byte != rs[j].byte
  }

  lemma {:induction false} LookupMissing(rs: seq<Route>, byte: bv8)
    requires forall i :: 0 <= i < |rs| ==> rs[i].byte != byte
    ensures Lookup(rs, byte) == []
    decreases |rs|
  {
    if rs == [] {
    } else {
      LookupMissing(rs[1..], byte);
    }
  }

  lemma {:induction false} LookupFinds(rs: seq<Route>, i: nat)
    requires DistinctBytes(rs) && i < |rs|
    ensures Lookup(rs, rs[i].byte) == rs[i].turns
    decreases |rs|
  {
    if i == 0 {
    } else {
      LookupFinds(rs[1..], i - 1);
    }
  }

  lemma OneMore(n: nat, len: nat)
    ensures (n + 1) * len == n * len + len
  {
  }

  lemma {:induction false} WeightedSnoc(rs: seq<Route>, data: seq<bv8>, byte: bv8)
    requires DistinctBytes(rs)
    ensures WeightedLength(rs, data + [byte]) == WeightedLength(rs, data) + |Lookup(rs, byte)|
    decreases |rs|
  {
    if rs == [] {
    } else {
      OccurrencesSnoc(data, byte, rs[0].byte);
      WeightedSnoc(rs[1..], data, byte);
      if rs[0].byte == byte {
        OneMore(Occurrences(data, byte), |rs[0].turns|);
        LookupMissing(rs[1..], byte);
      }
    }
  }

  lemma {:induction false} EncodeLength(rs: seq<Route>, data: seq<bv8>)
    requires DistinctBytes(rs)
    ensures |Encode(rs, data)| == WeightedLength(rs, data)
    decreases |data|
  {
    if data == [] {
      NothingCounted(rs);
    } else {
      var n := |data| - 1;
      EncodeLength(rs, data[..n]);
      WeightedSnoc(rs, data[..n], data[n]);
      assert data == data[..n] + [data[n]];
    }
  }

  lemma {:induction false} NothingCounted(rs: seq<Route>)
    ensures WeightedLength(rs, []) == 0
    decreases |rs|
  {
    if rs == [] {
    } else {
      NothingCounted(rs[1..]);
    }
  }

  lemma {:induction false} WeightedConcat(a: seq<Route>, b: seq<Route>, data: seq<bv8>)
    ensures WeightedLength(a + b, data) == WeightedLength(a, data) + WeightedLength(b, data)
    decreases |a|
  {
    if a == [] {
      assert a + b == b;
    } else {
      assert (a + b)[1..] == a[1..] + b;
      WeightedConcat(a[1..], b, data);
    }
  }

  ghost predicate NonZeroItems(items: seq<HTree>)
  {
    forall i :: 0 <= i < |items| ==> items[i].Item? && items[i].byte != 0
  }

  /** Without a zero byte the leaves of the codec's tree are the items, in the same order. */
  lemma {:induction false} RoutesAreItems(h: HTree, turns: seq<bool>)
    requires NonZeroItems(Items(h))
    ensures |Routes(CodecTree(h), turns)| == |Items(h)|
    ensures forall i :: 0 <= i < |Items(h)| ==> Routes(CodecTree(h), turns)[i].byte == Items(h)[i].byte
  {
    if h.Join? {
      SplitItems(h);
      RoutesAreItems(h.left, turns + [false]);
      RoutesAreItems(h.right, turns + [true]);
    } else {
      assert Items(h)[0] == h;
    }
  }

  lemma {:induction false} SplitItems(h: HTree)
    requires h.Join? && NonZeroItems(Items(h))
    ensures NonZeroItems(Items(h.left)) && NonZeroItems(Items(h.right))
  {
    var l, r := Items(h.left), Items(h.right);
    assert forall i :: 0 <= i < |l| ==> l[i] == Items(h)[i];
    assert forall i :: 0 <= i < |r| ==> r[i] == Items(h)[|l| + i];
  }

  lemma {:induction false} WeightedIsCost(h: HTree, turns: seq<bool>, data: seq<bv8>)
    requires NonZeroItems(Items(h))
    requires forall i :: 0 <= i < |Items(h)| ==> Items(h)[i].weight == Occurrences(data, Items(h)[i].byte)
    ensures WeightedLength(Routes(CodecTree(h), turns), data) == Cost(h, |turns|)
    decreases h
  {
    if h.Join? {
      SplitItems(h);
      var l, r := Items(h.left), Items(h.right);
      assert forall i :: 0 <= i < |l| ==> l[i] == Items(h)[i];
      assert forall i :: 0 <= i < |r| ==> r[i] == Items(h)[|l| + i];
      WeightedIsCost(h.left, turns + [false], data);
      WeightedIsCost(h.right, turns + [true], data);
      WeightedConcat(Routes(CodecTree(h.left), turns + [false]), Routes(CodecTree(h.right), turns + [true]), data);
    } else {
      assert Items(h)[0] == h;
      assert Routes(CodecTree(h), turns) == [Route(h.byte, turns)];
      assert [Route(h.byte, turns)][1..] == [];
    }
  }

  /** No byte of the text is zero. */
  ghost predicate NonZero(data: seq<bv8>)
  {
    forall k :: 0 <= k < |data| ==> data[k] != 0
  }

  lemma {:induction false} OccursSomewhere(data: seq<bv8>, byte: bv8)
    requires Occurrences(data, byte) > 0
    ensures exists k :: 0 <= k < |data| && data[k] == byte
    decreases |data|
  {
    var n := |data| - 1;
    if data[n] == byte {
    } else {
      OccursSomewhere(data[..n], byte);
      var k :| 0 <= k < n && data[..n][k] == byte;
      assert data[k] == byte;
    }
  }

  lemma {:induction false} TextItems(data: seq<bv8>)
    requires data != [] && NonZero(data)
    ensures NonZeroItems(Items(TextTree(data)))
    ensures DistinctBytes(TextRoutes(data))
    ensures Counts(Items(TextTree(data)), data)
    ensures |TextRoutes(data)| == |Items(TextTree(data))|
    ensures forall i :: 0 <= i < |TextRoutes(data)| ==> TextRoutes(data)[i].byte == Items(TextTree(data))[i].byte
  {
    var items, q := Items(TextTree(data)), BuildQueue(data);
    TextTreeCounts(data);
    BuildQueueCounts(data);
    BuildTreeConserves(q);
    ItemsOfItems(q);
    forall i | 0 <= i < |items| ensures items[i].byte != 0 {
      assert items[i] in multiset(items);
      assert items[i] in q;
      OccursSomewhere(data, items[i].byte);
    }
    RoutesAreItems(TextTree(data), []);
  }

  /**
   The bit count of a compressed text is the sum over its bytes of count times depth, which is the
   sum of the weights of the merged nodes of its tree.
   */
  lemma {:induction false} BitCount(data: seq<bv8>)
    requires data != [] && NonZero(data)
    ensures |TextBits(data)| == Cost(TextTree(data), 0) == JoinWeights(TextTree(data))
  {
    TextItems(data);
    EncodeLength(TextRoutes(data), data);
    WeightedIsCost(TextTree(data), [], data);
    CostIsJoinWeights(TextTree(data), 0);
  }

  // ----- where the code of each byte stands

  /** Position of the code of byte `i`. */
  function CodeStart(data: seq<bv8>, i: nat): (n: nat)
    requires data != [] && i <= |data|
  {
    |Encode(TextRoutes(data), data[..i])|
  }

  lemma {:induction false} PartOfFirst(x: seq<bool>, y: seq<bool>, a: nat, b: nat)
    requires a <= b <= |x|
    ensures (x + y)[a..b] == x[a..b]
  {
  }

  lemma {:induction false} EncodePart(rs: seq<Route>, data: seq<bv8>, i: nat)
    requires i < |data|
    ensures var a, b := |Encode(rs, data[..i])|, |Encode(rs, data[..i + 1])|;
            && b == a + |Lookup(rs, data[i])|
            && b <= |Encode(rs, data)|
            && Encode(rs, data)[a..b] == Lookup(rs, data[i])
    decreases |data|
  {
    var n := |data| - 1;
    var x, y := Encode(rs, data[..n]), Lookup(rs, data[n]);
    if i == n {
      assert data[..i + 1] == data;
      assert (x + y)[|x|..] == y;
    } else {
      EncodePart(rs, data[..n], i);
      assert data[..n][..i] == data[..i] && data[..n][..i + 1] == data[..i + 1];
      PartOfFirst(x, y, |Encode(rs, data[..i])|, |Encode(rs, data[..i + 1])|);
    }
  }

  /** The code of each byte of the text leads to a leaf holding that byte. */
  lemma {:induction false} TextCodeLeads(data: seq<bv8>, i: nat)
    requires data != [] && NonZero(data) && i < |data|
    ensures LeadsTo(CodecTree(TextTree(data)), Lookup(TextRoutes(data), data[i]), data[i])
  {
    TextItems(data);
    var items, rs := Items(TextTree(data)), TextRoutes(data);
    assert HasByte(items, data[i]);
    var k :| 0 <= k < |items| && items[k].Item? && items[k].byte == data[i];
    LookupFinds(rs, k);
    RoutesLead(CodecTree(TextTree(data)), [], k);
    assert rs[k].turns[0..] == rs[k].turns;
  }

  /** No code of the text is longer than the 8 bits of encoded_byte. */
  ghost predicate CodesFit(data: seq<bv8>)
    requires data != []
  {
    forall i :: 0 <= i < |TextRoutes(data)| ==> |TextRoutes(data)[i].turns| <= 8
  }

  lemma {:induction false} LookupLength(rs: seq<Route>, byte: bv8, bound: nat)
    requires forall i :: 0 <= i < |rs| ==> |rs[i].turns| <= bound
    ensures |Lookup(rs, byte)| <= bound
    decreases |rs|
  {
    if rs == [] {
    } else {
      LookupLength(rs[1..], byte, bound);
    }
  }

  /** No code is longer than the tree is high. */
  lemma {:induction false} RouteBound(h: HTree, turns: seq<bool>, i: nat)
    requires i < |Routes(CodecTree(h), turns)|
    ensures |Routes(CodecTree(h), turns)[i].turns| <= |turns| + Height(h)
    decreases h
  {
    if h.Item? {
    } else {
      var n := |Routes(CodecTree(h.left), turns + [false])|;
      if i < n {
        RouteBound(h.left, turns + [false], i);
      } else {
        RouteBound(h.right, turns + [true], i - n);
      }
    }
  }

  /** The zero byte, which gets no code, stands in the tree at most once. */
  ghost predicate OneZeroAtMost(items: seq<HTree>)
  {
    forall i, j :: 0 <= i < j < |items| ==> !(IsZero(items[i]) && IsZero(items[j]))
  }

  predicate IsZero(t: HTree)
  {
    t.Item? && t.byte == 0
  }

  lemma {:induction false} SplitZeros(h: HTree)
    requires h.Join? && OneZeroAtMost(Items(h))
    ensures OneZeroAtMost(Items(h.left)) && OneZeroAtMost(Items(h.right))
  {
    var l, r := Items(h.left), Items(h.right);
    assert forall i :: 0 <= i < |l| ==> l[i] == Items(h)[i];
    assert forall i :: 0 <= i < |r| ==> r[i] == Items(h)[|l| + i];
  }

  lemma {:induction false} NotBothZero(h: HTree)
    requires h.Join? && OneZeroAtMost(Items(h)) && h.left.Item? && h.right.Item?
    ensures !(IsZero(h.left) && IsZero(h.right))
  {
    assert Items(h) == [h.left] + [h.right];
    assert Items(h)[0] == h.left && Items(h)[1] == h.right;
  }

  /** An item other than the zero byte has a code, which ends there. */
  lemma {:induction false} ItemRoute(h: HTree, turns: seq<bool>)
    requires h.Item? && h.byte != 0
    ensures |Routes(CodecTree(h), turns)| == 1 && Routes(CodecTree(h), turns)[0].turns == turns
  {
  }

  /** Some code is as long as the tree is high: of two items at the bottom, one is not the zero byte. */
  lemma {:induction false} DeepestRoute(h: HTree, turns: seq<bool>) returns (i: nat)
    requires h.Join? && OneZeroAtMost(Items(h))
    ensures i < |Routes(CodecTree(h), turns)| && |Routes(CodecTree(h), turns)[i].turns| == |turns| + Height(h)
    decreases h
  {
    SplitZeros(h);
    var n := |Routes(CodecTree(h.left), turns + [false])|;
    if h.left.Join? && Height(h.left) >= Height(h.right) {
      i := DeepestRoute(h.left, turns + [false]);
    } else if h.right.Join? {
      var j := DeepestRoute(h.right, turns + [true]);
      i := n + j;
    } else if IsZero(h.left) {
      NotBothZero(h);
      ItemRoute(h.right, turns + [true]);
      i := n;
    } else {
      ItemRoute(h.left, turns + [false]);
      i := 0;
    }
  }

  /** The codes of a text fit if and only if its tree is at most 8 high. */
  lemma {:induction false} CodesFitIff(data: seq<bv8>)
    requires data != []
    ensures CodesFit(data) <==> Height(TextTree(data)) <= 8
  {
    forall i | 0 <= i < |TextRoutes(data)| ensures |TextRoutes(data)[i].turns| <= Height(TextTree(data)) {
      RouteBound(TextTree(data), [], i);
    }
    TextTreeCounts(data);
    if TextTree(data).Join? {
      var longest := DeepestRoute(TextTree(data), []);
      assert |TextRoutes(data)[longest].turns| == Height(TextTree(data));
    }
  }

  /** So do at most 9 distinct bytes, and so does a sorted queue below 89 bytes. */
  lemma {:induction false} LowTreeFits(data: seq<bv8>)
    requires data != []
    ensures |BuildQueue(data)| <= 9 ==> CodesFit(data)
    ensures Sorted(BuildQueue(data)) && |data| < 89 ==> CodesFit(data)
  {
    CodesFitIff(data);
    TextTreeCounts(data);
    FullTree(TextTree(data));
    BuildQueueCounts(data);
    if Sorted(BuildQueue(data)) {
      Depth.SortedDepthBound(BuildQueue(data));
    }
  }
}
