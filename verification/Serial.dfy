/** Trees as the codec sees them, and their serial form inside a compressed block. */
module Serial {
  import opened HuffmanTree

  datatype Option<+T> = None | Some(value: T)

  /**
   A tree of node_t records. A non-zero byte makes a leaf; a record whose byte is zero is an
   inner node, even when both its children are missing.
   */
  datatype Tree = Nil | Leaf(weight: nat, byte: bv8) | Branch(weight: nat, left: Tree, right: Tree)

  const STAR: bv8 := 42 // '*', an inner node follows
  const DASH: bv8 := 45 // '-', a missing child
  const QUERY: bv8 := 63 // '?', decoded when the walk falls off the tree

  function RecordTree(weight: nat, byte: bv8): (t: Tree)
  {
    if byte == 0 then Branch(weight, Nil, Nil) else Leaf(weight, byte)
  }

  /** The finished Huffman tree, as the codec sees it. */
  function CodecTree(h: HTree): (t: Tree)
    ensures !t.Nil? && t.weight == Weight(h)
  {
    match h
    case Item(w, b) => RecordTree(w, b)
    case Join(l, r) => Branch(Weight(h), CodecTree(l), CodecTree(r))
  }

  /** tree_get_size. */
  function Size(t: Tree): (n: nat)
  {
    match t
    case Nil => 0
    case Leaf(_, _) => 1
    case Branch(_, l, r) => 1 + Size(l) + Size(r)
  }

  function Missing(t: Tree): (n: nat)
  {
    match t
    case Nil => 1
    case Leaf(_, _) => 0
    case Branch(_, l, r) => Missing(l) + Missing(r)
  }

  /** The tree with its weights dropped: all that a serial form keeps. */
  function Unweighted(t: Tree): (u: Tree)
  {
    match t
    case Nil => Nil
    case Leaf(_, b) => Leaf(0, b)
    case Branch(_, l, r) => Branch(0, Unweighted(l), Unweighted(r))
  }

  predicate IsMark(b: bv8)
  {
    b == 0 || b == 42 || b == 45 // '\0', '*' and '-'
  }

  /** No leaf holds one of the three bytes with a meaning of their own. */
  ghost predicate Unmarked(t: Tree)
  {
    match t
    case Nil => true
    case Leaf(_, b) => !IsMark(b)
    case Branch(_, l, r) => Unmarked(l) && Unmarked(r)
  }

  /** serialize_tree_node. */
  function Serialize(t: Tree): (s: seq<bv8>)
    ensures s != []
  {
    match t
    case Nil => [DASH]
    case Leaf(_, b) => [b]
    case Branch(_, l, r) => [STAR] + Serialize(l) + Serialize(r)
  }

  /** deserialize_tree_node: the tree read from `pos` on and the position behind it; `None` when `s` ends too early. */
  function Parse(s: seq<bv8>, pos: nat): (r: Option<(Tree, nat)>)
    ensures r.Some? ==> pos < r.value.1 <= |s|
    decreases |s| - pos
  {
    if pos >= |s| then None
    else if s[pos] == DASH then Some((Nil, pos + 1))
    else if s[pos] != STAR then Some((RecordTree(0, s[pos]), pos + 1))
    else
      var left := Parse(s, pos + 1);
      if left.None? then None
      else
        var right := Parse(s, left.value.1);
        if right.None? then None
        else Some((Branch(0, left.value.0, right.value.0), right.value.1))
  }

  /** The bytes `w` stand in `s` at `pos`. */
  ghost predicate Stands(s: seq<bv8>, pos: nat, w: seq<bv8>)
  {
    pos + |w| <= |s| && s[pos..pos + |w|] == w
  }

  lemma StandsConcat(s: seq<bv8>, pos: nat, a: seq<bv8>, b: seq<bv8>)
    ensures Stands(s, pos, a + b) <==> Stands(s, pos, a) && Stands(s, pos + |a|, b)
  {
    if pos + |a + b| <= |s| {
      var m := pos + |a|;
      assert s[pos..pos + |a + b|] == s[pos..m] + s[m..m + |b|];
      if s[pos..m] + s[m..m + |b|] == a + b {
        assert s[pos..m] == (a + b)[..|a|] == a;
        assert s[m..m + |b|] == (a + b)[|a|..] == b;
      }
    }
  }

  lemma {:induction false} SerialLength(t: Tree)
    ensures |Serialize(t)| == Size(t) + Missing(t)
  {
    if !t.Branch? {
    } else {
      SerialLength(t.left);
      SerialLength(t.right);
    }
  }

  function Inner(t: Tree): (n: nat)
  {
    if t.Branch? then 1 + Inner(t.left) + Inner(t.right) else 0
  }

  /** In the serial form of a tree without marks, '*' stands once for every inner node and '-' once for every missing child. */
  lemma {:induction false} SerialMarks(t: Tree)
    requires Unmarked(t)
    ensures Occurrences(Serialize(t), 42) == Inner(t) && Occurrences(Serialize(t), 45) == Missing(t)
    ensures t.Branch? ==> Serialize(t)[0] == 42
  {
    if !t.Branch? {
      OneOccurs(Serialize(t)[0], 42);
      OneOccurs(Serialize(t)[0], 45);
    } else {
      SerialMarks(t.left);
      SerialMarks(t.right);
      BranchOccurs(Serialize(t.left), Serialize(t.right), 42);
      BranchOccurs(Serialize(t.left), Serialize(t.right), 45);
    }
  }

  lemma {:induction false} OneOccurs(b: bv8, byte: bv8)
    ensures Occurrences([b], byte) == if b == byte then 1 else 0
  {
    OccurrencesSnoc([], b, byte);
    assert [] + [b] == [b];
  }

  lemma {:induction false} OccurrencesConcat(a: seq<bv8>, b: seq<bv8>, byte: bv8)
    ensures Occurrences(a + b, byte) == Occurrences(a, byte) + Occurrences(b, byte)
    decreases |b|
  {
    if b == [] {
      assert a + b == a;
    } else {
      var n := |b| - 1;
      OccurrencesConcat(a, b[..n], byte);
      OccurrencesSnoc(a + b[..n], b[n], byte);
      OccurrencesSnoc(b[..n], b[n], byte);
      assert a + b == (a + b[..n]) + [b[n]] && b == b[..n] + [b[n]];
    }
  }

  lemma {:induction false} BranchOccurs(left: seq<bv8>, right: seq<bv8>, byte: bv8)
    ensures Occurrences([STAR] + left + right, byte)
            == (if STAR == byte then 1 else 0) + Occurrences(left, byte) + Occurrences(right, byte)
  {
    OneOccurs(STAR, byte);
    OccurrencesConcat([STAR], left, byte);
    OccurrencesConcat([STAR] + left, right, byte);
  }

  /** A full tree has one inner node less than leaves. */
  lemma {:induction false} FullSize(t: Tree)
    requires Missing(t) == 0
    ensures Size(t) == 2 * Inner(t) + 1
  {
    if !t.Branch? {
    } else {
      FullSize(t.left);
      FullSize(t.right);
    }
  }

  lemma {:induction false} UnweightedSize(t: Tree)
    ensures Size(Unweighted(t)) == Size(t)
  {
    if !t.Branch? {
    } else {
      UnweightedSize(t.left);
      UnweightedSize(t.right);
    }
  }

  lemma {:induction false} BranchStands(t: Tree, s: seq<bv8>, pos: nat) returns (m: nat)
    requires t.Branch? && Stands(s, pos, Serialize(t))
    ensures pos < |s| && s[pos] == STAR && m == pos + 1 + |Serialize(t.left)|
    ensures Stands(s, pos + 1, Serialize(t.left)) && Stands(s, m, Serialize(t.right))
  {
    m := pos + 1 + |Serialize(t.left)|;
    StandsConcat(s, pos, [STAR] + Serialize(t.left), Serialize(t.right));
    StandsConcat(s, pos, [STAR], Serialize(t.left));
    assert s[pos] == s[pos..pos + 1][0];
  }

  lemma {:induction false} ParseBranch(s: seq<bv8>, pos: nat, left: Tree, m: nat, right: Tree, end: nat)
    requires pos < |s| && s[pos] == STAR && Parse(s, pos + 1) == Some((left, m)) && Parse(s, m) == Some((right, end))
    ensures Parse(s, pos) == Some((Branch(0, left, right), end))
  {
  }

  lemma {:induction false} BranchRoundTrip(t: Tree, s: seq<bv8>, pos: nat, m: nat)
    requires t.Branch? && pos < |s| && s[pos] == STAR && m == pos + 1 + |Serialize(t.left)|
    requires Parse(s, pos + 1) == Some((Unweighted(t.left), m))
    requires Parse(s, m) == Some((Unweighted(t.right), m + |Serialize(t.right)|))
    ensures Parse(s, pos) == Some((Unweighted(t), pos + |Serialize(t)|))
  {
    ParseBranch(s, pos, Unweighted(t.left), m, Unweighted(t.right), m + |Serialize(t.right)|);
    assert |Serialize(t)| == 1 + |Serialize(t.left)| + |Serialize(t.right)|;
  }

  lemma {:induction false} LeafRoundTrip(t: Tree, s: seq<bv8>, pos: nat)
    requires !t.Branch? && Unmarked(t) && Stands(s, pos, Serialize(t))
    ensures Parse(s, pos) == Some((Unweighted(t), pos + |Serialize(t)|))
  {
    assert s[pos] == s[pos..pos + 1][0];
  }

  lemma {:induction false} BranchParsed(s: seq<bv8>, pos: nat) returns (left: Tree, m: nat, right: Tree, end: nat)
    requires pos < |s| && s[pos] == STAR && Parse(s, pos).Some?
    ensures Parse(s, pos + 1) == Some((left, m)) && Parse(s, m) == Some((right, end)) && pos + 1 < m < end <= |s|
    ensures Parse(s, pos) == Some((Branch(0, left, right), end))
  {
    left, m := Parse(s, pos + 1).value.0, Parse(s, pos + 1).value.1;
    right, end := Parse(s, m).value.0, Parse(s, m).value.1;
  }

  /** Reading a serial form back, whatever surrounds it, gives the tree up to its weights and stops at its end. */
  lemma {:induction false} SerialRoundTrip(t: Tree, s: seq<bv8>, pos: nat)
    requires Unmarked(t) && Stands(s, pos, Serialize(t))
    ensures Parse(s, pos) == Some((Unweighted(t), pos + |Serialize(t)|))
  {
    if t.Branch? {
      var m := BranchStands(t, s, pos);
      SerialRoundTrip(t.right, s, m);
      SerialRoundTrip(t.left, s, pos + 1);
      BranchRoundTrip(t, s, pos, m);
    } else {
      LeafRoundTrip(t, s, pos);
    }
  }

  /** Whatever bytes are read, no leaf of the tree holds a mark. */
  lemma {:induction false} ParsedIsUnmarked(s: seq<bv8>, pos: nat)
    requires Parse(s, pos).Some?
    ensures Unmarked(Parse(s, pos).value.0)
    decreases |s| - pos
  {
    if s[pos] != STAR {
    } else {
      ParsedIsUnmarked(s, pos + 1);
      ParsedIsUnmarked(s, Parse(s, pos + 1).value.1);
    }
  }

  lemma {:induction false} ThreeParts(s: seq<bv8>, pos: nat, m: nat, end: nat)
    requires pos < m <= end <= |s|
    ensures s[pos..end] == [s[pos]] + s[pos + 1..m] + s[m..end]
  {
  }

  /** Conversely the bytes read are the serial form of the tree made from them, unless one of them is zero. */
  lemma {:induction false} ParseRoundTrip(s: seq<bv8>, pos: nat)
    requires Parse(s, pos).Some?
    requires forall i :: pos <= i < Parse(s, pos).value.1 ==> s[i] != 0
    ensures s[pos..Parse(s, pos).value.1] == Serialize(Parse(s, pos).value.0)
    decreases |s| - pos
  {
    if s[pos] != STAR {
    } else {
      var left, m, right, end := BranchParsed(s, pos);
      ParseRoundTrip(s, pos + 1);
      ParseRoundTrip(s, m);
      ThreeParts(s, pos, m, end);
    }
  }

  /** A Huffman tree without a zero byte is full: its serial form has one byte per node. */
  lemma {:induction false} CodecTreeFull(h: HTree)
    requires forall i :: 0 <= i < |Items(h)| ==> Items(h)[i].Item? && Items(h)[i].byte != 0
    ensures Missing(CodecTree(h)) == 0
    ensures Size(CodecTree(h)) == NodeCount(h)
  {
    if h.Join? {
      var il, ir := Items(h.left), Items(h.right);
      assert forall i :: 0 <= i < |il| ==> il[i] == Items(h)[i];
      assert forall i :: 0 <= i < |ir| ==> ir[i] == Items(h)[|il| + i];
      CodecTreeFull(h.left);
      CodecTreeFull(h.right);
    } else {
      assert Items(h)[0] == h;
    }
  }
}
