/** The code table, and why a bit stream made with it can be read back by walking the tree. */
module Codes {
  import opened Bits
  import opened HuffmanTree
  import opened Basics
  import opened Serial

  /** encoding_info_t. */
  datatype EncodingInfo = EncodingInfo(byte: bv8, encodedByte: bv8, numBits: nat)

  /** A leaf byte and the way to it from the root, `true` meaning right. */
  datatype Route = Route(byte: bv8, turns: seq<bool>)

  /** All leaves from left to right, with `turns` put before their routes. */
  function Routes(t: Tree, turns: seq<bool>): (rs: seq<Route>)
  {
    match t
    case Nil => []
    case Leaf(_, b) => [Route(b, turns)]
    case Branch(_, l, r) => Routes(l, turns + [false]) + Routes(r, turns + [true])
  }

  /** build_encoding_table. */
  function Table(t: Tree, encodedByte: bv8, numBits: nat): (table: seq<EncodingInfo>)
    decreases t
  {
    match t
    case Nil => []
    case Leaf(_, b) => [EncodingInfo(b, encodedByte, numBits)]
    case Branch(_, l, r) =>
      Table(l, (encodedByte << 1) | 0, (numBits + 1) % 256) + Table(r, (encodedByte << 1) | 1, (numBits + 1) % 256)
  }

  /** tree_count_leaves. */
  function CountLeaves(t: Tree): (n: nat)
  {
    match t
    case Nil => 0
    case Leaf(_, _) => 1
    case Branch(_, l, r) => CountLeaves(l) + CountLeaves(r)
  }

  function TreeHeight(t: Tree): (h: nat)
  {
    match t
    case Nil => 0
    case Leaf(_, _) => 0
    case Branch(_, l, r) => 1 + if TreeHeight(l) >= TreeHeight(r) then TreeHeight(l) else TreeHeight(r)
  }

  /** The turns read as a binary number, as far as 8 bits hold it. */
  function CodeOf(turns: seq<bool>): (code: bv8)
  {
    if turns == [] then 0
    else (CodeOf(turns[..|turns| - 1]) << 1) | BoolBit(turns[|turns| - 1])
  }

  lemma CodeOfSnoc(turns: seq<bool>, turn: bool)
    ensures CodeOf(turns + [turn]) == (CodeOf(turns) << 1) | BoolBit(turn)
  {
    assert (turns + [turn])[..|turns|] == turns;
  }

  lemma {:induction false} CodeOfBit(turns: seq<bool>, k: nat)
    requires k < |turns| <= 8
    ensures Bit(CodeOf(turns), |turns| - 1 - k) == turns[k]
    decreases |turns|
  {
    var n := |turns| - 1;
    ShiftIn(CodeOf(turns[..n]), turns[n], n - k);
    if k == n {
    } else {
      CodeOfBit(turns[..n], k);
    }
  }

  function LowBits(b: bv8, numBits: nat): (bits: seq<bool>)
    requires numBits <= 8
    ensures |bits| == numBits
  {
    seq(numBits, j requires 0 <= j < numBits => Bit(b, j))
  }

  /** What compress_data puts for a code: its turns, in the order in which the walk takes them. */
  lemma {:induction false} EmittedBits(turns: seq<bool>)
    requires |turns| <= 8
    ensures LowBits(ReverseBits(CodeOf(turns), |turns|), |turns|) == turns
  {
    forall j | 0 <= j < |turns| ensures Bit(ReverseBits(CodeOf(turns), |turns|), j) == turns[j] {
      ReverseBitsReverses(CodeOf(turns), |turns|, j);
      CodeOfBit(turns, j);
    }
  }

  // ----- the table spells the routes

  function EntryOf(r: Route): (e: EncodingInfo)
  {
    EncodingInfo(r.byte, CodeOf(r.turns), |r.turns| % 256)
  }

  function EntriesOf(rs: seq<Route>): (es: seq<EncodingInfo>)
    ensures |es| == |rs|
  {
    seq(|rs|, i requires 0 <= i < |rs| => EntryOf(rs[i]))
  }

  lemma EntriesConcat(a: seq<Route>, b: seq<Route>)
    ensures EntriesOf(a + b) == EntriesOf(a) + EntriesOf(b)
  {
  }

  lemma NextLength(n: nat)
    ensures (n % 256 + 1) % 256 == (n + 1) % 256
  {
  }

  /** One entry per leaf, left to right, each spelling the route to its leaf. */
  lemma {:induction false} TableSpellsRoutes(t: Tree, turns: seq<bool>)
    ensures Table(t, CodeOf(turns), |turns| % 256) == EntriesOf(Routes(t, turns))
    ensures |Routes(t, turns)| == CountLeaves(t)
    decreases t
  {
    if !t.Branch? {
    } else {
      CodeOfSnoc(turns, false);
      CodeOfSnoc(turns, true);
      NextLength(|turns|);
      TableSpellsRoutes(t.left, turns + [false]);
      TableSpellsRoutes(t.right, turns + [true]);
      EntriesConcat(Routes(t.left, turns + [false]), Routes(t.right, turns + [true]));
    }
  }

  // ----- routes and the tree

  /** The walk along `turns` from the root of `t` ends at a leaf holding `byte`. */
  ghost predicate LeadsTo(t: Tree, turns: seq<bool>, byte: bv8)
    decreases |turns|
  {
    if turns == [] then t.Leaf? && t.byte == byte
    else t.Branch? && LeadsTo(if turns[0] then t.right else t.left, turns[1..], byte)
  }

  lemma {:induction false} RoutesLead(t: Tree, turns: seq<bool>, i: nat)
    requires i < |Routes(t, turns)|
    ensures turns <= Routes(t, turns)[i].turns
    ensures LeadsTo(t, Routes(t, turns)[i].turns[|turns|..], Routes(t, turns)[i].byte)
    ensures |turns| <= |Routes(t, turns)[i].turns| <= |turns| + TreeHeight(t)
    decreases t
  {
    if !t.Branch? {
    } else {
      var n := |Routes(t.left, turns + [false])|;
      var r := Routes(t, turns)[i].turns;
      if i < n {
        RoutesLead(t.left, turns + [false], i);
        OneTurn(turns, false, r);
      } else {
        RoutesLead(t.right, turns + [true], i - n);
        OneTurn(turns, true, r);
      }
    }
  }

  lemma {:induction false} OneTurn(turns: seq<bool>, turn: bool, r: seq<bool>)
    requires turns + [turn] <= r
    ensures turns <= r && r[|turns|..][0] == turn && r[|turns|..][1..] == r[|turns + [turn]|..]
  {
  }

  lemma FirstTurn(a: seq<bool>, turn: bool, b: seq<bool>)
    requires a + [turn] <= b
    ensures b[|a|] == turn
  {
    assert (a + [turn])[|a|] == turn;
  }

  /** No code is the beginning of another one. */
  lemma {:induction false} PrefixFree(t: Tree, turns: seq<bool>, i: nat, j: nat)
    requires i < |Routes(t, turns)| && j < |Routes(t, turns)| && i != j
    ensures !(Routes(t, turns)[i].turns <= Routes(t, turns)[j].turns)
    decreases t
  {
    if !t.Branch? {
    } else {
      var n := |Routes(t.left, turns + [false])|;
      if i < n && j < n {
        PrefixFree(t.left, turns + [false], i, j);
      } else if n <= i && n <= j {
        PrefixFree(t.right, turns + [true], i - n, j - n);
      } else {
        var a, b := if i < n then i else j, if i < n then j else i;
        RoutesLead(t.left, turns + [false], a);
        RoutesLead(t.right, turns + [true], b - n);
        FirstTurn(turns, false, Routes(t, turns)[a].turns);
        FirstTurn(turns, true, Routes(t, turns)[b].turns);
      }
    }
  }

  /** In a full tree some path is as long as the tree is high. */
  lemma {:induction false} LongestRoute(t: Tree, turns: seq<bool>) returns (i: nat)
    requires Missing(t) == 0
    ensures i < |Routes(t, turns)| && |Routes(t, turns)[i].turns| == |turns| + TreeHeight(t)
    decreases t
  {
    match t
    case Leaf(_, _) =>
      i := 0;
    case Branch(_, l, r) =>
      if TreeHeight(l) >= TreeHeight(r) {
        i := LongestRoute(l, turns + [false]);
      } else {
        var j := LongestRoute(r, turns + [true]);
        i := |Routes(l, turns + [false])| + j;
      }
  }

  /** Sum over the codes of 2 to the power of `bits` minus their length. */
  function Kraft(rs: seq<Route>, bits: nat): (sum: nat)
  {
    if rs == [] then 0
    else (if |rs[0].turns| <= bits then Pow2(bits - |rs[0].turns|) else 0) + Kraft(rs[1..], bits)
  }

  lemma {:induction false} KraftConcat(a: seq<Route>, b: seq<Route>, bits: nat)
    ensures Kraft(a + b, bits) == Kraft(a, bits) + Kraft(b, bits)
    decreases |a|
  {
    if a == [] {
      assert a + b == b;
    } else {
      assert (a + b)[1..] == a[1..] + b;
      KraftConcat(a[1..], b, bits);
    }
  }

  /** The codes of a full tree use up the code space exactly: their Kraft sum is 1. */
  lemma {:induction false} KraftExact(t: Tree, turns: seq<bool>, bits: nat)
    requires Missing(t) == 0 && |turns| + TreeHeight(t) <= bits
    ensures Kraft(Routes(t, turns), bits) == Pow2(bits - |turns|)
    decreases t
  {
    match t
    case Leaf(_, b) =>
      assert [Route(b, turns)][1..] == [];
    case Branch(_, l, r) =>
      KraftExact(l, turns + [false], bits);
      KraftExact(r, turns + [true], bits);
      KraftConcat(Routes(l, turns + [false]), Routes(r, turns + [true]), bits);
  }

  // ----- encoding and decoding

  /** The code of a byte; no bits at all for a byte without an entry, as in find_encoded_byte. */
  function Lookup(rs: seq<Route>, byte: bv8): (turns: seq<bool>)
  {
    if rs == [] then [] else if rs[0].byte == byte then rs[0].turns else Lookup(rs[1..], byte)
  }

  function Encode(rs: seq<Route>, data: seq<bv8>): (bits: seq<bool>)
  {
    if data == [] then [] else Encode(rs, data[..|data| - 1]) + Lookup(rs, data[|data| - 1])
  }

  /** deserialize_next_char: the byte decoded from position `pos` on and the position behind it. */
  function Walk(t: Tree, bits: seq<bool>, pos: nat): (r: Option<(bv8, nat)>)
    requires !t.Nil?
    ensures r.Some? ==> pos < r.value.1 <= |bits|
    decreases t
  {
    if pos >= |bits| then None
    else
      var next := if t.Leaf? then Nil else if bits[pos] then t.right else t.left;
      match next
      case Nil => Some((QUERY, pos + 1))
      case Leaf(_, b) => Some((b, pos + 1))
      case Branch(_, _, _) => Walk(next, bits, pos + 1)
  }

  /** Walking the tree over the turns of a leaf returns its byte and consumes exactly these turns. */
  lemma {:induction false} WalkDecodes(t: Tree, turns: seq<bool>, byte: bv8, bits: seq<bool>, pos: nat)
    requires turns != [] && LeadsTo(t, turns, byte)
    requires pos + |turns| <= |bits| && bits[pos..pos + |turns|] == turns
    ensures Walk(t, bits, pos) == Some((byte, pos + |turns|))
    decreases |turns|
  {
    assert bits[pos] == turns[0];
    var next := if turns[0] then t.right else t.left;
    if |turns| == 1 {
    } else {
      assert bits[pos + 1..pos + |turns|] == turns[1..];
      WalkDecodes(next, turns[1..], byte, bits, pos + 1);
    }
  }

  /** A walk never yields one of the three marks. */
  lemma {:induction false} WalkUnmarked(t: Tree, bits: seq<bool>, pos: nat)
    requires !t.Nil? && Unmarked(t) && Walk(t, bits, pos).Some?
    ensures !IsMark(Walk(t, bits, pos).value.0)
    decreases t
  {
    var next := if t.Leaf? then Nil else if bits[pos] then t.right else t.left;
    if !next.Branch? {
    } else {
      WalkUnmarked(next, bits, pos + 1);
    }
  }
}
