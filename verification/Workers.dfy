/** Worker boards that claim their own bus addresses (slave/main.c) and the controller's scan for them (main/main.c). */
module Workers {

  const BASE_ID: nat := 0x20 // I2C_SLAVE_BASE_ID
  const ADDRESSES: nat := 0x80 // 7-bit bus addresses

  /** A board: its workerID, and whether it answers to it. */
  datatype Worker = Worker(id: nat, active: bool)

  /** Boards that were just switched on. */
  function SwitchedOn(n: nat): (ws: seq<Worker>)
    ensures |ws| == n && (forall i :: 0 <= i < n ==> ws[i] == Worker(BASE_ID, false))
  {
    seq(n, _ => Worker(BASE_ID, false))
  }

  /** The addresses that the boards answer to. */
  function Ids(ws: seq<Worker>): (ids: set<nat>)
    ensures |ids| <= |ws|
    ensures forall a :: a in ids <==> exists i :: 0 <= i < |ws| && ws[i].active && ws[i].id == a
  {
    if ws == [] then {}
    else
      assert forall i :: 0 < i < |ws| ==> ws[i] == ws[1..][i - 1];
      Ids(ws[1..]) + if ws[0].active then {ws[0].id} else {}
  }

  /** The addresses at which something answers. */
  function Occupied(foreign: set<nat>, ws: seq<Worker>): (occ: set<nat>)
  {
    foreign + Ids(ws)
  }

  /** The first free address from `a` on. */
  function FirstFree(occ: set<nat>, a: nat): (r: nat)
    requires a <= ADDRESSES
    ensures a <= r <= ADDRESSES && (r < ADDRESSES ==> r !in occ)
    ensures forall x :: a <= x < r ==> x in occ
    decreases ADDRESSES - a
  {
    if a == ADDRESSES || a !in occ then a else FirstFree(occ, a + 1)
  }

  /** auto_address on board `i`: it leaves the bus, looks for a free address from its workerID on, and answers to that. */
  function AutoAddressed(foreign: set<nat>, ws: seq<Worker>, i: nat): (r: seq<Worker>)
    requires i < |ws| && ws[i].id <= ADDRESSES
    ensures |r| == |ws|
  {
    var id := ws[i].id;
    ws[i := Worker(FirstFree(Occupied(foreign, ws[i := Worker(id, false)]), id), true)]
  }

  // ----- counting addresses

  /** All of the `n` addresses from `a` on are in the set. */
  ghost predicate HasRange(ids: set<nat>, a: nat, n: nat)
  {
    forall x: nat :: a <= x < a + n ==> x in ids
  }

  /** Nothing else is in the set. */
  ghost predicate InRange(ids: set<nat>, a: nat, n: nat)
  {
    forall x: nat :: x in ids ==> a <= x < a + n
  }

  /** No device of the set answers at the `n` addresses from `a` on. */
  ghost predicate FreeRange(devices: set<nat>, a: nat, n: nat)
  {
    forall x: nat :: x in devices ==> !(a <= x < a + n)
  }

  lemma {:induction false} RangeAtLeast(ids: set<nat>, a: nat, n: nat)
    requires HasRange(ids, a, n)
    ensures n <= |ids|
    decreases n
  {
    if n == 0 {
    } else {
      RangeAtLeast(ids - {a + n - 1}, a, n - 1);
    }
  }

  lemma {:induction false} RangeAtMost(ids: set<nat>, a: nat, n: nat)
    requires InRange(ids, a, n)
    ensures |ids| <= n
    decreases n
  {
    if n == 0 {
      assert ids == {};
    } else {
      RangeAtMost(ids - {a + n - 1}, a, n - 1);
    }
  }

  // ----- what every step keeps

  /** The other devices at or above the base. */
  function Above(foreign: set<nat>): (s: set<nat>)
  {
    set a | a in foreign && 0x20 <= a < 0x80
  }

  /** The other devices leave at least as many addresses from the base on as there are boards. */
  ghost predicate Room(foreign: set<nat>, n: nat)
  {
    |Above(foreign)| + n <= 0x60
  }

  ghost predicate Placed(foreign: set<nat>, w: Worker)
  {
    if w.active then BASE_ID <= w.id < ADDRESSES && w.id !in foreign else w.id == BASE_ID
  }

  ghost predicate AllPlaced(foreign: set<nat>, ws: seq<Worker>)
  {
    forall i :: 0 <= i < |ws| ==> Placed(foreign, ws[i])
  }

  ghost predicate Distinct(ws: seq<Worker>)
  {
    forall i, j :: 0 <= i < j < |ws| && ws[i].active && ws[j].active ==> ws[i].id != ws[j].id
  }

  /** Everything below the address of a board is taken. */
  ghost predicate NoGaps(foreign: set<nat>, ws: seq<Worker>)
  {
    forall i, a: nat :: 0 <= i < |ws| && ws[i].active && BASE_ID <= a < ws[i].id ==> a in Occupied(foreign, ws)
  }

  ghost predicate Inv(foreign: set<nat>, ws: seq<Worker>)
  {
    AllPlaced(foreign, ws) && Distinct(ws) && NoGaps(foreign, ws)
  }

  lemma {:induction false} AllTaken(foreign: set<nat>, ids: set<nat>)
    requires FirstFree(foreign + ids, BASE_ID) == ADDRESSES
    ensures ADDRESSES - BASE_ID <= |Above(foreign)| + |ids|
  {
    var taken := Above(foreign) + ids;
    forall x: nat | BASE_ID <= x < ADDRESSES ensures x in taken {
      assert x in foreign + ids;
    }
    RangeAtLeast(taken, BASE_ID, ADDRESSES - BASE_ID);
    assert taken == Above(foreign) + (ids - Above(foreign));
  }

  /** Without board `i` there is a free address. */
  lemma {:induction false} SpareAddress(foreign: set<nat>, ws: seq<Worker>, i: nat)
    requires i < |ws| && !ws[i].active && Room(foreign, |ws|)
    ensures FirstFree(Occupied(foreign, ws), BASE_ID) < ADDRESSES
  {
    OneLess(ws, i);
    if FirstFree(Occupied(foreign, ws), BASE_ID) == ADDRESSES {
      AllTaken(foreign, Ids(ws));
    }
  }

  lemma {:induction false} OneLess(ws: seq<Worker>, i: nat)
    requires i < |ws| && !ws[i].active
    ensures |Ids(ws)| < |ws|
    decreases |ws|
  {
    if i == 0 {
    } else {
      OneLess(ws[1..], i - 1);
    }
  }

  /** A board that answers already finds its own address free and keeps it. */
  lemma {:induction false} KeepsAddress(foreign: set<nat>, ws: seq<Worker>, i: nat)
    requires Inv(foreign, ws) && i < |ws| && ws[i].active
    ensures AutoAddressed(foreign, ws, i) == ws
  {
    var id := ws[i].id;
    var off := ws[i := Worker(id, false)];
    assert forall j :: 0 <= j < |off| && off[j].active ==> off[j] == ws[j] && j != i;
  }

  /** The addresses after board `i` answers to `id`. */
  lemma {:induction false} IdsAfter(ws: seq<Worker>, i: nat, id: nat)
    requires i < |ws| && !ws[i].active
    ensures Ids(ws[i := Worker(id, true)]) == Ids(ws) + {id}
  {
    var r := ws[i := Worker(id, true)];
    forall a | a in Ids(r) ensures a in Ids(ws) + {id} {
      var j :| 0 <= j < |r| && r[j].active && r[j].id == a;
      assert j != i ==> ws[j] == r[j];
    }
    forall a | a in Ids(ws) + {id} ensures a in Ids(r) {
      if a in Ids(ws) {
        var j :| 0 <= j < |ws| && ws[j].active && ws[j].id == a;
        assert r[j] == ws[j];
      } else {
        assert r[i].active;
      }
    }
  }

  lemma {:induction false} JoinDistinct(ws: seq<Worker>, i: nat, id: nat)
    requires Distinct(ws) && i < |ws| && id !in Ids(ws)
    ensures Distinct(ws[i := Worker(id, true)])
  {
  }

  lemma {:induction false} JoinNoGaps(foreign: set<nat>, ws: seq<Worker>, i: nat, id: nat)
    requires NoGaps(foreign, ws) && i < |ws| && !ws[i].active
    requires forall a: nat :: BASE_ID <= a < id ==> a in Occupied(foreign, ws)
    ensures NoGaps(foreign, ws[i := Worker(id, true)])
  {
    IdsAfter(ws, i, id);
    var r := ws[i := Worker(id, true)];
    forall j, a: nat | 0 <= j < |r| && r[j].active && BASE_ID <= a < r[j].id ensures a in Occupied(foreign, r) {
      assert a in Occupied(foreign, ws);
    }
  }

  /** A board that joins the bus. */
  lemma {:induction false} Joins(foreign: set<nat>, ws: seq<Worker>, i: nat)
    requires Inv(foreign, ws) && i < |ws| && !ws[i].active && Room(foreign, |ws|)
    ensures Inv(foreign, AutoAddressed(foreign, ws, i))
  {
    assert Placed(foreign, ws[i]);
    assert ws[i := Worker(BASE_ID, false)] == ws;
    SpareAddress(foreign, ws, i);
    var id := FirstFree(Occupied(foreign, ws), BASE_ID);
    JoinDistinct(ws, i, id);
    JoinNoGaps(foreign, ws, i, id);
  }

  /** Boards `order` call auto_address one after the other. */
  function Run(foreign: set<nat>, ws: seq<Worker>, order: seq<nat>): (r: seq<Worker>)
    requires (forall k :: 0 <= k < |order| ==> order[k] < |ws|) && (forall i :: 0 <= i < |ws| ==> ws[i].id <= ADDRESSES)
    ensures |r| == |ws|
    decreases |order|
  {
    if order == [] then ws else Run(foreign, AutoAddressed(foreign, ws, order[0]), order[1..])
  }

  ghost predicate Indices(order: seq<nat>, n: nat)
  {
    forall k :: 0 <= k < |order| ==> order[k] < n
  }

  /** One call of auto_address keeps the invariant; the board answers afterwards, and no other board changes. */
  lemma {:induction false} StepKeeps(foreign: set<nat>, ws: seq<Worker>, i: nat)
    requires Inv(foreign, ws) && i < |ws| && Room(foreign, |ws|)
    ensures var r := AutoAddressed(foreign, ws, i);
            Inv(foreign, r) && r[i].active && (forall j :: 0 <= j < |ws| && j != i ==> r[j] == ws[j])
  {
    if ws[i].active {
      KeepsAddress(foreign, ws, i);
    } else {
      Joins(foreign, ws, i);
    }
  }

  /** Every run keeps the invariant, boards that answered keep their addresses, and exactly the called boards join them. */
  lemma {:induction false} RunKeeps(foreign: set<nat>, ws: seq<Worker>, order: seq<nat>)
    requires Inv(foreign, ws) && Indices(order, |ws|) && Room(foreign, |ws|)
    ensures var r := Run(foreign, ws, order);
            && Inv(foreign, r)
            && (forall i :: 0 <= i < |ws| ==> (r[i].active <==> ws[i].active || i in order))
            && (forall i :: 0 <= i < |ws| && ws[i].active ==> r[i] == ws[i])
    decreases |order|
  {
    if order == [] {
    } else {
      StepKeeps(foreign, ws, order[0]);
      var t := AutoAddressed(foreign, ws, order[0]);
      if ws[order[0]].active {
        KeepsAddress(foreign, ws, order[0]);
      }
      RunKeeps(foreign, t, order[1..]);
      assert forall i :: i in order <==> i == order[0] || i in order[1..];
    }
  }

  lemma {:induction false} FreshInv(foreign: set<nat>, n: nat)
    ensures Inv(foreign, SwitchedOn(n))
  {
  }

  // ----- the scan

  /** The number of addresses in a row, from the base on, at which something answers. */
  function Found(foreign: set<nat>, ws: seq<Worker>): (m: nat)
  {
    FirstFree(Occupied(foreign, ws), BASE_ID) - BASE_ID
  }

  lemma {:induction false} NotForeign(foreign: set<nat>, ws: seq<Worker>)
    requires AllPlaced(foreign, ws)
    ensures Ids(ws) !! foreign && (forall a :: a in Ids(ws) ==> BASE_ID <= a < ADDRESSES)
  {
  }

  /** No other device answers at the addresses 0x20 .. 0x20 + k. */
  ghost predicate Clear(foreign: set<nat>, k: nat)
  {
    FreeRange(foreign, 0x20, k + 1)
  }

  /** The scan finds the boards and nothing else. */
  ghost predicate FindsBoards(foreign: set<nat>, ws: seq<Worker>)
  {
    HasRange(Ids(ws), 0x20, Found(foreign, ws)) && InRange(Ids(ws), 0x20, Found(foreign, ws))
  }

  /** The scan reaches every board, whatever other devices there are. */
  lemma {:induction false} ScanReaches(foreign: set<nat>, ws: seq<Worker>)
    requires Inv(foreign, ws)
    ensures InRange(Ids(ws), BASE_ID, Found(foreign, ws))
  {
    forall a: nat | a in Ids(ws) ensures BASE_ID <= a < BASE_ID + Found(foreign, ws) {
      var i :| 0 <= i < |ws| && ws[i].active && ws[i].id == a;
      assert Placed(foreign, ws[i]);
    }
  }

  lemma {:induction false} OnlyIds(ids: set<nat>, foreign: set<nat>, m: nat)
    requires HasRange(ids, BASE_ID, m) && InRange(ids, BASE_ID, m) && ids !! foreign && BASE_ID + m !in foreign
    ensures FreeRange(foreign, BASE_ID, |ids| + 1)
  {
    RangeAtMost(ids, BASE_ID, m);
  }

  lemma {:induction false} NoneBetween(foreign: set<nat>, ws: seq<Worker>)
    requires AllPlaced(foreign, ws) && Found(foreign, ws) < ADDRESSES - BASE_ID
    requires FindsBoards(foreign, ws)
    ensures Clear(foreign, |Ids(ws)|)
  {
    NotForeign(foreign, ws);
    OnlyIds(Ids(ws), foreign, Found(foreign, ws));
  }

  lemma {:induction false} NoGapIsIds(ids: set<nat>, foreign: set<nat>, m: nat)
    requires HasRange(foreign + ids, BASE_ID, m) && InRange(ids, BASE_ID, m) && FreeRange(foreign, BASE_ID, |ids| + 1)
    ensures m == |ids| && HasRange(ids, BASE_ID, m)
  {
    RangeAtMost(ids, BASE_ID, m);
    forall x: nat | BASE_ID <= x < BASE_ID + m && x <= BASE_ID + |ids| ensures x in ids {
      assert x in foreign + ids;
    }
    if m > |ids| {
      RangeAtLeast(ids, BASE_ID, |ids| + 1);
    }
  }

  lemma {:induction false} FoundBoardsOnly(foreign: set<nat>, ws: seq<Worker>)
    requires Inv(foreign, ws) && Clear(foreign, |Ids(ws)|)
    ensures FindsBoards(foreign, ws) && Found(foreign, ws) == |Ids(ws)|
  {
    ScanReaches(foreign, ws);
    NoGapIsIds(Ids(ws), foreign, Found(foreign, ws));
  }

  /**
   With `k` boards on the bus, the scan finds the boards and nothing else if and only if
   there is no other device at the addresses 0x20 .. 0x20 + k.
   */
  lemma {:induction false} ScanExactIff(foreign: set<nat>, ws: seq<Worker>)
    requires Inv(foreign, ws) && Found(foreign, ws) < 0x60
    ensures FindsBoards(foreign, ws) <==> Clear(foreign, |Ids(ws)|)
  {
    if Clear(foreign, |Ids(ws)|) {
      FoundBoardsOnly(foreign, ws);
    }
    if FindsBoards(foreign, ws) {
      NoneBetween(foreign, ws);
    }
  }

  function Answering(ws: seq<Worker>): (k: nat)
  {
    if ws == [] then 0 else (if ws[0].active then 1 else 0) + Answering(ws[1..])
  }

  lemma {:induction false} OneEach(ws: seq<Worker>)
    requires Distinct(ws)
    ensures |Ids(ws)| == Answering(ws)
    decreases |ws|
  {
    if ws == [] {
    } else {
      assert forall i :: 0 <= i < |ws[1..]| ==> ws[1..][i] == ws[i + 1];
      OneEach(ws[1..]);
      assert ws[0].active ==> ws[0].id !in Ids(ws[1..]);
    }
  }

  lemma {:induction false} FullRange(taken: set<nat>, r: nat)
    requires InRange(taken, BASE_ID, ADDRESSES - BASE_ID) && BASE_ID <= r < ADDRESSES && r !in taken
    ensures |taken| < ADDRESSES - BASE_ID
  {
    RangeAtMost(taken + {r}, BASE_ID, ADDRESSES - BASE_ID);
  }

  /** Without that room the last board finds no address. */
  lemma {:induction false} RoomNeeded(foreign: set<nat>, ws: seq<Worker>)
    requires Inv(foreign, ws) && Answering(ws) == |ws| - 1 && !Room(foreign, |ws|)
    ensures FirstFree(Occupied(foreign, ws), BASE_ID) == ADDRESSES
  {
    OneEach(ws);
    NotForeign(foreign, ws);
    var r := FirstFree(Occupied(foreign, ws), BASE_ID);
    if r < ADDRESSES {
      assert |Above(foreign) + Ids(ws)| == |Above(foreign)| + |Ids(ws)|;
      FullRange(Above(foreign) + Ids(ws), r);
    }
  }

  /**
   From boards just switched on, over every run of calls in which `k` boards take part: each of them has an address
   of its own, the addresses are 0x20 .. 0x20 + k - 1 without a gap, and that is what the scan finds,
   provided that no other device answers at 0x20 .. 0x20 + k.
   */
  lemma {:induction false} SelfAddressing(foreign: set<nat>, n: nat, order: seq<nat>)
    requires Indices(order, n) && Room(foreign, n)
    ensures var ws := Run(foreign, SwitchedOn(n), order);
            var k := Answering(ws);
            && (forall i :: 0 <= i < n ==> (ws[i].active <==> i in order)) && Distinct(ws) && |Ids(ws)| == k
            && (k < 0x60 && Clear(foreign, k)
                ==> FindsBoards(foreign, ws) && Found(foreign, ws) == k)
  {
    var start := SwitchedOn(n);
    FreshInv(foreign, n);
    RunKeeps(foreign, start, order);
    var ws := Run(foreign, start, order);
    OneEach(ws);
    var k := Answering(ws);
    if k < ADDRESSES - BASE_ID && Clear(foreign, k) {
      FoundInTime(foreign, ws);
      FoundBoardsOnly(foreign, ws);
    }
  }

  lemma {:induction false} FoundInTime(foreign: set<nat>, ws: seq<Worker>)
    requires |Ids(ws)| < ADDRESSES - BASE_ID && Clear(foreign, |Ids(ws)|)
    ensures Found(foreign, ws) < ADDRESSES - BASE_ID
  {
    if Found(foreign, ws) == ADDRESSES - BASE_ID {
      NotAllTaken(foreign, Ids(ws), |Ids(ws)| + 1);
    }
  }

  lemma {:induction false} NotAllTaken(foreign: set<nat>, ids: set<nat>, n: nat)
    requires n <= ADDRESSES - BASE_ID && FreeRange(foreign, BASE_ID, n) && FirstFree(foreign + ids, BASE_ID) == ADDRESSES
    ensures n <= |ids|
  {
    forall x: nat | BASE_ID <= x < BASE_ID + n ensures x in ids {
      assert x in foreign + ids;
    }
    RangeAtLeast(ids, BASE_ID, n);
  }

  // ----- the programs

  lemma {:induction false} IdsOff(ws: seq<Worker>, i: nat, id: nat)
    requires i < |ws| && !ws[i].active
    ensures Ids(ws[i := Worker(id, false)]) == Ids(ws)
  {
    var r := ws[i := Worker(id, false)];
    assert forall j :: 0 <= j < |ws| && (ws[j].active || r[j].active) ==> ws[j] == r[j];
    assert forall a :: a in Ids(ws) <==> a in Ids(r);
  }

  lemma {:induction false} SetTwice(ws: seq<Worker>, i: nat, v: Worker, w: Worker)
    requires i < |ws|
    ensures ws[i := v][i := w] == ws[i := w]
  {
  }

  /** The addresses 0x20, 0x21, ... in order. */
  function Ascending(count: nat): (s: seq<nat>)
  {
    seq(count, j => 0x20 + j)
  }

  class Bus {
    const foreign: set<nat>
    var workers: seq<Worker>

    constructor (foreign: set<nat>, n: nat)
      ensures this.foreign == foreign && workers == SwitchedOn(n)
    {
      this.foreign, workers := foreign, SwitchedOn(n);
    }

    /** i2c_start_timeout: is there an answer at this address? */
    predicate Answers(a: nat)
      reads this
    {
      a in Occupied(foreign, workers)
    }

    /** A board that is off the bus moves on to the next workerID. */
    method TryNext(i: nat)
      requires i < |workers| && !workers[i].active
      modifies this
      ensures workers == old(workers)[i := Worker(old(workers)[i].id + 1, false)]
      ensures Occupied(foreign, workers) == Occupied(foreign, old(workers))
    {
      IdsOff(workers, i, workers[i].id + 1);
      workers := workers[i := workers[i].(id := workers[i].id + 1)];
    }

    /** The loop of auto_address. */
    method FindFree(i: nat)
      requires i < |workers| && !workers[i].active && workers[i].id <= ADDRESSES
      requires FirstFree(Occupied(foreign, workers), workers[i].id) < ADDRESSES
      modifies this
      ensures workers == old(workers)[i := Worker(FirstFree(Occupied(foreign, old(workers)), old(workers)[i].id), false)]
    {
      ghost var occ := Occupied(foreign, workers);
      ghost var id := FirstFree(occ, workers[i].id);
      while Answers(workers[i].id)
        invariant |workers| == |old(workers)| && workers[i].id <= id
        invariant workers == old(workers)[i := Worker(workers[i].id, false)]
        invariant Occupied(foreign, workers) == occ && FirstFree(occ, workers[i].id) == id
        decreases id - workers[i].id
      {
        SetTwice(old(workers), i, Worker(workers[i].id, false), Worker(workers[i].id + 1, false));
        TryNext(i);
      }
    }

    method AutoAddress(i: nat)
      requires i < |workers| && workers[i].id <= ADDRESSES
      requires AutoAddressed(foreign, workers, i)[i].id < ADDRESSES
      modifies this
      ensures workers == AutoAddressed(foreign, old(workers), i)
    {
      workers := workers[i := workers[i].(active := false)];
      FindFree(i);
      workers := workers[i := workers[i].(active := true)];
    }

    method ScanI2c(found: array<nat>) returns (count: nat)
      requires Found(foreign, workers) < ADDRESSES - BASE_ID && Found(foreign, workers) <= found.Length
      modifies found
      ensures count == Found(foreign, workers) && found[..count] == Ascending(count)
      ensures found[count..] == old(found[..])[count..]
    {
      ghost var end := FirstFree(Occupied(foreign, workers), BASE_ID);
      var workerID := BASE_ID;
      count := 0;
      while Answers(workerID)
        invariant workerID == BASE_ID + count && workerID <= end && count <= found.Length
        invariant FirstFree(Occupied(foreign, workers), workerID) == end
        invariant found[..count] == Ascending(count) && found[count..] == old(found[..])[count..]
        decreases end - workerID
      {
        found[count] := workerID;
        count, workerID := count + 1, workerID + 1;
      }
    }

    /** Boards take their addresses one after the other, in any order and any number of times. */
    method AddressAll(order: seq<nat>)
      requires Inv(foreign, workers) && Indices(order, |workers|) && Room(foreign, |workers|)
      modifies this
      ensures workers == Run(foreign, old(workers), order)
    {
      assert order[0..] == order;
      for k := 0 to |order|
        invariant |workers| == |old(workers)| && Inv(foreign, workers)
        invariant Run(foreign, workers, order[k..]) == Run(foreign, old(workers), order)
      {
        assert order[k..][0] == order[k] && order[k..][1..] == order[k + 1..];
        StepKeeps(foreign, workers, order[k]);
        AutoAddress(order[k]);
      }
    }

    /** Up to ten boards take their addresses; then the controller scans. */
    method AddressAndScan(order: seq<nat>, found: array<nat>) returns (count: nat)
      requires workers == SwitchedOn(|workers|) && Indices(order, |workers|)
      requires |workers| <= 10 <= found.Length && Clear(foreign, |workers|)
      modifies this, found
      ensures |workers| == |old(workers)| && (forall i :: 0 <= i < |workers| ==> (workers[i].active <==> i in order))
      ensures Distinct(workers) && HasRange(Ids(workers), 0x20, count) && InRange(Ids(workers), 0x20, count)
      ensures count == Answering(workers) <= found.Length && found[..count] == Ascending(count)
    {
      ghost var n := |workers|;
      RoomAtBase(foreign, n);
      FreshInv(foreign, n);
      AddressAll(order);
      SelfAddressing(foreign, n, order);
      FewAnswer(workers);
      FewerForeign(foreign, Answering(workers), n);
      count := ScanI2c(found);
    }
  }

  lemma {:induction false} RoomAtBase(foreign: set<nat>, n: nat)
    requires n < ADDRESSES - BASE_ID && Clear(foreign, n)
    ensures Room(foreign, n)
  {
    RangeAtMost(Above(foreign), BASE_ID + n, ADDRESSES - BASE_ID - n);
  }

  lemma {:induction false} FewerForeign(foreign: set<nat>, k: nat, n: nat)
    requires k <= n && Clear(foreign, n)
    ensures Clear(foreign, k)
  {
  }

  lemma {:induction false} FewAnswer(ws: seq<Worker>)
    ensures Answering(ws) <= |ws|
  {
    if ws == [] {
    } else {
      FewAnswer(ws[1..]);
    }
  }
}
