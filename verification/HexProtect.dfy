/** How far the HEX loader protects the bootloader section, which it means to do with every data byte. */
module HexProtect {
  import opened Flash
  import opened FlashWords
  import opened HexParser
  import opened HexRecord
  import opened HexText
  import opened HexLoad

  /** The operation erases or writes the page of an address in the bootloader section. */
  predicate HitsBoot(d: Device, op: Op)
  {
    !op.Fill? && op.address >= d.bootStart
  }

  ghost predicate Spares(d: Device, ops: seq<Op>)
  {
    forall i :: 0 <= i < |ops| ==> !HitsBoot(d, ops[i])
  }

  lemma {:induction false} SparesConcat(d: Device, a: seq<Op>, b: seq<Op>)
    ensures Spares(d, a + b) <==> Spares(d, a) && Spares(d, b)
  {
    if Spares(d, a + b) {
      assert forall i :: 0 <= i < |a| ==> a[i] == (a + b)[i];
      assert forall i :: 0 <= i < |b| ==> b[i] == (a + b)[|a| + i];
    }
  }

  // ----- what sparing means for the flash

  lemma {:induction false} OtherPage(d: Device, address: nat, i: nat)
    requires d.Valid() && address < 2 * FirstWord(d, i)
    ensures PageOf(d, address) != PageOf(d, 2 * i)
  {
    PageStartIsMultiple(d, address);
    PageStartIsMultiple(d, 2 * i);
    WordPlace(d, i);
  }

  /** Operations that spare the bootloader section change no page that starts in it. */
  lemma {:induction false} SparedWord(d: Device, f: State, ops: seq<Op>, i: nat)
    requires ValidState(d, f) && Spares(d, ops) && Exists(d, i) && 2 * FirstWord(d, i) >= d.bootStart
    ensures WordIn(d, ApplyAll(d, f, ops), i) == WordIn(d, f, i)
    decreases |ops|
  {
    if ops == [] {
    } else {
      var op := ops[0];
      assert !HitsBoot(d, op);
      if !op.Fill? {
        OtherPage(d, op.address, i);
      }
      SparedWord(d, Apply(d, f, op), ops[1..], i);
    }
  }

  // ----- one step

  /** This character completes a data word, which is stored. */
  predicate Stores(d: Device, p: Parser, c: char)
  {
    && !Restarts(p, c) && IsDigit(c) && p.reader.readMSB
    && p.reader.phase == ReadData && p.reader.recordType == 0 && Remaining(p.reader) % 2 == 0
    && !Protected(d, p.target)
  }

  /** It is stored while the current page is one of the bootloader section and has not been erased yet. */
  predicate Strays(d: Device, p: Parser, c: char)
  {
    Stores(d, p, c) && !p.target.pageDirty && p.target.pageStart >= d.bootStart
  }

  /** A dirty page is one of the application section. */
  predicate Tame(d: Device, t: Target)
  {
    t.pageDirty ==> t.pageStart < d.bootStart
  }

  lemma {:induction false} FlushSpares(d: Device, t: Target)
    requires d.Valid() && Tame(d, t)
    ensures Spares(d, FlushOps(d, t)) && Tame(d, Flush(d, t))
  {
  }

  lemma {:induction false} StoreSpares(d: Device, t: Target, w: word)
    requires d.Valid() && Tame(d, t) && (t.pageDirty || t.pageStart < d.bootStart)
    ensures Spares(d, StoreOps(d, t, w)) && Tame(d, StoreWord(d, t))
  {
    FlushSpares(d, Filled(t));
    var erase := if t.pageDirty then [] else [Erase(t.pageStart)];
    SparesConcat(d, erase, [Fill(t.address, w)]);
    SparesConcat(d, erase + [Fill(t.address, w)], FlushOps(d, Filled(t)));
  }

  lemma {:induction false} StoreHits(d: Device, t: Target, w: word)
    requires d.Valid() && !t.pageDirty && t.pageStart >= d.bootStart
    ensures !Spares(d, StoreOps(d, t, w))
  {
    assert StoreOps(d, t, w)[0] == Erase(t.pageStart);
  }

  lemma {:induction false} ShiftKeeps(s: Reader, c: char)
    requires HexToDecimal(c) >= 0
    ensures Shift(s, c).phase == s.phase && Shift(s, c).recordType == s.recordType && Remaining(Shift(s, c)) == Remaining(s)
    ensures Shift(s, c).readMSB == !s.readMSB
  {
  }

  /** A character that stores a word. */
  lemma {:induction false} StoreStep(d: Device, p: Parser, c: char)
    requires d.Valid() && Stores(d, p, c)
    ensures var s := Shift(p.reader, c);
            && StepOps(d, p, c) == StoreOps(d, p.target, WordOf(s.data, s.prevData))
            && Step(d, p, c).target == StoreWord(d, p.target)
  {
    ShiftKeeps(p.reader, c);
  }

  /** Any other character at most flushes the page. */
  lemma {:induction false} OtherStep(d: Device, p: Parser, c: char)
    requires d.Valid() && !Stores(d, p, c) && Tame(d, p.target)
    ensures Spares(d, StepOps(d, p, c)) && Tame(d, Step(d, p, c).target)
  {
    FlushSpares(d, p.target);
    if !Restarts(p, c) && HexToDecimal(c) >= 0 {
      ShiftKeeps(p.reader, c);
    }
  }

  lemma {:induction false} StepSpares(d: Device, p: Parser, c: char)
    requires d.Valid() && Tame(d, p.target)
    ensures Spares(d, StepOps(d, p, c)) <==> !Strays(d, p, c)
    ensures !Strays(d, p, c) ==> Tame(d, Step(d, p, c).target)
  {
    if Stores(d, p, c) {
      StoreStep(d, p, c);
      var s := Shift(p.reader, c);
      if Strays(d, p, c) {
        StoreHits(d, p.target, WordOf(s.data, s.prevData));
      } else {
        StoreSpares(d, p.target, WordOf(s.data, s.prevData));
      }
    } else {
      OtherStep(d, p, c);
    }
  }

  // ----- every stream

  /** No character of the stream strays. */
  ghost predicate NeverStrays(d: Device, p: Parser, cs: string)
    requires d.Valid()
    decreases |cs|
  {
    cs == [] || (!Strays(d, p, cs[0]) && NeverStrays(d, Step(d, p, cs[0]), cs[1..]))
  }

  /** A stream leaves the bootloader section alone if and only if it never stores a word on a clean page of that section. */
  lemma {:induction false} SparesBootIff(d: Device, p: Parser, cs: string)
    requires d.Valid() && Tame(d, p.target)
    ensures Spares(d, Ops(d, p, cs)) <==> NeverStrays(d, p, cs)
    decreases |cs|
  {
    if cs == [] {
    } else {
      StepSpares(d, p, cs[0]);
      SparesConcat(d, StepOps(d, p, cs[0]), Ops(d, Step(d, p, cs[0]), cs[1..]));
      if !Strays(d, p, cs[0]) {
        SparesBootIff(d, Step(d, p, cs[0]), cs[1..]);
      }
    }
  }

  // ----- files of an image do

  lemma {:induction false} LoadSpares(d: Device, t: Target, ws: seq<word>)
    requires d.Valid() && Below(d, t, |ws|) && Tame(d, t) && (ws != [] ==> t.pageStart < d.bootStart)
    ensures Spares(d, LoadOps(d, t, ws)) && Tame(d, LoadTarget(d, t, |ws|))
    decreases |ws|
  {
    if ws == [] {
    } else {
      StoreSpares(d, t, ws[0]);
      OneWordLess(d, t, |ws|);
      LoadSpares(d, StoreWord(d, t), ws[1..]);
      SparesConcat(d, StoreOps(d, t, ws[0]), LoadOps(d, StoreWord(d, t), ws[1..]));
    }
  }

  /** A file of an image below the bootloader leaves every page of the bootloader section as it was. */
  lemma {:induction false} FileSpares(d: Device, f: State, cs: string, n0: nat, ws: seq<word>, chunks: seq<seq<word>>)
    requires ValidState(d, f) && FileOf(d, cs, n0, ws, chunks)
    ensures Spares(d, Ops(d, INITIAL, cs)) && NeverStrays(d, INITIAL, cs)
    ensures forall i: nat :: Exists(d, i) && 2 * FirstWord(d, i) >= d.bootStart ==> WordIn(d, LoadedFlash(d, f, cs), i) == WordIn(d, f, i)
  {
    var t := StartTarget(n0);
    FileOperations(d, cs, n0, ws, chunks);
    LoadSpares(d, t, ws);
    FlushSpares(d, LoadTarget(d, t, |ws|).(address := 0));
    SparesConcat(d, LoadOps(d, t, ws), FlushOps(d, LoadTarget(d, t, |ws|).(address := 0)));
    SparesBootIff(d, INITIAL, cs);
    forall i: nat | Exists(d, i) && 2 * FirstWord(d, i) >= d.bootStart
      ensures WordIn(d, LoadedFlash(d, f, cs), i) == WordIn(d, f, i)
    {
      SparedWord(d, f, Ops(d, INITIAL, cs), i);
    }
  }

  // ----- but two or three records are enough to get there

  lemma {:induction false} OneWordOps(d: Device, t: Target, w: word)
    requires d.Valid()
    ensures LoadOps(d, t, [w]) == StoreOps(d, t, w) && LoadTarget(d, t, 1) == StoreWord(d, t)
  {
    assert [w][1..] == [];
    assert StoreOps(d, t, w) + [] == StoreOps(d, t, w);
    assert LoadTarget(d, StoreWord(d, t), 0) == StoreWord(d, t);
  }

  /** A data record with one word. */
  lemma {:induction false} FeedOneWord(d: Device, p: Parser, address: nat, w: word, rest: string) returns (q: Parser)
    requires d.Valid() && p.target.base == 0 && address + 2 <= d.bootStart && address + 2 <= 0x1_0000
    ensures After(d, p, DataRecord(address, [w]) + rest) == After(d, q, rest)
    ensures Ops(d, p, DataRecord(address, [w]) + rest) == StoreOps(d, p.target.(address := address), w) + Ops(d, q, rest)
    ensures q.target == StoreWord(d, p.target.(address := address))
  {
    q := FeedRecord(d, p, address, [w], rest);
    OneWordOps(d, p.target.(address := address), w);
  }

  /** After the last word of the application section, the first page of the bootloader is the current one. */
  lemma {:induction false} LastWordStored(d: Device, t: Target)
    requires d.Valid() && !t.pageDirty && t.pageStart == 0 && t.address + 2 == d.bootStart <= 0x1_0000
    requires PageStart(d, d.bootStart) == d.bootStart
    ensures StoreWord(d, t) == t.(address := d.bootStart, pageStart := d.bootStart)
  {
  }

  /**
   A word at the end of the application section and another word anywhere below it: the second one erases the
   first page of the bootloader, although both addresses are allowed.
   */
  lemma {:induction false} BootPageErased(d: Device, address: nat, w: word, v: word) returns (cs: string)
    requires d.Valid() && 2 <= d.bootStart <= 0x1_0000 && PageStart(d, d.bootStart) == d.bootStart && address + 2 <= d.bootStart
    ensures cs == DataRecord(d.bootStart - 2, [w]) + (DataRecord(address, [v]) + [])
    ensures Erase(d.bootStart) in Ops(d, INITIAL, cs) && !Spares(d, Ops(d, INITIAL, cs))
  {
    var second := DataRecord(address, [v]) + [];
    var t := INITIAL.target.(address := d.bootStart - 2);
    cs := DataRecord(d.bootStart - 2, [w]) + second;
    var q := FeedOneWord(d, INITIAL, d.bootStart - 2, w, second);
    LastWordStored(d, t);
    var r := FeedOneWord(d, q, address, v, []);
    var u := q.target.(address := address);
    assert StoreOps(d, u, v)[0] == Erase(d.bootStart);
    FoundLater(d, StoreOps(d, t, w), StoreOps(d, u, v), Ops(d, r, []));
  }

  /** A data record that declares no data. */
  function EmptyRecord(address: nat): (cs: string)
    requires address < 0x1_0000
  {
    Record([0, address / 0x100, address % 0x100, 0])
  }

  /** It only flushes the page, if its address lies on another one. */
  lemma {:induction false} FeedEmpty(d: Device, p: Parser, address: nat, rest: string) returns (q: Parser)
    requires d.Valid() && p.target.base == 0 && address < 0x1_0000
    ensures After(d, p, EmptyRecord(address) + rest) == After(d, q, rest)
    ensures Ops(d, p, EmptyRecord(address) + rest) == FlushOps(d, p.target.(address := address)) + Ops(d, q, rest)
    ensures q.target == Flush(d, p.target.(address := address))
  {
    AddressHalves(address);
    var text := EmptyText(address, address / 0x100, address % 0x100, rest);
    var q0 := FeedColon(d, p, text);
    q := FeedEmptyBody(d, q0, address / 0x100, address % 0x100, rest, text);
  }

  lemma {:induction false} EmptyText(address: nat, hi: byte, lo: byte, rest: string) returns (text: string)
    requires address < 0x1_0000 && hi == address / 0x100 && lo == address % 0x100
    ensures EmptyRecord(address) + rest == [':'] + text
    ensures text == HexOf([0, hi, lo, 0]) + (Digits(Negated(Sum([0, hi, lo, 0]))) + rest)
  {
    var head := [0, hi, lo, 0];
    text := HexOf(head) + (Digits(Negated(Sum(head))) + rest);
  }

  lemma {:induction false} FeedEmptyBody(d: Device, p: Parser, hi: byte, lo: byte, rest: string, text: string) returns (q: Parser)
    requires d.Valid() && AtRecord(p)
    requires text == HexOf([0, hi, lo, 0]) + (Digits(Negated(Sum([0, hi, lo, 0]))) + rest)
    ensures var t := p.target.(address := RecordAddress(p.target.base, hi, lo));
            && After(d, p, text) == After(d, q, rest)
            && Ops(d, p, text) == FlushOps(d, t) + Ops(d, q, rest)
            && q.target == Flush(d, t)
  {
    var sum := Sum([0, hi, lo, 0]);
    var q1 := FeedHeader(d, p, 0, hi, lo, 0, Digits(Negated(sum)) + rest);
    q := FeedChecksum(d, q1, sum, rest);
  }

  /** The target after a word on the first page: that page is dirty. */
  lemma {:induction false} FirstPageDirty(d: Device, t: Target)
    requires d.Valid() && d.pageWords > 1 && !t.pageDirty && t.pageStart == t.address == 0
    ensures StoreWord(d, t) == t.(address := 2, pageDirty := true)
  {
  }

  /** The target after a record without data on another page: that page is the current one, and clean. */
  lemma {:induction false} PageChosen(d: Device, t: Target, x: uint32)
    requires d.Valid() && t.pageDirty && t.pageStart != x && PageStart(d, x) == x
    ensures Flush(d, t.(address := x)) == t.(address := x, pageStart := x, pageDirty := false)
  {
  }

  /** A word on the first page, while a clean page elsewhere is the current one, goes there. */
  lemma {:induction false} WordAstray(d: Device, t: Target, x: uint32, v: word)
    requires d.Valid() && d.pageWords > 1 && !t.pageDirty && t.pageStart == x != 0 && t.address == 0
    ensures StoreOps(d, t, v) == [Erase(x)] + [Fill(0, v)] + [Write(x)]
  {
  }

  /**
   Three records with allowed addresses: a word at 0, no data at the start of any page of the bootloader, and a word
   at 0 again. The last one erases that page and writes to it.
   */
  lemma {:induction false} BootPageWritten(d: Device, x: nat, w: word, v: word) returns (cs: string, earlier: seq<Op>)
    requires d.Valid() && d.pageWords > 1 && 2 <= d.bootStart <= x < 0x1_0000 && PageStart(d, x) == x
    ensures cs == DataRecord(0, [w]) + (EmptyRecord(x) + (DataRecord(0, [v]) + []))
    ensures Ops(d, INITIAL, cs) == earlier + ([Erase(x)] + [Fill(0, v)] + [Write(x)]) && !Spares(d, Ops(d, INITIAL, cs))
  {
    var third := DataRecord(0, [v]) + [];
    var second := EmptyRecord(x) + third;
    cs := DataRecord(0, [w]) + second;
    var q := FeedOneWord(d, INITIAL, 0, w, second);
    FirstPageDirty(d, INITIAL.target);
    var r := FeedEmpty(d, q, x, third);
    PageChosen(d, q.target, x);
    var z := FeedOneWord(d, r, 0, v, []);
    WordAstray(d, r.target.(address := 0), x, v);
    var first, flush, last := StoreOps(d, INITIAL.target, w), FlushOps(d, q.target.(address := x)), [Erase(x)] + [Fill(0, v)] + [Write(x)];
    earlier := first + flush;
    assert first + (flush + (last + [])) == earlier + last;
    FoundLater(d, earlier, last, []);
    assert earlier + (last + []) == earlier + last;
  }

  lemma {:induction false} FoundLater(d: Device, a: seq<Op>, b: seq<Op>, c: seq<Op>)
    requires b != [] && HitsBoot(d, b[0])
    ensures b[0] in a + (b + c) && !Spares(d, a + (b + c))
  {
    assert (a + (b + c))[|a|] == b[0];
  }
}
