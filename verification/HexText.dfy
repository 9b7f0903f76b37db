/** Intel HEX text, and what the parser makes of it. */
module HexText {
  import opened Basics
  import opened Flash
  import opened HexParser
  import opened HexRecord

  /** Upper-case hexadecimal digit. */
  function HexChar(n: byte): (c: char)
    requires n < 16
    ensures HexToDecimal(c) == n && c != ':'
  {
    if n < 10 then ('0' as int + n) as char else ('A' as int + (n - 10)) as char
  }

  function Digits(b: byte): (cs: string)
  {
    [HexChar(b / 16), HexChar(b % 16)]
  }

  function HexOf(bs: seq<byte>): (cs: string)
  {
    if bs == [] then [] else Digits(bs[0]) + HexOf(bs[1..])
  }

  /** A record with its colon and its checksum. */
  function Record(bs: seq<byte>): (cs: string)
  {
    [':'] + HexOf(bs) + Digits(Negated(Sum(bs)))
  }

  /** Words in the order low byte, high byte. */
  function BytesOf(ws: seq<word>): (bs: seq<byte>)
    ensures |bs| == 2 * |ws|
  {
    if ws == [] then [] else [ws[0] % 0x100, ws[0] / 0x100] + BytesOf(ws[1..])
  }

  function Header(address: nat, n: nat): (bs: seq<byte>)
    requires address < 0x1_0000 && n < 128
  {
    [2 * n, address / 0x100, address % 0x100, 0]
  }

  function DataRecord(address: nat, ws: seq<word>): (cs: string)
    requires address < 0x1_0000 && |ws| < 128
  {
    Record(Header(address, |ws|) + BytesOf(ws))
  }

  /** The end-of-file record. */
  function EndRecord(): (cs: string)
  {
    ":00000001FF"
  }

  lemma {:induction false} EndText()
    ensures EndRecord() == Record([0, 0, 0, 1])
  {
    assert HexOf([0, 0, 0, 1]) == Digits(0) + (Digits(0) + (Digits(0) + (Digits(1) + [])));
    assert Sum([0, 0, 0, 1]) == 1 by {
      HeaderSum(0, 0, 0, 1);
    }
  }

  // ----- a byte at a time

  /** The parser with a complete byte in its data field. */
  function WithByte(p: Parser, b: byte): (r: Parser)
  {
    p.(reader := p.reader.(data := b))
  }

  /** A parser in the middle of a record, between two bytes. */
  ghost predicate Between(p: Parser)
  {
    p.reader.phase != WaitLine && !p.reader.readMSB
  }

  lemma ByteFromDigits(before: byte, b: byte)
    ensures Pair(Pair(before, b / 16), b % 16) == b
  {
  }

  lemma {:induction false} FeedByte(d: Device, p: Parser, b: byte)
    requires d.Valid() && Between(p)
    ensures After(d, p, Digits(b)) == Process(d, WithByte(p, b))
    ensures Ops(d, p, Digits(b)) == ByteOps(d, WithByte(p, b).reader, p.target)
    ensures !Process(d, WithByte(p, b)).reader.readMSB
  {
    var hi, lo := HexChar(b / 16), HexChar(b % 16);
    var q := Step(d, p, hi);
    ByteFromDigits(p.reader.data, b);
    assert q == p.(reader := Shift(p.reader, hi));
    assert Shift(q.reader, lo) == WithByte(p, b).reader;
    assert Step(d, q, lo) == Process(d, WithByte(p, b));
    TwoCharacters(d, p, hi, lo);
  }

  lemma {:induction false} TwoCharacters(d: Device, p: Parser, a: char, b: char)
    requires d.Valid()
    ensures After(d, p, [a, b]) == Step(d, Step(d, p, a), b)
    ensures Ops(d, p, [a, b]) == StepOps(d, p, a) + StepOps(d, Step(d, p, a), b)
  {
    var q := Step(d, p, a);
    assert [a, b][1..] == [b] && [b][1..] == [];
    assert After(d, q, [b]) == After(d, Step(d, q, b), []);
    assert Ops(d, q, [b]) == StepOps(d, q, b) + Ops(d, Step(d, q, b), []);
  }

  /** The first byte of a text, and the rest. */
  lemma {:induction false} FeedFirst(d: Device, p: Parser, b: byte, bs: seq<byte>, rest: string)
    requires d.Valid() && Between(p)
    ensures var q := Process(d, WithByte(p, b));
            && After(d, p, HexOf([b] + bs) + rest) == After(d, q, HexOf(bs) + rest)
            && Ops(d, p, HexOf([b] + bs) + rest) == ByteOps(d, WithByte(p, b).reader, p.target) + Ops(d, q, HexOf(bs) + rest)
            && !q.reader.readMSB
  {
    FeedByte(d, p, b);
    assert ([b] + bs)[1..] == bs;
    assert HexOf([b] + bs) + rest == Digits(b) + (HexOf(bs) + rest);
    RunConcat(d, p, Digits(b), HexOf(bs) + rest);
  }

  // ----- a record at a time

  /** Inside a data record, `n` words and the checksum still to come; `sum` is the checksum so far. */
  ghost predicate InData(p: Parser, n: nat, sum: byte)
  {
    && Between(p) && p.reader.recordType == DATA_RECORD && p.reader.checksum == sum && p.reader.dataRem == 2 * n
    && p.reader.phase == if n == 0 then Checksum else ReadData
  }

  /** The parser after one byte, when that byte touches no flash and does not end the record. */
  ghost predicate Quietly(d: Device, p: Parser, b: byte, q: Parser)
    requires d.Valid()
  {
    Between(p) && Between(q) && q == Process(d, WithByte(p, b)) && ByteOps(d, WithByte(p, b).reader, p.target) == []
  }

  lemma {:induction false} FeedFour(d: Device, p: Parser, p1: Parser, p2: Parser, p3: Parser, q: Parser,
                                    a: byte, b: byte, c: byte, e: byte, rest: string)
    requires d.Valid() && Quietly(d, p, a, p1) && Quietly(d, p1, b, p2) && Quietly(d, p2, c, p3) && Quietly(d, p3, e, q)
    ensures After(d, p, HexOf([a, b, c, e]) + rest) == After(d, q, rest)
    ensures Ops(d, p, HexOf([a, b, c, e]) + rest) == Ops(d, q, rest)
  {
    FeedFirst(d, p, a, [b, c, e], rest);
    FeedFirst(d, p1, b, [c, e], rest);
    FeedFirst(d, p2, c, [e], rest);
    FeedFirst(d, p3, e, [], rest);
    assert [a, b, c, e] == [a] + [b, c, e] && [b, c, e] == [b] + [c, e] && [c, e] == [c] + [e] && [e] == [e] + [];
    assert HexOf([]) + rest == rest;
  }

  /** A parser at the start of a record, right behind the colon. */
  ghost predicate AtRecord(p: Parser)
  {
    Between(p) && p.reader.phase == ByteCount && p.reader.checksum == 0 && p.target.address == p.target.base
  }

  /** The address that the two address bytes of a record make, on top of the base. */
  function RecordAddress(base: uint32, hi: byte, lo: byte): (a: uint32)
  {
    Wrap32(Wrap32(base + 0x100 * hi) + lo)
  }

  /** The four header bytes of a record, with data to come if it declares any. */
  lemma {:induction false} FeedHeader(d: Device, p: Parser, n: byte, hi: byte, lo: byte, kind: byte, rest: string) returns (q: Parser)
    requires d.Valid() && AtRecord(p)
    ensures After(d, p, HexOf([n, hi, lo, kind]) + rest) == After(d, q, rest)
    ensures Ops(d, p, HexOf([n, hi, lo, kind]) + rest) == Ops(d, q, rest)
    ensures Between(q) && q.reader.phase == (if n == 0 then Checksum else ReadData)
    ensures q.reader.recordType == kind && q.reader.checksum == Sum([n, hi, lo, kind]) && q.reader.dataRem == n
    ensures q.target == p.target.(address := RecordAddress(p.target.base, hi, lo)) && q.runBootloader == p.runBootloader
  {
    var p1 := Process(d, WithByte(p, n));
    var p2 := Process(d, WithByte(p1, hi));
    var p3 := Process(d, WithByte(p2, lo));
    q := Process(d, WithByte(p3, kind));
    assert Quietly(d, p, n, p1);
    assert Quietly(d, p1, hi, p2);
    assert Quietly(d, p2, lo, p3);
    assert Quietly(d, p3, kind, q);
    FeedFour(d, p, p1, p2, p3, q, n, hi, lo, kind, rest);
    HeaderSum(n, hi, lo, kind);
  }

  lemma {:induction false} HeaderSum(n: byte, hi: byte, lo: byte, kind: byte)
    ensures Sum([n, hi, lo, kind]) == Add8(Add8(Add8(n, hi), lo), kind)
  {
    assert [n, hi, lo, kind] == [] + [n] + [hi] + [lo] + [kind];
    SumSnoc([] + [n] + [hi] + [lo], kind);
    SumSnoc([] + [n] + [hi], lo);
    SumSnoc([] + [n], hi);
    SumSnoc([], n);
  }

  // ----- the data words of a record

  /** The target after `n` more words. */
  function LoadTarget(d: Device, t: Target, n: nat): (r: Target)
    requires d.Valid()
    decreases n
  {
    if n == 0 then t else LoadTarget(d, StoreWord(d, t), n - 1)
  }

  function LoadOps(d: Device, t: Target, ws: seq<word>): (ops: seq<Op>)
    requires d.Valid()
    decreases |ws|
  {
    if ws == [] then [] else StoreOps(d, t, ws[0]) + LoadOps(d, StoreWord(d, t), ws[1..])
  }

  lemma WordHalves(w: word)
    ensures WordOf(w / 0x100, w % 0x100) == w
  {
  }

  /** The two bytes of a word, low byte first. */
  lemma {:induction false} WordBytes(d: Device, p: Parser, p1: Parser, q: Parser, n: nat, sum: byte, lo: byte, hi: byte)
    requires d.Valid() && InData(p, n, sum) && n > 0 && !Protected(d, p.target)
    requires p1 == Process(d, WithByte(p, lo)) && q == Process(d, WithByte(p1, hi))
    ensures Quietly(d, p, lo, p1)
    ensures ByteOps(d, WithByte(p1, hi).reader, p1.target) == StoreOps(d, p.target, WordOf(hi, lo))
    ensures InData(q, n - 1, Add8(Add8(sum, lo), hi))
    ensures q.target == StoreWord(d, p.target) && q.runBootloader == p.runBootloader
  {
    assert (2 * n - 1) % 2 == 1 && (2 * n - 2) % 2 == 0;
    assert p1.reader.dataRem == 2 * n - 1 && p1.reader.prevData == lo && p1.target == p.target;
  }

  lemma {:induction false} FeedWord(d: Device, p: Parser, n: nat, sum: byte, lo: byte, hi: byte, bs: seq<byte>, rest: string) returns (q: Parser)
    requires d.Valid() && InData(p, n, sum) && n > 0 && !Protected(d, p.target)
    ensures After(d, p, HexOf([lo, hi] + bs) + rest) == After(d, q, HexOf(bs) + rest)
    ensures Ops(d, p, HexOf([lo, hi] + bs) + rest) == StoreOps(d, p.target, WordOf(hi, lo)) + Ops(d, q, HexOf(bs) + rest)
    ensures InData(q, n - 1, Add8(Add8(sum, lo), hi))
    ensures q.target == StoreWord(d, p.target) && q.runBootloader == p.runBootloader
  {
    var p1 := Process(d, WithByte(p, lo));
    q := Process(d, WithByte(p1, hi));
    WordBytes(d, p, p1, q, n, sum, lo, hi);
    FeedFirst(d, p, lo, [hi] + bs, rest);
    FeedFirst(d, p1, hi, bs, rest);
    assert [lo, hi] + bs == [lo] + ([hi] + bs);
  }

  /** All words that are still to be stored lie below the bootloader, in the first 64 KiB. */
  ghost predicate Below(d: Device, t: Target, n: nat)
  {
    t.address + 2 * n <= d.bootStart && t.address + 2 * n <= 0x1_0000
  }

  lemma SumTwo(bs: seq<byte>, a: byte, b: byte)
    ensures Sum(bs + [a, b]) == Add8(Add8(Sum(bs), a), b)
  {
    assert bs + [a, b] == bs + [a] + [b];
    SumSnoc(bs + [a], b);
    SumSnoc(bs, a);
  }

  lemma OneWordMore(done: seq<byte>, ws: seq<word>)
    requires ws != []
    ensures done + [ws[0] % 0x100, ws[0] / 0x100] + BytesOf(ws[1..]) == done + BytesOf(ws)
  {
  }

  lemma OneWordLess(d: Device, t: Target, n: nat)
    requires d.Valid() && n > 0 && Below(d, t, n)
    ensures !Protected(d, t) && Below(d, StoreWord(d, t), n - 1)
  {
  }

  lemma {:induction false} FeedNextWord(d: Device, p: Parser, n: nat, done: seq<byte>, lo: byte, hi: byte, bs: seq<byte>, rest: string) returns (q: Parser)
    requires d.Valid() && n > 0 && InData(p, n, Sum(done)) && !Protected(d, p.target)
    ensures After(d, p, HexOf([lo, hi] + bs) + rest) == After(d, q, HexOf(bs) + rest)
    ensures Ops(d, p, HexOf([lo, hi] + bs) + rest) == StoreOps(d, p.target, WordOf(hi, lo)) + Ops(d, q, HexOf(bs) + rest)
    ensures InData(q, n - 1, Sum(done + [lo, hi]))
    ensures q.target == StoreWord(d, p.target) && q.runBootloader == p.runBootloader
  {
    q := FeedWord(d, p, n, Sum(done), lo, hi, bs, rest);
    SumTwo(done, lo, hi);
  }

  /** The words of a data record; `done` are the bytes of the record read so far. */
  lemma {:induction false} FeedWords(d: Device, p: Parser, done: seq<byte>, ws: seq<word>, rest: string) returns (q: Parser)
    requires d.Valid() && InData(p, |ws|, Sum(done)) && Below(d, p.target, |ws|)
    ensures After(d, p, HexOf(BytesOf(ws)) + rest) == After(d, q, rest)
    ensures Ops(d, p, HexOf(BytesOf(ws)) + rest) == LoadOps(d, p.target, ws) + Ops(d, q, rest)
    ensures InData(q, 0, Sum(done + BytesOf(ws)))
    ensures q.target == LoadTarget(d, p.target, |ws|) && q.runBootloader == p.runBootloader
    decreases |ws|
  {
    if ws == [] {
      q := p;
      assert HexOf([]) + rest == rest && done + [] == done;
    } else {
      var w := ws[0];
      OneWordLess(d, p.target, |ws|);
      WordHalves(w);
      var q1 := FeedNextWord(d, p, |ws|, done, w % 0x100, w / 0x100, BytesOf(ws[1..]), rest);
      q := FeedWords(d, q1, done + [w % 0x100, w / 0x100], ws[1..], rest);
      OneWordMore(done, ws);
      Regroup(StoreOps(d, p.target, w), LoadOps(d, q1.target, ws[1..]), Ops(d, q, rest));
    }
  }

  /** The checksum byte, which brings the sum to zero. */
  lemma {:induction false} FeedChecksum(d: Device, p: Parser, sum: byte, rest: string) returns (q: Parser)
    requires d.Valid() && Between(p) && p.reader.phase == Checksum && p.reader.checksum == sum
    ensures After(d, p, Digits(Negated(sum)) + rest) == After(d, q, rest)
    ensures Ops(d, p, Digits(Negated(sum)) + rest) == FlushOps(d, p.target) + Ops(d, q, rest)
    ensures q.target == Flush(d, p.target)
    ensures q.runBootloader == (p.runBootloader && p.reader.recordType != END_OF_FILE)
  {
    FeedByte(d, p, Negated(sum));
    RunConcat(d, p, Digits(Negated(sum)), rest);
    q := Process(d, WithByte(p, Negated(sum)));
  }

  /** The colon, from whatever state. */
  lemma {:induction false} FeedColon(d: Device, p: Parser, rest: string) returns (q: Parser)
    requires d.Valid()
    ensures After(d, p, [':'] + rest) == After(d, q, rest) && Ops(d, p, [':'] + rest) == Ops(d, q, rest)
    ensures AtRecord(q) && q.target == p.target.(address := p.target.base) && q.runBootloader == p.runBootloader
  {
    q := Step(d, p, ':');
    assert ([':'] + rest)[1..] == rest;
  }

  lemma LoadedAgain(d: Device, t: Target)
    requires d.Valid()
    ensures FlushOps(d, StoreWord(d, t)) == [] && Flush(d, StoreWord(d, t)) == StoreWord(d, t)
  {
  }

  lemma {:induction false} LoadLast(d: Device, t: Target, n: nat)
    requires d.Valid() && n > 0
    ensures FlushOps(d, LoadTarget(d, t, n)) == [] && Flush(d, LoadTarget(d, t, n)) == LoadTarget(d, t, n)
    decreases n
  {
    if n == 1 {
      LoadedAgain(d, t);
    } else {
      LoadLast(d, StoreWord(d, t), n - 1);
    }
  }

  lemma AddressHalves(a: nat)
    requires a < 0x1_0000
    ensures a / 0x100 < 0x100 && 0x100 * (a / 0x100) + a % 0x100 == a
  {
  }

  lemma {:induction false} HexOfConcat(a: seq<byte>, b: seq<byte>)
    ensures HexOf(a + b) == HexOf(a) + HexOf(b)
    decreases |a|
  {
    if a == [] {
      assert a + b == b;
    } else {
      assert (a + b)[1..] == a[1..] + b;
      HexOfConcat(a[1..], b);
    }
  }

  lemma {:induction false} RecordText(address: nat, ws: seq<word>, rest: string)
    requires address < 0x1_0000 && |ws| < 128
    ensures var head, bs := Header(address, |ws|), BytesOf(ws);
            DataRecord(address, ws) + rest == [':'] + (HexOf(head) + (HexOf(bs) + (Digits(Negated(Sum(head + bs))) + rest)))
  {
    HexOfConcat(Header(address, |ws|), BytesOf(ws));
  }

  /** Words and checksum of a data record. */
  lemma {:induction false} FeedBody(d: Device, p: Parser, head: seq<byte>, ws: seq<word>, rest: string) returns (q: Parser)
    requires d.Valid() && ws != [] && InData(p, |ws|, Sum(head)) && Below(d, p.target, |ws|)
    ensures var text := HexOf(BytesOf(ws)) + (Digits(Negated(Sum(head + BytesOf(ws)))) + rest);
            After(d, p, text) == After(d, q, rest) && Ops(d, p, text) == LoadOps(d, p.target, ws) + Ops(d, q, rest)
    ensures q.target == LoadTarget(d, p.target, |ws|) && q.runBootloader == p.runBootloader
  {
    var sum := Sum(head + BytesOf(ws));
    var q1 := FeedWords(d, p, head, ws, Digits(Negated(sum)) + rest);
    q := FeedChecksum(d, q1, sum, rest);
    LoadLast(d, p.target, |ws|);
    assert [] + Ops(d, q, rest) == Ops(d, q, rest);
  }

  lemma {:induction false} FeedDataHeader(d: Device, p: Parser, address: nat, n: nat, rest: string) returns (q: Parser)
    requires d.Valid() && AtRecord(p) && p.target.base == 0 && address < 0x1_0000 && 0 < n < 128
    ensures After(d, p, HexOf(Header(address, n)) + rest) == After(d, q, rest)
    ensures Ops(d, p, HexOf(Header(address, n)) + rest) == Ops(d, q, rest)
    ensures InData(q, n, Sum(Header(address, n)))
    ensures q.target == p.target.(address := address) && q.runBootloader == p.runBootloader
  {
    AddressHalves(address);
    q := FeedHeader(d, p, 2 * n, address / 0x100, address % 0x100, DATA_RECORD, rest);
  }

  lemma {:induction false} FeedHeaderAndBody(d: Device, p: Parser, address: nat, ws: seq<word>, rest: string, body: string) returns (q: Parser)
    requires d.Valid() && AtRecord(p) && p.target.base == 0 && address < 0x1_0000 && 0 < |ws| < 128
    requires Below(d, p.target.(address := address), |ws|)
    requires body == HexOf(BytesOf(ws)) + (Digits(Negated(Sum(Header(address, |ws|) + BytesOf(ws)))) + rest)
    ensures After(d, p, HexOf(Header(address, |ws|)) + body) == After(d, q, rest)
    ensures Ops(d, p, HexOf(Header(address, |ws|)) + body) == LoadOps(d, p.target.(address := address), ws) + Ops(d, q, rest)
    ensures q.target == LoadTarget(d, p.target.(address := address), |ws|) && q.runBootloader == p.runBootloader
  {
    var q1 := FeedDataHeader(d, p, address, |ws|, body);
    q := FeedBody(d, q1, Header(address, |ws|), ws, rest);
  }

  /** A whole data record stores its words, from whatever state of the reader. */
  lemma {:induction false} FeedRecord(d: Device, p: Parser, address: nat, ws: seq<word>, rest: string) returns (q: Parser)
    requires d.Valid() && p.target.base == 0 && address < 0x1_0000 && 0 < |ws| < 128
    requires Below(d, p.target.(address := address), |ws|)
    ensures After(d, p, DataRecord(address, ws) + rest) == After(d, q, rest)
    ensures Ops(d, p, DataRecord(address, ws) + rest) == LoadOps(d, p.target.(address := address), ws) + Ops(d, q, rest)
    ensures q.target == LoadTarget(d, p.target.(address := address), |ws|) && q.runBootloader == p.runBootloader
  {
    var head := Header(address, |ws|);
    var body := HexOf(BytesOf(ws)) + (Digits(Negated(Sum(head + BytesOf(ws)))) + rest);
    RecordText(address, ws, rest);
    var q0 := FeedColon(d, p, HexOf(head) + body);
    q := FeedHeaderAndBody(d, q0, address, ws, rest, body);
  }

  /** The end-of-file record flushes what lies on another page than the first one and ends the run. */
  lemma {:induction false} FeedEnd(d: Device, p: Parser) returns (q: Parser)
    requires d.Valid() && p.target.base == 0
    ensures After(d, p, EndRecord()) == q && Ops(d, p, EndRecord()) == FlushOps(d, p.target.(address := 0))
    ensures !q.runBootloader
  {
    EndText();
    var head := [0, 0, 0, 1];
    var end := Digits(Negated(Sum(head)));
    var q0 := FeedColon(d, p, HexOf(head) + (end + []));
    var q1 := FeedHeader(d, q0, 0, 0, 0, 1, end + []);
    q := FeedChecksum(d, q1, Sum(head), []);
    assert EndRecord() == [':'] + (HexOf(head) + (end + []));
  }

  // ----- a whole file

  /** Chunks of data records: none empty, none longer than a record can hold. */
  ghost predicate Chunked(chunks: seq<seq<word>>)
  {
    forall i :: 0 <= i < |chunks| ==> 0 < |chunks[i]| < 128
  }

  function Flat(chunks: seq<seq<word>>): (ws: seq<word>)
  {
    if chunks == [] then [] else chunks[0] + Flat(chunks[1..])
  }

  /** The records of a contiguous image from `address` on. */
  function Records(address: nat, chunks: seq<seq<word>>): (cs: string)
    requires Chunked(chunks) && address + 2 * |Flat(chunks)| <= 0x1_0000
    decreases |chunks|
  {
    if chunks == [] then [] else DataRecord(address, chunks[0]) + Records(address + 2 * |chunks[0]|, chunks[1..])
  }

  lemma {:induction false} LoadOpsConcat(d: Device, t: Target, a: seq<word>, b: seq<word>)
    requires d.Valid()
    ensures LoadOps(d, t, a + b) == LoadOps(d, t, a) + LoadOps(d, LoadTarget(d, t, |a|), b)
    ensures LoadTarget(d, t, |a + b|) == LoadTarget(d, LoadTarget(d, t, |a|), |b|)
    decreases |a|
  {
    if a == [] {
      assert a + b == b;
    } else {
      assert (a + b)[1..] == a[1..] + b;
      LoadOpsConcat(d, StoreWord(d, t), a[1..], b);
    }
  }

  lemma {:induction false} LoadAddress(d: Device, t: Target, n: nat)
    requires d.Valid() && Below(d, t, n)
    ensures LoadTarget(d, t, n).address == t.address + 2 * n && LoadTarget(d, t, n).base == t.base
    decreases n
  {
    if n == 0 {
    } else {
      LoadAddress(d, StoreWord(d, t), n - 1);
    }
  }

  lemma {:induction false} RecordsCons(address: nat, chunks: seq<seq<word>>, rest: string)
    requires chunks != [] && Chunked(chunks) && address + 2 * |Flat(chunks)| <= 0x1_0000
    ensures Chunked(chunks[1..]) && Flat(chunks) == chunks[0] + Flat(chunks[1..])
    ensures Records(address, chunks) + rest
            == DataRecord(address, chunks[0]) + (Records(address + 2 * |chunks[0]|, chunks[1..]) + rest)
  {
  }

  /** The records of an image do to the flash what its words do one after the other, however they are split. */
  lemma {:induction false} FeedRecords(d: Device, p: Parser, address: nat, chunks: seq<seq<word>>, rest: string) returns (q: Parser)
    requires d.Valid() && p.target.base == 0 && Chunked(chunks)
    requires address + 2 * |Flat(chunks)| <= 0x1_0000 && address + 2 * |Flat(chunks)| <= d.bootStart
    ensures After(d, p, Records(address, chunks) + rest) == After(d, q, rest)
    ensures Ops(d, p, Records(address, chunks) + rest) == LoadOps(d, p.target.(address := address), Flat(chunks)) + Ops(d, q, rest)
    ensures q.target.(address := 0) == LoadTarget(d, p.target.(address := address), |Flat(chunks)|).(address := 0)
    ensures q.target.base == 0 && q.runBootloader == p.runBootloader
    decreases |chunks|
  {
    if chunks == [] {
      q := p;
      assert [] + rest == rest;
    } else {
      var ws, more, t := chunks[0], chunks[1..], p.target.(address := address);
      var next := address + 2 * |ws|;
      RecordsCons(address, chunks, rest);
      LoadAddress(d, t, |ws|);
      LoadOpsConcat(d, t, ws, Flat(more));
      var q1 := FeedRecord(d, p, address, ws, Records(next, more) + rest);
      assert q1.target.(address := next) == q1.target;
      q := FeedRecords(d, q1, next, more, rest);
      Regroup(LoadOps(d, t, ws), LoadOps(d, q1.target, Flat(more)), Ops(d, q, rest));
    }
  }
}
