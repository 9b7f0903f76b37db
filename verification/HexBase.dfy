/** The records that set a base address. */
module HexBase {
  import opened Flash
  import opened HexParser
  import opened HexText

  predicate IsBase(kind: byte)
  {
    kind == 2 || kind == 4
  }

  /** What the 16 bits of a base record are multiplied by. */
  function Scale(kind: byte): (n: nat)
    requires IsBase(kind)
  {
    if kind == 2 then 0x10 else 0x1_0000
  }

  /** The base that Intel HEX gives the record: high byte first. */
  function IntelBase(kind: byte, hi: byte, lo: byte): (base: nat)
    requires IsBase(kind)
  {
    (0x100 * hi + lo) * Scale(kind)
  }

  /** The first byte of the pair is kept. */
  lemma {:induction false} FirstOfPair(d: Device, p: Parser, b: byte, q: Parser)
    requires d.Valid() && Between(p) && p.reader.phase == ReadData && p.reader.dataRem == 2 && !Protected(d, p.target)
    requires q == Process(d, WithByte(p, b))
    ensures Quietly(d, p, b, q) && q.target == p.target
    ensures q.reader.phase == ReadData && q.reader.dataRem == 1 && q.reader.prevData == b && q.reader.recordType == p.reader.recordType
  {
  }

  /** The second byte sets the base, as the high byte. */
  lemma {:induction false} SecondOfPair(d: Device, p: Parser, b: byte, q: Parser)
    requires d.Valid() && Between(p) && p.reader.phase == ReadData && p.reader.dataRem == 1 && !Protected(d, p.target)
    requires IsBase(p.reader.recordType)
    requires q == Process(d, WithByte(p, b))
    ensures Quietly(d, p, b, q) && q.target == p.target.(base := WordOf(b, p.reader.prevData) * Scale(p.reader.recordType))
  {
  }

  /** The header and the two bytes of a base record. */
  function BaseRecord(kind: byte, ah: byte, al: byte, hi: byte, lo: byte): (cs: string)
  {
    HexOf([2, ah, al, kind]) + HexOf([hi] + [lo])
  }

  /** Below the bootloader the loader takes the two bytes of a base record low byte first. */
  lemma {:induction false} BaseTaken(d: Device, p: Parser, kind: byte, ah: byte, al: byte, hi: byte, lo: byte) returns (q: Parser)
    requires d.Valid() && AtRecord(p) && IsBase(kind) && RecordAddress(p.target.base, ah, al) < d.bootStart
    ensures After(d, p, BaseRecord(kind, ah, al, hi, lo)) == q && Ops(d, p, BaseRecord(kind, ah, al, hi, lo)) == []
    ensures q.target.base == WordOf(lo, hi) * Scale(kind)
  {
    var pair := HexOf([hi] + [lo]);
    var q1 := FeedHeader(d, p, 2, ah, al, kind, pair);
    var q2 := Process(d, WithByte(q1, hi));
    q := Process(d, WithByte(q2, lo));
    FirstOfPair(d, q1, hi, q2);
    SecondOfPair(d, q2, lo, q);
    FeedPair(d, q1, q2, q, hi, lo, []);
    assert pair + [] == pair;
  }

  lemma {:induction false} FeedPair(d: Device, p: Parser, p1: Parser, q: Parser, a: byte, b: byte, rest: string)
    requires d.Valid() && Quietly(d, p, a, p1) && Quietly(d, p1, b, q)
    ensures After(d, p, HexOf([a] + [b]) + rest) == After(d, q, rest) && Ops(d, p, HexOf([a] + [b]) + rest) == Ops(d, q, rest)
  {
    FeedFirst(d, p, a, [b], rest);
    FeedFirst(d, p1, b, [], rest);
    assert [b] + [] == [b];
    assert HexOf([]) + rest == rest;
  }

  /** At or above the bootloader the first byte is refused, and the line is given up. */
  lemma {:induction false} FirstRefused(d: Device, p: Parser, b: byte) returns (q: Parser)
    requires d.Valid() && Between(p) && p.reader.phase == ReadData && Protected(d, p.target)
    ensures After(d, p, Digits(b)) == q && Ops(d, p, Digits(b)) == []
    ensures q.reader.phase == WaitLine && q.target == p.target.(pageDirty := false)
  {
    FeedByte(d, p, b);
    q := Process(d, WithByte(p, b));
  }

  /** While it waits for a line, the parser takes in nothing but a colon. */
  lemma {:induction false} Waits(d: Device, p: Parser, cs: string)
    requires d.Valid() && p.reader.phase == WaitLine && ':' !in cs
    ensures After(d, p, cs).reader.phase == WaitLine && After(d, p, cs).target.base == p.target.base && Ops(d, p, cs) == []
    decreases |cs|
  {
    if cs == [] {
    } else {
      Waits(d, Step(d, p, cs[0]), cs[1..]);
    }
  }

  lemma {:induction false} BaseRefused(d: Device, p: Parser, kind: byte, ah: byte, al: byte, hi: byte, lo: byte) returns (q: Parser)
    requires d.Valid() && AtRecord(p) && IsBase(kind) && RecordAddress(p.target.base, ah, al) >= d.bootStart
    ensures After(d, p, BaseRecord(kind, ah, al, hi, lo)) == q && Ops(d, p, BaseRecord(kind, ah, al, hi, lo)) == []
    ensures q.target.base == p.target.base && q.reader.phase == WaitLine
  {
    var q1 := FeedHeader(d, p, 2, ah, al, kind, HexOf([hi] + [lo]));
    var q2 := FirstRefused(d, q1, hi);
    PairText(hi, lo);
    RunConcat(d, q1, Digits(hi), Digits(lo));
    Waits(d, q2, Digits(lo));
    q := After(d, q2, Digits(lo));
  }

  lemma {:induction false} PairText(hi: byte, lo: byte)
    ensures HexOf([hi] + [lo]) == Digits(hi) + Digits(lo)
  {
    HexOfConcat([hi], [lo]);
    assert [hi][1..] == [] && [lo][1..] == [];
  }

  lemma {:induction false} SwappedBase(kind: byte, hi: byte, lo: byte)
    requires IsBase(kind)
    ensures WordOf(lo, hi) * Scale(kind) == IntelBase(kind, hi, lo) <==> hi == lo
  {
  }

  /**
   When a base record leaves the base that Intel HEX means, from any record start: if its address lies below the
   bootloader, if and only if its two bytes are equal; otherwise it is refused, so if and only if the base was right before.
   */
  lemma {:induction false} BaseRightIff(d: Device, p: Parser, kind: byte, ah: byte, al: byte, hi: byte, lo: byte) returns (q: Parser)
    requires d.Valid() && AtRecord(p) && IsBase(kind)
    ensures After(d, p, BaseRecord(kind, ah, al, hi, lo)) == q && Ops(d, p, BaseRecord(kind, ah, al, hi, lo)) == []
    ensures q.target.base == IntelBase(kind, hi, lo)
            <==> if RecordAddress(p.target.base, ah, al) < d.bootStart then hi == lo else p.target.base == IntelBase(kind, hi, lo)
  {
    if RecordAddress(p.target.base, ah, al) < d.bootStart {
      q := BaseTaken(d, p, kind, ah, al, hi, lo);
      SwappedBase(kind, hi, lo);
    } else {
      q := BaseRefused(d, p, kind, ah, al, hi, lo);
    }
  }

  // ----- a base in the bootloader section is there to stay

  /** A base that some base record can set. */
  predicate Settable(base: uint32)
  {
    base <= 0xFFFF_0000
  }

  /** Between two colons, or before the data of a record, with a base at or above the bootloader. */
  ghost predicate Stuck(d: Device, p: Parser)
  {
    var a, base := p.target.address, p.target.base;
    && base >= d.bootStart && Settable(base)
    && match p.reader.phase
       case WaitLine => true
       case ByteCount => a == base
       case AddressHigh => a == base
       case AddressLow => base <= a <= base + 0xFF00
       case TypeByte => base <= a
       case ReadData => base <= a
       case Checksum => true
  }

  /** Operations that erase nothing and fill nothing in. */
  ghost predicate OnlyWrites(ops: seq<Op>)
  {
    forall i :: 0 <= i < |ops| ==> ops[i].Write?
  }

  lemma {:induction false} StuckStep(d: Device, p: Parser, c: char)
    requires d.Valid() && Stuck(d, p)
    ensures Stuck(d, Step(d, p, c)) && Step(d, p, c).target.base == p.target.base && OnlyWrites(StepOps(d, p, c))
  {
  }

  /** Once a record starts with a base at or above the bootloader, no stream changes the base, erases or fills in anything. */
  lemma {:induction false} StuckForever(d: Device, p: Parser, cs: string)
    requires d.Valid() && Stuck(d, p)
    ensures After(d, p, cs).target.base == p.target.base && OnlyWrites(Ops(d, p, cs))
    decreases |cs|
  {
    if cs == [] {
    } else {
      StuckStep(d, p, cs[0]);
      StuckForever(d, Step(d, p, cs[0]), cs[1..]);
    }
  }

  /** Every base that is ever set can be set by a record. */
  lemma {:induction false} AlwaysSettable(d: Device, p: Parser, cs: string)
    requires d.Valid() && Settable(p.target.base)
    ensures Settable(After(d, p, cs).target.base)
    decreases |cs|
  {
    if cs == [] {
    } else {
      SettableStep(d, p, cs[0]);
      AlwaysSettable(d, Step(d, p, cs[0]), cs[1..]);
    }
  }

  lemma {:induction false} SettableStep(d: Device, p: Parser, c: char)
    requires d.Valid() && Settable(p.target.base)
    ensures Settable(Step(d, p, c).target.base)
  {
  }

  /**
   A whole run: if the base is at or above the bootloader when a colon comes, then nothing behind that colon changes the
   base, erases or fills in anything, whatever the stream was before and is after it.
   */
  lemma {:induction false} BaseStays(d: Device, before: string, after: string) returns (p: Parser, q: Parser)
    requires d.Valid() && After(d, INITIAL, before).target.base >= d.bootStart
    ensures p == After(d, INITIAL, before) && q == Step(d, p, ':')
    ensures After(d, q, after).target.base == p.target.base && OnlyWrites(Ops(d, q, after))
  {
    p := After(d, INITIAL, before);
    q := Step(d, p, ':');
    AlwaysSettable(d, INITIAL, before);
    StuckForever(d, q, after);
  }

  /** Such a base is reached by a linear address record with two equal bytes, which is right; a second record cannot take it back. */
  lemma {:induction false} EqualBytesRefused(d: Device, p: Parser, b: byte, hi: byte, lo: byte) returns (q: Parser, r: Parser)
    requires d.Valid() && AtRecord(p) && p.target.base == 0 && 0 < b && 0 < d.bootStart <= 0x1_0000 * WordOf(b, b)
    ensures After(d, p, BaseRecord(4, 0, 0, b, b)) == q && q.target.base == IntelBase(4, b, b)
    ensures After(d, Step(d, q, ':'), BaseRecord(4, 0, 0, hi, lo)) == r && r.target.base == q.target.base
  {
    q := BaseTaken(d, p, 4, 0, 0, b, b);
    SwappedBase(4, b, b);
    r := BaseRefused(d, Step(d, q, ':'), 4, 0, 0, hi, lo);
  }
}
