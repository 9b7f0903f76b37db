/** What the parser knows about the record it is in, for every stream of characters. */
module HexRecord {
  import opened Basics
  import opened Flash
  import opened HexParser

  predicate AllDigits(l: seq<byte>)
  {
    forall i :: 0 <= i < |l| ==> l[i] < 16
  }

  /** What an upper-case hexadecimal digit stands for. */
  function DigitValue(c: char): (v: byte)
    requires IsDigit(c)
    ensures v < 16
  {
    if c <= '9' then c as int - '0' as int else c as int - 'A' as int + 10
  }

  lemma DigitRead(c: char)
    ensures HexToDecimal(c) == if IsDigit(c) then DigitValue(c) else -1
  {
  }

  /** Digits since the last colon. */
  function Line(cs: string): (l: seq<byte>)
    ensures AllDigits(l)
  {
    if cs == [] then []
    else
      var n := |cs| - 1;
      var l := Line(cs[..n]);
      if cs[n] == ':' then [] else if IsDigit(cs[n]) then l + [DigitValue(cs[n])] else l
  }

  /** Bytes made of the digits, a last odd digit left out. */
  function Bytes(l: seq<byte>): (b: seq<byte>)
    requires AllDigits(l)
    ensures |b| == |l| / 2
  {
    if |l| < 2 then [] else [16 * l[0] + l[1]] + Bytes(l[2..])
  }

  function Sum(b: seq<byte>): (s: byte)
  {
    if b == [] then 0 else Add8(Sum(b[..|b| - 1]), b[|b| - 1])
  }

  /** The plain sum of the bytes. */
  function Total(b: seq<byte>): (n: nat)
  {
    if b == [] then 0 else Total(b[..|b| - 1]) + b[|b| - 1]
  }

  /** The checksum field holds that sum modulo 256. */
  lemma {:induction false} SumIsTotal(b: seq<byte>)
    ensures Sum(b) == Total(b) % 0x100
    decreases |b|
  {
    if b == [] {
    } else {
      SumIsTotal(b[..|b| - 1]);
    }
  }

  /** The number of data bytes that the record declares. */
  function Declared(b: seq<byte>): (n: nat)
    requires b != []
  {
    b[0]
  }

  /** The number of declared data bytes still to come. */
  function DataLeft(b: seq<byte>): (n: nat)
    requires b != []
  {
    if |b| <= 4 then Declared(b) else if |b| < 4 + Declared(b) then 4 + Declared(b) - |b| else 0
  }

  /** The bytes that count for the checksum. */
  function Covered(b: seq<byte>): (c: seq<byte>)
  {
    if |b| > 4 && |b| > 4 + Declared(b) then b[..4 + Declared(b)] else b
  }

  function PhaseAt(b: seq<byte>): (p: Phase)
  {
    if |b| == 0 then ByteCount
    else if |b| == 1 then AddressHigh
    else if |b| == 2 then AddressLow
    else if |b| == 3 then TypeByte
    else if DataLeft(b) > 0 then ReadData
    else Checksum
  }

  /** The fields of a parser that has read the bytes `b` of a record, unless it has given the record up. */
  ghost predicate InRecord(s: Reader, b: seq<byte>)
  {
    s.phase == WaitLine
    || (&& s.phase == PhaseAt(b)
        && s.checksum == Sum(Covered(b))
        && (b != [] ==> s.dataRem == DataLeft(b))
        && (|b| >= 4 ==> s.recordType == b[3]))
  }

  /** A complete end-of-file record followed by a byte that brings its sum to zero modulo 256. */
  ghost predicate EndsFile(b: seq<byte>)
  {
    |b| >= 5 && |b| > 4 + Declared(b) && b[3] == 1 && (Total(Covered(b)) + b[|b| - 1]) % 0x100 == 0
  }

  lemma {:induction false} SumSnoc(b: seq<byte>, x: byte)
    ensures Sum(b + [x]) == Add8(Sum(b), x)
  {
    assert (b + [x])[..|b|] == b;
  }

  /** One more byte: what is covered grows until the record is complete. */
  lemma {:induction false} CoveredSnoc(b: seq<byte>, x: byte)
    ensures PhaseAt(b) != Checksum ==> Sum(Covered(b + [x])) == Add8(Sum(Covered(b)), x)
    ensures PhaseAt(b) == Checksum ==> Covered(b + [x]) == Covered(b) && PhaseAt(b + [x]) == Checksum
    ensures PhaseAt(b) == Checksum ==> DataLeft(b + [x]) == DataLeft(b) == 0
  {
    SumSnoc(b, x);
    if PhaseAt(b) == Checksum {
      assert (b + [x])[..4 + Declared(b)] == Covered(b);
    } else {
      assert Covered(b) == b && Covered(b + [x]) == b + [x];
    }
  }

  lemma {:induction false} NextInData(s: Reader, b: seq<byte>, protect: bool)
    requires s.phase == ReadData && InRecord(s, b)
    ensures InRecord(NextReader(s, protect), b + [s.data])
  {
    CoveredSnoc(b, s.data);
    assert DataLeft(b + [s.data]) == DataLeft(b) - 1;
  }

  /** A complete byte keeps the record fields right. */
  lemma {:induction false} NextInRecord(s: Reader, b: seq<byte>, protect: bool)
    requires s.phase != WaitLine && InRecord(s, b)
    ensures InRecord(NextReader(s, protect), b + [s.data])
  {
    CoveredSnoc(b, s.data);
    if s.phase == ReadData {
      NextInData(s, b, protect);
    }
  }

  /** It clears the run flag exactly when it ends a file. */
  lemma {:induction false} StopsAtEnd(d: Device, p: Parser, b: seq<byte>)
    requires d.Valid() && p.reader.phase != WaitLine && InRecord(p.reader, b)
    ensures Process(d, p).runBootloader == (p.runBootloader && !(p.reader.phase == Checksum && EndsFile(b + [p.reader.data])))
  {
    CoveredSnoc(b, p.reader.data);
    SumIsTotal(Covered(b));
    ZeroSum(p.reader, Total(Covered(b)));
  }

  lemma ZeroSum(s: Reader, total: nat)
    requires s.checksum == total % 0x100
    ensures ChecksumGood(s) <==> (total + s.data) % 0x100 == 0
  {
  }

  // ----- every stream of characters

  /** What holds of the parser after the characters whose last line has the digits `l`. */
  ghost predicate Tracks(s: Reader, l: seq<byte>)
    requires AllDigits(l)
  {
    s.phase != WaitLine ==>
      && InRecord(s, Bytes(l))
      && (s.readMSB <==> |l| % 2 == 1)
      && (s.readMSB ==> s.data % 16 == l[|l| - 1])
  }

  lemma {:induction false} EvenSnoc(l: seq<byte>, digit: byte)
    requires AllDigits(l) && digit < 16 && |l| % 2 == 0
    ensures Bytes(l + [digit]) == Bytes(l)
    decreases |l|
  {
    if |l| == 0 {
    } else {
      assert (l + [digit])[2..] == l[2..] + [digit];
      EvenSnoc(l[2..], digit);
    }
  }

  lemma {:induction false} FirstByte(l: seq<byte>)
    requires AllDigits(l) && |l| >= 2
    ensures Bytes(l) == [16 * l[0] + l[1]] + Bytes(l[2..])
  {
  }

  lemma {:induction false} LastByte(l: seq<byte>, digit: byte)
    requires AllDigits(l) && digit < 16 && |l| == 1
    ensures Bytes(l + [digit]) == Bytes(l) + [16 * l[0] + digit]
  {
    var m := l + [digit];
    FirstByte(m);
    assert m[2..] == [];
  }

  lemma {:induction false} OddSnoc(l: seq<byte>, digit: byte)
    requires AllDigits(l) && digit < 16 && |l| % 2 == 1
    ensures Bytes(l + [digit]) == Bytes(l) + [16 * l[|l| - 1] + digit]
    decreases |l|
  {
    if |l| == 1 {
      LastByte(l, digit);
    } else {
      var m, t := l + [digit], l[2..];
      OddSnoc(t, digit);
      FirstByte(l);
      FirstByte(m);
      assert m[2..] == t + [digit] && m[0] == l[0] && m[1] == l[1];
      Regroup([16 * l[0] + l[1]], Bytes(t), [16 * l[|l| - 1] + digit]);
    }
  }

  lemma {:induction false} BytesSnoc(l: seq<byte>, digit: byte)
    requires AllDigits(l) && digit < 16
    ensures |l| % 2 == 0 ==> Bytes(l + [digit]) == Bytes(l)
    ensures |l| % 2 == 1 ==> Bytes(l + [digit]) == Bytes(l) + [16 * l[|l| - 1] + digit]
  {
    if |l| % 2 == 0 {
      EvenSnoc(l, digit);
    } else {
      OddSnoc(l, digit);
    }
  }

  lemma {:induction false} LineSnoc(cs: string, c: char)
    ensures Line(cs + [c]) == if c == ':' then [] else if IsDigit(c) then Line(cs) + [DigitValue(c)] else Line(cs)
  {
    assert (cs + [c])[..|cs|] == cs;
  }

  /** A digit that completes a byte of a record. */
  ghost predicate CompletesByte(p: Parser, c: char)
  {
    p.reader.phase != WaitLine && IsDigit(c) && p.reader.readMSB
  }

  lemma {:induction false} SecondDigit(d: Device, p: Parser, l: seq<byte>, c: char)
    requires d.Valid() && AllDigits(l) && Tracks(p.reader, l)
    requires !Restarts(p, c) && HexToDecimal(c) >= 0 && p.reader.readMSB
    ensures Tracks(Step(d, p, c).reader, l + [HexToDecimal(c)])
    ensures Step(d, p, c).runBootloader
            == (p.runBootloader && !(p.reader.phase == Checksum && EndsFile(Bytes(l + [HexToDecimal(c)]))))
  {
    BytesSnoc(l, HexToDecimal(c));
    var s := Shift(p.reader, c);
    ByteStep(d, p, c, s);
    LowDigit(p.reader.data, l[|l| - 1], HexToDecimal(c));
    assert Bytes(l + [HexToDecimal(c)]) == Bytes(l) + [s.data];
    NextInRecord(s, Bytes(l), Protected(d, p.target));
    StopsAtEnd(d, p.(reader := s), Bytes(l));
  }

  lemma LowDigit(a: byte, b: byte, digit: byte)
    requires a % 16 == b && digit < 16
    ensures Pair(a, digit) == 16 * b + digit
  {
  }

  lemma ByteStep(d: Device, p: Parser, c: char, s: Reader)
    requires d.Valid() && !Restarts(p, c) && HexToDecimal(c) >= 0 && p.reader.readMSB && s == Shift(p.reader, c)
    ensures Step(d, p, c).reader == NextReader(s, Protected(d, p.target))
    ensures Step(d, p, c).runBootloader == Process(d, p.(reader := s)).runBootloader
    ensures !NextReader(s, Protected(d, p.target)).readMSB
  {
  }

  lemma LowNibble(a: byte, digit: byte)
    requires digit < 16
    ensures Pair(a, digit) % 16 == digit
  {
  }

  lemma OneMoreDigit(n: nat)
    ensures n % 2 == 0 <==> (n + 1) % 2 == 1
  {
  }

  lemma {:induction false} FirstDigit(d: Device, p: Parser, l: seq<byte>, c: char)
    requires d.Valid() && AllDigits(l) && Tracks(p.reader, l)
    requires !Restarts(p, c) && HexToDecimal(c) >= 0 && !p.reader.readMSB
    ensures Tracks(Step(d, p, c).reader, l + [HexToDecimal(c)])
    ensures Step(d, p, c).runBootloader == p.runBootloader
  {
    BytesSnoc(l, HexToDecimal(c));
    LowNibble(p.reader.data, HexToDecimal(c));
    OneMoreDigit(|l|);
    assert Step(d, p, c) == p.(reader := Shift(p.reader, c));
  }

  lemma {:induction false} OtherCharacter(d: Device, p: Parser, l: seq<byte>, c: char)
    requires d.Valid() && AllDigits(l) && Tracks(p.reader, l)
    requires Restarts(p, c) || HexToDecimal(c) < 0 || !p.reader.readMSB
    ensures Tracks(Step(d, p, c).reader, if c == ':' then [] else if HexToDecimal(c) < 0 then l else l + [HexToDecimal(c)])
    ensures Step(d, p, c).runBootloader == p.runBootloader
  {
    if !Restarts(p, c) && HexToDecimal(c) >= 0 {
      FirstDigit(d, p, l, c);
    }
  }

  /** One character: the record is tracked, and the run flag cleared exactly when the character ends a file. */
  lemma {:induction false} StepTracks(d: Device, p: Parser, cs: string, c: char)
    requires d.Valid() && Tracks(p.reader, Line(cs))
    ensures Tracks(Step(d, p, c).reader, Line(cs + [c]))
    ensures Step(d, p, c).runBootloader
            == (p.runBootloader && !(CompletesByte(p, c) && p.reader.phase == Checksum && EndsFile(Bytes(Line(cs + [c])))))
  {
    LineSnoc(cs, c);
    DigitRead(c);
    if !Restarts(p, c) && HexToDecimal(c) >= 0 && p.reader.readMSB {
      SecondDigit(d, p, Line(cs), c);
    } else {
      OtherCharacter(d, p, Line(cs), c);
    }
  }

  /**
   In every reachable state the parser's fields are those of the record read since the last colon: its
   phase, what is left of its data, its type and the sum of its bytes.
   */
  lemma {:induction false} AlwaysTracks(d: Device, p: Parser, cs: string)
    requires d.Valid() && p.reader.phase == WaitLine
    ensures Tracks(After(d, p, cs).reader, Line(cs))
    decreases |cs|
  {
    if cs == [] {
    } else {
      var n := |cs| - 1;
      AlwaysTracks(d, p, cs[..n]);
      assert cs == cs[..n] + [cs[n]];
      AfterSnoc(d, p, cs[..n], cs[n]);
      StepTracks(d, After(d, p, cs[..n]), cs[..n], cs[n]);
    }
  }

  /** Character `k` of the stream completes the last byte of an end-of-file record whose sum is right. */
  ghost predicate EndsAt(d: Device, p: Parser, cs: string, k: nat)
    requires d.Valid() && k < |cs|
  {
    var q := After(d, p, cs[..k]);
    CompletesByte(q, cs[k]) && q.reader.phase == Checksum && EndsFile(Bytes(Line(cs[..k + 1])))
  }

  ghost predicate EndsSomewhere(d: Device, p: Parser, cs: string)
    requires d.Valid()
    decreases |cs|
  {
    cs != [] && (EndsAt(d, p, cs, |cs| - 1) || EndsSomewhere(d, p, cs[..|cs| - 1]))
  }

  lemma {:induction false} EndsAtPrefix(d: Device, p: Parser, cs: string, n: nat, k: nat)
    requires d.Valid() && k < n <= |cs|
    ensures EndsAt(d, p, cs[..n], k) <==> EndsAt(d, p, cs, k)
  {
    assert cs[..n][..k] == cs[..k] && cs[..n][..k + 1] == cs[..k + 1];
  }

  lemma {:induction false} EndsSomewhereAt(d: Device, p: Parser, cs: string, k: nat)
    requires d.Valid() && k < |cs| && EndsAt(d, p, cs, k)
    ensures EndsSomewhere(d, p, cs)
    decreases |cs|
  {
    var n := |cs| - 1;
    if k >= n {
    } else {
      EndsAtPrefix(d, p, cs, n, k);
      EndsSomewhereAt(d, p, cs[..n], k);
    }
  }

  lemma {:induction false} WhereItEnds(d: Device, p: Parser, cs: string) returns (k: nat)
    requires d.Valid() && EndsSomewhere(d, p, cs)
    ensures k < |cs| && EndsAt(d, p, cs, k)
    decreases |cs|
  {
    var n := |cs| - 1;
    if EndsAt(d, p, cs, n) {
      k := n;
    } else {
      k := WhereItEnds(d, p, cs[..n]);
      EndsAtPrefix(d, p, cs, n, k);
    }
  }

  lemma {:induction false} ExitsWhenEnded(d: Device, p: Parser, cs: string)
    requires d.Valid() && p.reader.phase == WaitLine && p.runBootloader
    ensures !After(d, p, cs).runBootloader <==> EndsSomewhere(d, p, cs)
    decreases |cs|
  {
    if cs == [] {
    } else {
      var n := |cs| - 1;
      ExitsWhenEnded(d, p, cs[..n]);
      AlwaysTracks(d, p, cs[..n]);
      assert cs == cs[..n] + [cs[n]] && cs[..n + 1] == cs;
      AfterSnoc(d, p, cs[..n], cs[n]);
      StepTracks(d, After(d, p, cs[..n]), cs[..n], cs[n]);
    }
  }

  /** The bootloader is told to exit by exactly those streams that hold such a record. */
  lemma {:induction false} ExitsIff(d: Device, p: Parser, cs: string)
    requires d.Valid() && p.reader.phase == WaitLine && p.runBootloader
    ensures !After(d, p, cs).runBootloader <==> exists k :: 0 <= k < |cs| && EndsAt(d, p, cs, k)
  {
    ExitsWhenEnded(d, p, cs);
    if EndsSomewhere(d, p, cs) {
      var k := WhereItEnds(d, p, cs);
    }
    forall k | 0 <= k < |cs| && EndsAt(d, p, cs, k) ensures EndsSomewhere(d, p, cs) {
      EndsSomewhereAt(d, p, cs, k);
    }
  }

  /** From the start of the bootloader on: it runs until such a record comes. */
  lemma {:induction false} RunsUntilEnd(d: Device, cs: string)
    requires d.Valid()
    ensures INITIAL.runBootloader && INITIAL.reader.phase == WaitLine
    ensures After(d, INITIAL, cs).runBootloader <==> forall k :: 0 <= k < |cs| ==> !EndsAt(d, INITIAL, cs, k)
  {
    ExitsIff(d, INITIAL, cs);
  }
}
