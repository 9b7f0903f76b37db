/** The streaming Intel HEX parser of BootloaderPrinter.c, one character at a time. */
module HexParser {
  import opened Flash

  type uint32 = x: int | 0 <= x < 0x1_0000_0000

  datatype Phase = WaitLine | ByteCount | AddressHigh | AddressLow | TypeByte | ReadData | Checksum

  /** The fields of the HEXParser struct that read the line. */
  datatype Reader = Reader(
    phase: Phase, prevData: byte, data: byte, readMSB: bool, recordType: byte, dataRem: byte, checksum: byte)

  /** The fields that say where the data goes, with the PageDirty flag. */
  datatype Target = Target(pageStart: uint32, base: uint32, address: uint32, pageDirty: bool)

  datatype Parser = Parser(reader: Reader, target: Target, runBootloader: bool)

  const DATA_RECORD: byte := 0
  const END_OF_FILE: byte := 1
  const SEGMENT_ADDRESS: byte := 2
  const LINEAR_ADDRESS: byte := 4

  /** All fields zero, as C leaves them, and the bootloader meant to run. */
  const INITIAL := Parser(Reader(WaitLine, 0, 0, false, 0, 0, 0), Target(0, 0, 0, false), true)

  /** An upper-case hexadecimal digit. */
  predicate IsDigit(c: char)
  {
    '0' <= c <= '9' || 'A' <= c <= 'F'
  }

  /** The value of a digit, or -1 for any other character. */
  function HexToDecimal(c: char): (v: int)
    ensures -1 <= v < 16 && (v >= 0 <==> IsDigit(c))
  {
    if 'A' <= c <= 'F' then 10 + (c as int - 'A' as int)
    else if '0' <= c <= '9' then c as int - '0' as int
    else -1
  }

  /** A sum of two 32-bit numbers, as 32 bits hold it. */
  function Wrap32(x: nat): (r: uint32)
    requires x < 0x2_0000_0000
  {
    if x < 0x1_0000_0000 then x else x - 0x1_0000_0000
  }

  /** A sum of two bytes, as 8 bits hold it. */
  function Add8(a: byte, b: byte): (r: byte)
  {
    if a + b < 0x100 then a + b else a + b - 0x100
  }

  /** (~a + 1) & 0xFF. */
  function Negated(a: byte): (r: byte)
  {
    if a == 0 then 0 else 0x100 - a
  }

  // ----- FlushPageIfRequired and the data word

  predicate FlushRequired(d: Device, t: Target)
    requires d.Valid()
  {
    t.pageDirty && t.pageStart != PageStart(d, t.address)
  }

  function Flush(d: Device, t: Target): (r: Target)
    requires d.Valid()
  {
    if FlushRequired(d, t) then t.(pageStart := PageStart(d, t.address), pageDirty := false) else t
  }

  function FlushOps(d: Device, t: Target): (ops: seq<Op>)
    requires d.Valid()
  {
    if FlushRequired(d, t) then [Write(t.pageStart)] else []
  }

  /** The target with a data word put in, before the flush. */
  function Filled(t: Target): (r: Target)
  {
    t.(pageDirty := true, address := Wrap32(t.address + 2))
  }

  function StoreWord(d: Device, t: Target): (r: Target)
    requires d.Valid()
  {
    Flush(d, Filled(t))
  }

  function StoreOps(d: Device, t: Target, word: word): (ops: seq<Op>)
    requires d.Valid()
  {
    (if t.pageDirty then [] else [Erase(t.pageStart)]) + [Fill(t.address, word)] + FlushOps(d, Filled(t))
  }

  // ----- the switch on a complete byte, which stands in `data`

  predicate Protected(d: Device, t: Target)
  {
    t.address >= d.bootStart
  }

  /** DataRem after it has been decremented. */
  function Remaining(s: Reader): (n: byte)
  {
    if s.dataRem == 0 then 0xFF else s.dataRem - 1
  }

  predicate ChecksumGood(s: Reader)
  {
    s.data == Negated(s.checksum)
  }

  function DataReader(s: Reader, protect: bool): (r: Reader)
  {
    var n := Remaining(s);
    if protect then s.(dataRem := n, phase := WaitLine)
    else if n % 2 == 1 then s.(dataRem := n, prevData := s.data)
    else if n == 0 then s.(dataRem := n, phase := Checksum)
    else s.(dataRem := n)
  }

  function NextReader(s: Reader, protect: bool): (r: Reader)
  {
    var sum := Add8(s.checksum, s.data);
    match s.phase
    case WaitLine => s
    case ByteCount => s.(checksum := sum, dataRem := s.data, phase := AddressHigh)
    case AddressHigh => s.(checksum := sum, phase := AddressLow)
    case AddressLow => s.(checksum := sum, phase := TypeByte)
    case TypeByte => s.(checksum := sum, recordType := s.data, phase := if s.dataRem != 0 then ReadData else Checksum)
    case ReadData => DataReader(s.(checksum := sum), protect)
    case Checksum => s
  }

  /** Where a complete data word of the record goes. */
  function NextData(d: Device, s: Reader, t: Target): (r: Target)
    requires d.Valid()
  {
    var word := WordOf(s.data, s.prevData);
    if s.recordType == DATA_RECORD then StoreWord(d, t)
    else if s.recordType == SEGMENT_ADDRESS then t.(base := word * 0x10)
    else if s.recordType == LINEAR_ADDRESS then t.(base := word * 0x1_0000)
    else t
  }

  function NextTarget(d: Device, s: Reader, t: Target): (r: Target)
    requires d.Valid()
  {
    match s.phase
    case AddressHigh => t.(address := Wrap32(t.address + 0x100 * s.data))
    case AddressLow => t.(address := Wrap32(t.address + s.data))
    case ReadData =>
      if Protected(d, t) then t.(pageDirty := false)
      else if Remaining(s) % 2 == 1 then t
      else NextData(d, s, t)
    case Checksum => if ChecksumGood(s) then Flush(d, t) else t
    case _ => t
  }

  function ByteOps(d: Device, s: Reader, t: Target): (ops: seq<Op>)
    requires d.Valid()
  {
    if s.phase == ReadData && !Protected(d, t) && Remaining(s) % 2 == 0 && s.recordType == DATA_RECORD then
      StoreOps(d, t, WordOf(s.data, s.prevData))
    else if s.phase == Checksum && ChecksumGood(s) then FlushOps(d, t)
    else []
  }

  /** The state after a complete byte. */
  function Process(d: Device, p: Parser): (r: Parser)
    requires d.Valid()
  {
    var s, t := p.reader, p.target;
    Parser(NextReader(s, Protected(d, t)), NextTarget(d, s, t),
           p.runBootloader && !(s.phase == Checksum && ChecksumGood(s) && s.recordType == END_OF_FILE))
  }

  // ----- ParseIntelHEXByte

  /** (b << 4) | digit, in 8 bits. */
  function Pair(b: byte, digit: byte): (r: byte)
    requires digit < 16
  {
    b % 16 * 16 + digit
  }

  /** A digit read into the data byte. */
  function Shift(s: Reader, c: char): (r: Reader)
    requires HexToDecimal(c) >= 0
  {
    s.(data := Pair(s.data, HexToDecimal(c)), readMSB := !s.readMSB)
  }

  predicate Restarts(p: Parser, c: char)
  {
    p.reader.phase == WaitLine || c == ':'
  }

  function Step(d: Device, p: Parser, c: char): (r: Parser)
    requires d.Valid()
  {
    var s, t := p.reader, p.target;
    if Restarts(p, c) then
      p.(reader := s.(checksum := 0, readMSB := false, phase := if c == ':' then ByteCount else s.phase),
         target := t.(address := t.base))
    else if HexToDecimal(c) < 0 then p
    else if Shift(s, c).readMSB then p.(reader := Shift(s, c))
    else Process(d, p.(reader := Shift(s, c)))
  }

  function StepOps(d: Device, p: Parser, c: char): (ops: seq<Op>)
    requires d.Valid()
  {
    if Restarts(p, c) || HexToDecimal(c) < 0 || Shift(p.reader, c).readMSB then []
    else ByteOps(d, Shift(p.reader, c), p.target)
  }

  /** The state after the characters `cs`. */
  function After(d: Device, p: Parser, cs: string): (r: Parser)
    requires d.Valid()
    decreases |cs|
  {
    if cs == [] then p else After(d, Step(d, p, cs[0]), cs[1..])
  }

  /** The flash operations done on the characters `cs`. */
  function Ops(d: Device, p: Parser, cs: string): (ops: seq<Op>)
    requires d.Valid()
    decreases |cs|
  {
    if cs == [] then [] else StepOps(d, p, cs[0]) + Ops(d, Step(d, p, cs[0]), cs[1..])
  }

  lemma {:induction false} RunConcat(d: Device, p: Parser, a: string, b: string)
    requires d.Valid()
    ensures After(d, p, a + b) == After(d, After(d, p, a), b)
    ensures Ops(d, p, a + b) == Ops(d, p, a) + Ops(d, After(d, p, a), b)
    decreases |a|
  {
    if a == [] {
      assert a + b == b;
    } else {
      assert (a + b)[0] == a[0] && (a + b)[1..] == a[1..] + b;
      RunConcat(d, Step(d, p, a[0]), a[1..], b);
    }
  }

  lemma {:induction false} AfterSnoc(d: Device, p: Parser, cs: string, c: char)
    requires d.Valid()
    ensures After(d, p, cs + [c]) == Step(d, After(d, p, cs), c)
  {
    RunConcat(d, p, cs, [c]);
    assert [c][1..] == [];
  }

  // ----- characters that mean nothing

  /** Neither a colon nor an upper-case hexadecimal digit. */
  predicate IsNoise(c: char)
  {
    c != ':' && !('0' <= c <= '9') && !('A' <= c <= 'F')
  }

  function Denoise(cs: string): (r: string)
  {
    if cs == [] then [] else if IsNoise(cs[0]) then Denoise(cs[1..]) else [cs[0]] + Denoise(cs[1..])
  }

  /** Equal, except that the checksum, the nibble flag and the address of a waiting parser are dead. */
  ghost predicate Alike(p: Parser, q: Parser)
  {
    q == p
    || (p.reader.phase == WaitLine
        && q.reader == p.reader.(checksum := q.reader.checksum, readMSB := q.reader.readMSB)
        && q.target == p.target.(address := q.target.address)
        && q.runBootloader == p.runBootloader)
  }

  lemma AlikeStep(d: Device, p: Parser, q: Parser, c: char)
    requires d.Valid() && Alike(p, q)
    ensures Alike(Step(d, p, c), Step(d, q, c)) && StepOps(d, p, c) == StepOps(d, q, c)
  {
  }

  /** Leaving the noise out of a stream changes neither the flash operations nor the run flag. */
  lemma {:induction false} NoiseTransparent(d: Device, p: Parser, q: Parser, cs: string)
    requires d.Valid() && Alike(p, q)
    ensures Ops(d, p, cs) == Ops(d, q, Denoise(cs))
    ensures Alike(After(d, p, cs), After(d, q, Denoise(cs)))
    decreases |cs|
  {
    if cs == [] {
    } else {
      var p' := Step(d, p, cs[0]);
      if IsNoise(cs[0]) {
        NoiseTransparent(d, p', q, cs[1..]);
      } else {
        AlikeStep(d, p, q, cs[0]);
        NoiseTransparent(d, p', Step(d, q, cs[0]), cs[1..]);
        assert ([cs[0]] + Denoise(cs[1..]))[1..] == Denoise(cs[1..]);
      }
    }
  }
}
