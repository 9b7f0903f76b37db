/** What the host downloads is what it can upload again. */
module DfuRoundTrip {
  import opened Basics
  import opened Flash
  import opened FlashWords
  import opened DfuState
  import opened DfuDownload
  import opened DfuAlignment
  import opened DfuRequests

  /** A DNLOAD request with a command for a memory (`what`) and an address range. */
  predicate IsCommand(r: Request, code: byte, what: byte, startAddr: word, endAddr: word)
  {
    && r.kind == Dnload && WellFormed(r) && |r.packet| >= 6
    && r.packet[0] == code && r.packet[1] == what
    && WordOf(r.packet[2], r.packet[3]) == startAddr && WordOf(r.packet[4], r.packet[5]) == endAddr
  }

  lemma {:induction false} LoadedCommand(cmd: Command, r: Request, code: byte, what: byte, startAddr: word, endAddr: word)
    requires |cmd.data| == 5 && cmd.dataSize == r.wLength && IsCommand(r, code, what, startAddr, endAddr)
    ensures var l := LoadCommand(cmd, r.packet);
            && l.code == code && l.data[0] == what && l.dataSize == r.wLength - 6
            && WordOf(l.data[1], l.data[2]) == startAddr && WordOf(l.data[3], l.data[4]) == endAddr
  {
    var l := LoadCommand(cmd, r.packet);
    assert l.data == r.packet[1..6];
  }

  /** The state in which a DNLOAD command is processed. */
  function Commanded(s: Dfu, r: Request): (t: Dfu)
    requires |s.cmd.data| == 5 && WellFormed(r) && r.packet != []
  {
    var s := s.(cmd := s.cmd.(dataSize := r.wLength));
    s.(cmd := LoadCommand(s.cmd, r.packet))
  }

  lemma {:induction false} CommandHandled(c: Config, s: Dfu, r: Request, code: byte, what: byte, startAddr: word, endAddr: word)
    requires Valid(c, s) && IsCommand(r, code, what, startAddr, endAddr) && !s.waitForExit
    ensures Handle(c, s, r) == Receive(c, ProcessCommand(c, Commanded(s, r)), r.payload)
    ensures var t := LoadAddresses(Commanded(s, r)); t.startAddr == startAddr && t.endAddr == endAddr
  {
    LoadedCommand(s.cmd.(dataSize := r.wLength), r, code, what, startAddr, endAddr);
  }

  // ----- the flash

  /** The words of a payload: the low byte comes first. */
  lemma {:induction false} WordsAt(bytes: seq<byte>)
    ensures |WordsOf(bytes)| == |bytes| / 2
    ensures forall j: nat :: j < |bytes| / 2 ==> WordsOf(bytes)[j] == WordOf(bytes[2 * j + 1], bytes[2 * j])
    decreases |bytes|
  {
    if |bytes| < 2 {
    } else {
      WordsAt(bytes[2..]);
      forall j: nat | j < |bytes| / 2 ensures WordsOf(bytes)[j] == WordOf(bytes[2 * j + 1], bytes[2 * j]) {
        if j > 0 {
          NextWordAt(bytes, j);
        }
      }
    }
  }

  lemma {:induction false} NextWordAt(bytes: seq<byte>, j: nat)
    requires 0 < j < |bytes| / 2 && |WordsOf(bytes[2..])| == |bytes| / 2 - 1
    requires WordsOf(bytes[2..])[j - 1] == WordOf(bytes[2..][2 * (j - 1) + 1], bytes[2..][2 * (j - 1)])
    ensures |WordsOf(bytes)| == |bytes| / 2 && WordsOf(bytes)[j] == WordOf(bytes[2 * j + 1], bytes[2 * j])
  {
  }

  /** Flash that holds the first `n` words of a payload holds its bytes in their order. */
  lemma {:induction false} PayloadHeld(d: Device, f: State, n0: nat, payload: seq<byte>, n: nat)
    requires ValidState(d, f) && 2 * n <= |payload| && |WordsOf(payload)| == |payload| / 2
    requires Holds(d, f, n0, WordsOf(payload)[..n])
    ensures HoldsBytes(d, f, 2 * n0, payload[..2 * n])
  {
    forall k: nat | k < 2 * n ensures ByteAt(d, f, 2 * n0 + k) == payload[k] {
      PayloadByte(d, f, n0, payload, n, k);
    }
  }

  lemma {:induction false} PayloadByte(d: Device, f: State, n0: nat, payload: seq<byte>, n: nat, k: nat)
    requires ValidState(d, f) && k < 2 * n <= |payload| && |WordsOf(payload)| == |payload| / 2
    requires Holds(d, f, n0, WordsOf(payload)[..n])
    ensures ByteAt(d, f, 2 * n0 + k) == payload[k]
  {
    var j := k / 2;
    WordsAt(payload);
    ByteOfWord(d, f, n0, k);
    assert WordIn(d, f, n0 + j) == WordsOf(payload)[..n][j];
    WordHalves(payload[2 * j + 1], payload[2 * j]);
  }

  /** The words sent are the bytes in pairs, low byte first. */
  ghost predicate SendsBytes(out: seq<Output>, bytes: seq<byte>)
  {
    2 * |out| == |bytes| && forall j: nat :: j < |out| ==> out[j] == FlashWord(WordOf(bytes[2 * j + 1], bytes[2 * j]))
  }

  lemma {:induction false} PayloadSent(payload: seq<byte>, n: nat)
    requires 2 * n <= |payload| && |WordsOf(payload)| == |payload| / 2
    ensures SendsBytes(FlashOutput(WordsOf(payload)[..n]), payload[..2 * n])
  {
    WordsAt(payload);
  }

  /** A program command for the flash: the page of the first word is erased, and the firmware is awaited. */
  lemma {:induction false} ProgCommand(c: Config, s: Dfu, r: Request, startAddr: word, endAddr: word, n0: nat) returns (p: Dfu)
    requires Valid(c, s) && !s.isSecure && !s.waitForExit
    requires IsCommand(r, 0x01, 0x00, startAddr, endAddr) && r.wLength > 6 && 0x1_0000 * s.page64 + startAddr == 2 * n0
    ensures Valid(c, p) && Handle(c, s, r) == Receive(c, p, r.payload)
    ensures p.mode == DfuDnloadIdle && p.cmd.data[0] == 0x00 && p.cmd.dataSize != 0 && p.startAddr == startAddr && p.endAddr == endAddr
    ensures p == s.(cmd := p.cmd, mode := p.mode, startAddr := startAddr, endAddr := endAddr, flash := Apply(c.d, s.flash, Erase(2 * n0)))
  {
    LoadedCommand(s.cmd.(dataSize := r.wLength), r, 0x01, 0x00, startAddr, endAddr);
    CommandHandled(c, s, r, 0x01, 0x00, startAddr, endAddr);
    p := ProcessCommand(c, Commanded(s, r));
  }

  /** The firmware of a flash download, complete or not. */
  lemma {:induction false} FlashFirmware(c: Config, p: Dfu, payload: seq<byte>, n0: nat, n: nat, words: seq<word>)
    requires Valid(c, p) && p.mode == DfuDnloadIdle && p.cmd.data[0] == 0x00 && p.cmd.dataSize != 0
    requires 0x1_0000 * p.page64 + p.startAddr == 2 * n0 && n == ByteCount(p.startAddr, p.endAddr) / 2
    requires |words| <= n && words <= WordsOf(payload) && (|words| < n ==> words == WordsOf(payload))
    ensures Receive(c, p, payload)
            == p.(flash := ApplyAll(c.d, p.flash, ProgramOps(c.d, 2 * n0, 2 * n0, 0, n, words)),
                  startAddr := if |words| == n then p.endAddr else p.startAddr)
  {
    assert UpTo(WordsOf(payload), n) == words;
  }

  /** A download request for the flash, from word `n0` on. */
  lemma {:induction false} DownloadRequest(c: Config, s: Dfu, r: Request, startAddr: word, endAddr: word, n0: nat, n: nat)
    requires Valid(c, s) && !s.isSecure && !s.waitForExit
    requires IsCommand(r, 0x01, 0x00, startAddr, endAddr) && r.wLength > 6
    requires 0x1_0000 * s.page64 + startAddr == 2 * n0 && n == ByteCount(startAddr, endAddr) / 2 && 2 * n <= |r.payload|
    ensures var t := Handle(c, s, r);
            && |WordsOf(r.payload)| == |r.payload| / 2
            && t.flash == Downloaded(c.d, s.flash, n0, WordsOf(r.payload)[..n]) && t.eeprom == s.eeprom
            && !t.isSecure && !t.waitForExit && t.page64 == s.page64
            && t.mode == DfuDnloadIdle && t.startAddr == t.endAddr == endAddr
  {
    WordsAt(r.payload);
    var p := ProgCommand(c, s, r, startAddr, endAddr, n0);
    FlashFirmware(c, p, r.payload, n0, n, WordsOf(r.payload)[..n]);
  }

  lemma {:induction false} ReadBack(d: Device, f: State, n0: nat, words: seq<word>)
    requires ValidState(d, f) && Holds(d, f, n0, words)
    ensures ReadWords(d, f, 2 * n0, |words|) == words
    decreases |words|
  {
    if words == [] {
    } else {
      assert WordIn(d, f, n0 + 0) == words[0];
      forall k | 0 <= k < |words[1..]| ensures WordIn(d, f, n0 + 1 + k) == words[1..][k] {
        assert WordIn(d, f, n0 + (k + 1)) == words[k + 1];
      }
      ReadBack(d, f, n0 + 1, words[1..]);
      assert 2 * n0 + 2 == 2 * (n0 + 1);
    }
  }

  /** A read command and an upload send what the flash holds on the range. */
  lemma {:induction false} UploadRequest(
      c: Config, s: Dfu, read: Request, up: Request, startAddr: word, endAddr: word, n0: nat, words: seq<word>)
    requires Valid(c, s) && !s.isSecure && !s.waitForExit
    requires IsCommand(read, 0x03, 0x00, startAddr, endAddr) && up.kind == Upload && up.host == Stays
    requires 0x1_0000 * s.page64 + startAddr == 2 * n0 && |words| == ByteCount(startAddr, endAddr) / 2
    requires Holds(c.d, s.flash, n0, words)
    ensures Sent(c, Handle(c, s, read), up) == FlashOutput(words)
    ensures WellFormed(up) ==> Handle(c, Handle(c, s, read), up).flash == s.flash
  {
    LoadedCommand(s.cmd.(dataSize := read.wLength), read, 0x03, 0x00, startAddr, endAddr);
    CommandHandled(c, s, read, 0x03, 0x00, startAddr, endAddr);
    ReadBack(c.d, s.flash, n0, words);
  }

  /** The words of a download that keeps to its pages come back with a read command and an upload. */
  lemma {:induction false} FlashRoundTrip(
      c: Config, s: Dfu, prog: Request, read: Request, up: Request, startAddr: word, endAddr: word, n0: nat, n: nat)
    requires Valid(c, s) && !s.isSecure && !s.waitForExit && s.flash.buffer == BlankPage(c.d) && c.d.pageWords <= 0xFF
    requires IsCommand(prog, 0x01, 0x00, startAddr, endAddr) && prog.wLength > 6
    requires IsCommand(read, 0x03, 0x00, startAddr, endAddr) && up.kind == Upload && up.host == Stays
    requires 0x1_0000 * s.page64 + startAddr == 2 * n0 && n == ByteCount(startAddr, endAddr) / 2 && 2 * n <= |prog.payload|
    requires n > 0 ==> Exists(c.d, n0 + n - 1) && KeepsToPages(c.d, n0, n)
    ensures HoldsBytes(c.d, Handle(c, s, prog).flash, 2 * n0, prog.payload[..2 * n])
    ensures SendsBytes(Sent(c, Handle(c, Handle(c, s, prog), read), up), prog.payload[..2 * n])
    ensures WellFormed(up) ==> Handle(c, Handle(c, Handle(c, s, prog), read), up).flash == Handle(c, s, prog).flash
    ensures n > 0 ==> |WordsOf(prog.payload)| >= n && Loaded(c.d, s.flash, Handle(c, s, prog).flash, n0, WordsOf(prog.payload)[..n])
  {
    WordsAt(prog.payload);
    var words := WordsOf(prog.payload)[..n];
    DownloadRequest(c, s, prog, startAddr, endAddr, n0, n);
    if n > 0 {
      AlignedHeld(c.d, s.flash, n0, words);
      AlignedLoaded(c.d, s.flash, n0, words);
    }
    var t := Handle(c, s, prog);
    UploadRequest(c, t, read, up, startAddr, endAddr, n0, words);
    PayloadHeld(c.d, t.flash, n0, prog.payload, n);
    PayloadSent(prog.payload, n);
  }

  // ----- the EEPROM

  /** How far `x` is behind `a`, going up and around. */
  function Distance16(a: word, x: word): (n: word)
  {
    if a <= x then x - a else x - a + 0x1_0000
  }

  lemma {:induction false} WrittenByte(e: seq<byte>, a: word, bytes: seq<byte>, x: word)
    requires |e| == 0x1_0000 && |bytes| < 0x1_0000
    ensures WriteEeprom(e, a, bytes)[x] == if Distance16(a, x) < |bytes| then bytes[Distance16(a, x)] else e[x]
    decreases |bytes|
  {
    if bytes == [] {
    } else {
      WrittenByte(e[a := bytes[0]], Advance16(a, 1), bytes[1..], x);
    }
  }

  ghost predicate EepromHolds(e: seq<byte>, a: word, bytes: seq<byte>)
    requires |e| == 0x1_0000 && |bytes| < 0x1_0000
  {
    forall k: nat :: k < |bytes| ==> e[Advance16(a, k)] == bytes[k]
  }

  lemma {:induction false} ReadBytes(e: seq<byte>, a: word, bytes: seq<byte>)
    requires |e| == 0x1_0000 && |bytes| < 0x1_0000 && EepromHolds(e, a, bytes)
    ensures ReadEeprom(e, a, |bytes|) == bytes
    decreases |bytes|
  {
    if bytes == [] {
    } else {
      assert e[Advance16(a, 0)] == bytes[0];
      forall k: nat | k < |bytes[1..]| ensures e[Advance16(Advance16(a, 1), k)] == bytes[1..][k] {
        assert e[Advance16(a, k + 1)] == bytes[k + 1];
      }
      ReadBytes(e, Advance16(a, 1), bytes[1..]);
    }
  }

  /** Bytes written to the EEPROM read back, even around the end of the address space. */
  lemma {:induction false} EepromReadBack(e: seq<byte>, a: word, bytes: seq<byte>)
    requires |e| == 0x1_0000 && |bytes| < 0x1_0000
    ensures ReadEeprom(WriteEeprom(e, a, bytes), a, |bytes|) == bytes
  {
    forall k: nat | k < |bytes| ensures WriteEeprom(e, a, bytes)[Advance16(a, k)] == bytes[k] {
      WrittenByte(e, a, bytes, Advance16(a, k));
    }
    ReadBytes(WriteEeprom(e, a, bytes), a, bytes);
  }

  lemma {:induction false} EepromDownload(c: Config, s: Dfu, r: Request, startAddr: word, endAddr: word, n: nat)
    requires Valid(c, s) && !s.isSecure && !s.waitForExit
    requires IsCommand(r, 0x01, 0x01, startAddr, endAddr) && r.wLength > 6 && n == ByteCount(startAddr, endAddr)
    ensures var t := Handle(c, s, r);
            var bytes := if |r.payload| <= n then r.payload else r.payload[..n];
            && t.eeprom == WriteEeprom(s.eeprom, startAddr, bytes) && t.flash == s.flash
            && !t.isSecure && !t.waitForExit && t.mode == DfuDnloadIdle && t.endAddr == endAddr
            && t.startAddr == (startAddr + |bytes|) % 0x1_0000
  {
    LoadedCommand(s.cmd.(dataSize := r.wLength), r, 0x01, 0x01, startAddr, endAddr);
    CommandHandled(c, s, r, 0x01, 0x01, startAddr, endAddr);
    AdvanceWraps(startAddr, if |r.payload| <= n then |r.payload| else n);
  }

  lemma AdvanceWraps(a: word, n: word)
    ensures Advance16(a, n) == (a + n) % 0x1_0000
  {
  }

  lemma {:induction false} EepromUpload(c: Config, s: Dfu, read: Request, up: Request, startAddr: word, endAddr: word)
    requires Valid(c, s) && !s.isSecure && !s.waitForExit
    requires IsCommand(read, 0x03, 0x02, startAddr, endAddr) && up.kind == Upload && up.host == Stays
    ensures Sent(c, Handle(c, s, read), up)
            == EepromOutput(ReadEeprom(s.eeprom, startAddr, ByteCount(startAddr, endAddr)))
  {
    LoadedCommand(s.cmd.(dataSize := read.wLength), read, 0x03, 0x02, startAddr, endAddr);
    CommandHandled(c, s, read, 0x03, 0x02, startAddr, endAddr);
  }

  /** The bytes of an EEPROM download come back with a read command and an upload; the flash is not touched. */
  lemma {:induction false} EepromRoundTrip(
      c: Config, s: Dfu, prog: Request, read: Request, up: Request, startAddr: word, endAddr: word, n: nat)
    requires Valid(c, s) && !s.isSecure && !s.waitForExit
    requires IsCommand(prog, 0x01, 0x01, startAddr, endAddr) && prog.wLength > 6
    requires IsCommand(read, 0x03, 0x02, startAddr, endAddr) && up.kind == Upload && up.host == Stays
    requires n == ByteCount(startAddr, endAddr) <= |prog.payload|
    ensures Sent(c, Handle(c, Handle(c, s, prog), read), up) == EepromOutput(prog.payload[..n])
    ensures Handle(c, s, prog).flash == s.flash
  {
    EepromDownload(c, s, prog, startAddr, endAddr, n);
    assert |prog.payload| <= n ==> prog.payload[..n] == prog.payload;
    EepromUpload(c, Handle(c, s, prog), read, up, startAddr, endAddr);
    EepromReadBack(s.eeprom, startAddr, prog.payload[..n]);
  }

  // ----- uploads that the host leaves

  lemma {:induction false} ReadInParts(e: seq<byte>, a: word, k: nat, m: nat)
    requires |e| == 0x1_0000 && k + m < 0x1_0000
    ensures ReadEeprom(e, a, k + m) == ReadEeprom(e, a, k) + ReadEeprom(e, Advance16(a, k), m)
    ensures |ReadEeprom(e, a, k)| == k
    decreases k
  {
    if k == 0 {
      assert Advance16(a, 0) == a;
    } else {
      var b := Advance16(a, 1);
      assert Advance16(b, k - 1) == Advance16(a, k);
      ReadFirst(e, a, k);
      ReadFirst(e, a, k + m);
      ReadInParts(e, b, k - 1, m);
      Regroup([e[a]], ReadEeprom(e, b, k - 1), ReadEeprom(e, Advance16(a, k), m));
    }
  }

  lemma {:induction false} OutputInParts(a: seq<byte>, b: seq<byte>)
    ensures EepromOutput(a + b) == EepromOutput(a) + EepromOutput(b)
  {
  }

  lemma RestOfRange(a: word, b: word, k: word)
    requires k < ByteCount(a, b)
    ensures ByteCount(Advance16(a, k), b) == ByteCount(a, b) - k
    ensures Advance16(a, ByteCount(a, b)) == Advance16(Advance16(a, k), ByteCount(a, b) - k) == (b + 1) % 0x1_0000
  {
  }

  lemma {:induction false} EepromUploadLeft(c: Config, s: Dfu, r: Request, k: nat, n: nat)
    requires Valid(c, s) && s.mode == DfuUploadIdle && s.cmd.data[0] == 0x02 && n == ByteCount(s.startAddr, s.endAddr) && k < n
    requires r.kind == Upload && r.host == Leaves(k) && WellFormed(r)
    ensures Sent(c, s, r) == EepromOutput(ReadEeprom(s.eeprom, s.startAddr, k))
    ensures Handle(c, s, r) == s.(startAddr := Advance16(s.startAddr, k), cmd := s.cmd.(dataSize := r.wLength))
  {
  }

  lemma {:induction false} EepromUploadDone(c: Config, s: Dfu, r: Request, n: nat)
    requires Valid(c, s) && s.mode == DfuUploadIdle && s.cmd.data[0] == 0x02 && n == ByteCount(s.startAddr, s.endAddr)
    requires r.kind == Upload && r.host == Stays && WellFormed(r)
    ensures Sent(c, s, r) == EepromOutput(ReadEeprom(s.eeprom, s.startAddr, n))
    ensures Handle(c, s, r) == s.(startAddr := Advance16(s.startAddr, n), mode := DfuIdle, cmd := s.cmd.(dataSize := r.wLength))
  {
  }

  /** An EEPROM upload that the host leaves after `k` bytes goes on there with the next one. */
  lemma {:induction false} EepromUploadResumes(c: Config, s: Dfu, first: Request, second: Request, k: nat, n: nat)
    requires Valid(c, s) && s.mode == DfuUploadIdle && s.cmd.data[0] == 0x02 && n == ByteCount(s.startAddr, s.endAddr) && k < n
    requires first.kind == second.kind == Upload && first.host == Leaves(k) && second.host == Stays
    requires WellFormed(first) && WellFormed(second)
    ensures var t := Handle(c, s, first);
            var u := Handle(c, t, second);
            && |Sent(c, s, first)| == k
            && Sent(c, s, first) + Sent(c, t, second) == EepromOutput(ReadEeprom(s.eeprom, s.startAddr, n))
            && t == s.(startAddr := t.startAddr, cmd := t.cmd)
            && u == s.(startAddr := (s.endAddr + 1) % 0x1_0000, cmd := u.cmd, mode := DfuIdle)
  {
    RestOfRange(s.startAddr, s.endAddr, k);
    EepromUploadLeft(c, s, first, k, n);
    EepromUploadDone(c, Handle(c, s, first), second, n - k);
    ReadInParts(s.eeprom, s.startAddr, k, n - k);
    OutputInParts(ReadEeprom(s.eeprom, s.startAddr, k), ReadEeprom(s.eeprom, Advance16(s.startAddr, k), n - k));
  }

  lemma {:induction false} FirstWords(d: Device, f: State, a: nat, k: nat, n: nat)
    requires ValidState(d, f) && k <= n
    ensures |ReadWords(d, f, a, n)| == n && ReadWords(d, f, a, k) == ReadWords(d, f, a, n)[..k]
    decreases n
  {
    if k == 0 {
      if n > 0 {
        FirstWords(d, f, a + 2, 0, n - 1);
      }
    } else {
      FirstWords(d, f, a + 2, k - 1, n - 1);
    }
  }

  /** A flash upload that the host leaves starts again with the next one. */
  lemma {:induction false} FlashUploadRepeats(c: Config, s: Dfu, first: Request, second: Request, k: nat, n: nat)
    requires Valid(c, s) && s.mode == DfuUploadIdle && s.cmd.data[0] == 0x00 && n == ByteCount(s.startAddr, s.endAddr) / 2 && k < n
    requires first.kind == second.kind == Upload && first.host == Leaves(k) && second.host == Stays
    requires WellFormed(first) && WellFormed(second)
    ensures var t := Handle(c, s, first);
            var u := Handle(c, t, second);
            && |Sent(c, t, second)| == n && Sent(c, s, first) == Sent(c, t, second)[..k]
            && t == s.(cmd := t.cmd) && u == s.(startAddr := s.endAddr, cmd := u.cmd, mode := DfuIdle)
  {
    FirstWords(c.d, s.flash, Long(s.page64, s.startAddr), k, n);
  }
}
