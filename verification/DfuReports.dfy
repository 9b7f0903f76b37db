/** What the host is told: version and signature bytes, the blank check, status and state, and the 64 KB page. */
module DfuReports {
  import opened Flash
  import opened FlashWords
  import opened DfuState
  import opened DfuRequests
  import opened DfuDownload
  import opened DfuErase
  import opened DfuSecure
  import opened DfuRoundTrip
  import opened DfuInterrupted
  import opened DfuStart

  /** A DNLOAD request that is only a command, with no data behind it. */
  predicate IsBare(r: Request, code: byte)
  {
    r.kind == Dnload && WellFormed(r) && r.packet != [] && r.packet[0] == code && r.wLength == BytesRead(r)
  }

  /** An UPLOAD request whose answer the host takes. */
  predicate IsUpload(r: Request)
  {
    r.kind == Upload && WellFormed(r) && r.host != Leaves(0)
  }

  /** The mode in which a download that has nothing more to come leaves the bootloader. */
  function Settled(m: Mode): (r: Mode)
  {
    if m == DfuDnloadIdle then DfuIdle else m
  }

  /** The state in which a bare command is processed, and what is left to do after it. */
  lemma {:induction false} BareCommand(c: Config, s: Dfu, r: Request, code: byte) returns (u: Dfu)
    requires Valid(c, s) && Sound(s) && IsBare(r, code)
    ensures Valid(c, u) && u.cmd.code == code && u.cmd.dataSize == 0
    ensures forall i: nat :: i < 5 ==> u.cmd.data[i] == Parameter(s, r, i)
    ensures u == s.(cmd := u.cmd, runBootloader := u.runBootloader, bootKey := u.bootKey, appStart := u.appStart, waitForExit := false)
    ensures var t := ProcessCommand(c, u); Handle(c, s, r) == t.(mode := Settled(t.mode))
  {
    var t := PendingStart(c, s, r);
    PacketLoaded(s, t.cmd, r);
    u := t.(cmd := LoadCommand(t.cmd, r.packet));
    if s.waitForExit {
      StartCommand(c, s.(cmd := s.cmd.(dataSize := r.wLength)));
    }
    CommandKept(c, u);
  }

  // ----- the read command

  /** The byte that the read command asks for: 0x20, 0xDC and 0xFB, or 0x58 and the signature. */
  ghost predicate IsInfo(c: Config, what: byte, i: byte, b: byte)
    requires |c.signature| == 3
  {
    || (what == 0x00 && ((i == 0 && b == 0x20) || (i == 1 && b == 0xDC) || (i == 2 && b == 0xFB)))
    || (what == 0x01
        && ((i == 0x30 && b == 0x58) || (i == 0x31 && b == c.signature[0])
            || (i == 0x60 && b == c.signature[1]) || (i == 0x61 && b == c.signature[2])))
  }

  /** There is such a byte. */
  predicate HasInfo(what: byte, i: byte)
  {
    (what == 0x00 && i <= 2) || (what == 0x01 && (i == 0x30 || i == 0x31 || i == 0x60 || i == 0x61))
  }

  /** In secure mode or not: the byte is noted, or a wrong index reported; nothing else of the answer changes. */
  lemma {:induction false} InfoRequest(c: Config, s: Dfu, r: Request)
    requires Valid(c, s) && Sound(s) && IsBare(r, 0x05)
    ensures var t := Handle(c, s, r);
            var what, i := Parameter(s, r, 0), Parameter(s, r, 1);
            && t.cmd.data[0] == what && t.startAddr == s.startAddr && t.flash == s.flash && t.eeprom == s.eeprom && t.isSecure == s.isSecure
            && (HasInfo(what, i) ==> IsInfo(c, what, i, t.response) && t.mode == Settled(s.mode) && t.status == s.status)
            && (!HasInfo(what, i) ==> t.response == s.response)
            && (!HasInfo(what, i) && what <= 0x01 ==> t.mode == DfuError && t.status == ErrAddress)
            && (what > 0x01 ==> t.mode == Settled(s.mode) && t.status == s.status)
  {
    var u := BareCommand(c, s, r, 0x05);
  }

  /**
   The host gets the byte with the next upload unless a memory read is pending. A signature byte it also does not get in the
   error state, in which the second kind of read command is taken for the blank check, and an address is sent.
   */
  lemma {:induction false} InfoSentIff(c: Config, s: Dfu, r: Request, up: Request)
    requires Valid(c, s) && Sound(s) && IsBare(r, 0x05) && IsUpload(up) && HasInfo(Parameter(s, r, 0), Parameter(s, r, 1))
    ensures var out := Sent(c, Handle(c, s, r), up);
            var what, i := Parameter(s, r, 0), Parameter(s, r, 1);
            && ((|out| == 1 && out[0].ResponseByte? && IsInfo(c, what, i, out[0].b))
                <==> s.mode != DfuUploadIdle && !(s.mode == DfuError && what == 0x01))
            && (s.mode == DfuError && what == 0x01 ==> out == [NonBlankAddress(s.startAddr)])
  {
    InfoRequest(c, s, r);
  }

  /** Any other upload: nothing changes if no memory read is pending or the host is gone, and a read of no memory just ends. */
  lemma {:induction false} OtherUpload(c: Config, s: Dfu, r: Request)
    requires Valid(c, s) && r.kind == Upload && WellFormed(r)
    ensures var t := Handle(c, s, r);
            && (r.host == Leaves(0) || s.mode != DfuUploadIdle ==> t == s.(cmd := t.cmd))
            && (r.host == Leaves(0) ==> Sent(c, s, r) == [])
            && (r.host != Leaves(0) && s.mode == DfuUploadIdle && s.cmd.data[0] != 0x00 && s.cmd.data[0] != 0x02 ==>
                  Sent(c, s, r) == [] && t == s.(cmd := t.cmd, mode := DfuIdle))
            && t.cmd == s.cmd.(dataSize := r.wLength)
  {
  }

  // ----- the blank check

  /** The address that an upload sends after a blank check that failed. */
  lemma {:induction false} BlankAddressSent(c: Config, s: Dfu, r: Request, up: Request) returns (a: nat)
    requires Valid(c, s) && Sound(s) && !s.isSecure && c.d.bootStart <= 0x100_0000
    requires IsBare(r, 0x03) && Parameter(s, r, 0) == 0x01 && IsUpload(up) && !SectionBlank(c.d, s.flash)
    ensures a < c.d.bootStart && ByteAt(c.d, s.flash, a) != 0xFF && (forall x: nat :: x < a ==> ByteAt(c.d, s.flash, x) == 0xFF)
    ensures var t := Handle(c, s, r);
            && t.mode == DfuError && t.status == ErrCheckErased && t.flash == s.flash
            && 0x1_0000 * t.page64 + t.startAddr == a && Sent(c, t, up) == [NonBlankAddress(t.startAddr)]
  {
    var u := BareCommand(c, s, r, 0x03);
    BlankCheckReports(c, u);
    a := Long(MemRead(c, u).page64, MemRead(c, u).startAddr);
  }

  // ----- the 64 KB page

  /** The page command sets the upper part of all flash addresses, unless the bootloader is secure. */
  lemma {:induction false} PageRequest(c: Config, s: Dfu, r: Request)
    requires Valid(c, s) && Sound(s) && IsBare(r, 0x06) && Parameter(s, r, 0) == 0x03 && Parameter(s, r, 1) == 0x00
    ensures var t := Handle(c, s, r);
            && t.flash == s.flash && t.eeprom == s.eeprom && t.isSecure == s.isSecure && !t.waitForExit
            && (!s.isSecure ==> t.page64 == Parameter(s, r, 2) && t.mode == Settled(s.mode) && t.status == s.status)
            && (s.isSecure ==> t.page64 == s.page64 && t.mode == DfuError && t.status == ErrWrite)
  {
    var u := BareCommand(c, s, r, 0x06);
  }

  /** The page command, a read command and an upload send the words of that page. */
  lemma {:induction false} PageThenRead(
      c: Config, s: Dfu, page: Request, read: Request, up: Request, startAddr: word, endAddr: word, n0: nat, words: seq<word>)
    requires Valid(c, s) && Sound(s) && !s.isSecure
    requires IsBare(page, 0x06) && Parameter(s, page, 0) == 0x03 && Parameter(s, page, 1) == 0x00
    requires IsCommand(read, 0x03, 0x00, startAddr, endAddr) && up.kind == Upload && up.host == Stays
    requires 0x1_0000 * Parameter(s, page, 2) + startAddr == 2 * n0 && |words| == ByteCount(startAddr, endAddr) / 2
    requires Holds(c.d, s.flash, n0, words)
    ensures Sent(c, Handle(c, Handle(c, s, page), read), up) == FlashOutput(words)
  {
    PageRequest(c, s, page);
    UploadRequest(c, Handle(c, s, page), read, up, startAddr, endAddr, n0, words);
  }

  // ----- status and state

  /** In secure mode every command but the erase and the read command is refused, and GETSTATUS says so. */
  lemma {:induction false} Refused(c: Config, s: Dfu, r: Request, get: Request)
    requires Valid(c, s) && Locked(s) && r.kind == Dnload && WellFormed(r) && r.packet != [] && r.packet[0] != 0x05
    requires !(r.packet[0] == 0x04 && Parameter(s, r, 0) == 0x00 && Parameter(s, r, 1) == 0xFF)
    requires get.kind == GetStatus && get.host != Leaves(0)
    ensures Sent(c, Handle(c, s, r), get) == [StatusReport(ErrWrite, DfuError)]
  {
    var t := PendingStart(c, s, r);
    PacketLoaded(s, t.cmd, r);
  }

  /** CLRSTATUS and ABORT put status and state back, in either order, and change nothing else. */
  lemma {:induction false} Recovery(c: Config, s: Dfu, clear: Request, abort: Request, get: Request, ask: Request)
    requires Valid(c, s) && WellFormed(clear) && WellFormed(abort) && clear.kind == ClrStatus && abort.kind == Abort
    requires get.kind == GetStatus && get.host != Leaves(0) && ask.kind == GetState && ask.host != Leaves(0)
    ensures var t := Handle(c, Handle(c, s, clear), abort);
            var u := Handle(c, Handle(c, s, abort), clear);
            && Sent(c, t, get) == Sent(c, u, get) == [StatusReport(Ok, DfuIdle)]
            && Sent(c, t, ask) == Sent(c, u, ask) == [StateReport(DfuIdle)]
            && t == s.(status := Ok, mode := DfuIdle, cmd := t.cmd) && t.cmd == s.cmd.(dataSize := abort.wLength)
            && u == t.(cmd := u.cmd)
    ensures Sent(c, Handle(c, s, clear), get) == [StatusReport(Ok, s.mode)]
    ensures Sent(c, Handle(c, s, abort), get) == [StatusReport(s.status, DfuIdle)]
  {
  }

  /** After its firmware a download goes on until a DNLOAD request without data. */
  lemma {:induction false} DownloadEnds(c: Config, s: Dfu, go: Request)
    requires Valid(c, s) && Sound(s) && s.mode == DfuDnloadIdle && go.kind == Dnload && go.wLength == 0 && WellFormed(go)
    ensures Handle(c, s, go).mode == DfuIdle && Handle(c, s, go).flash == s.flash && Handle(c, s, go).eeprom == s.eeprom
  {
    var t := PendingStart(c, s, go);
    if s.waitForExit {
      StartCommand(c, s.(cmd := s.cmd.(dataSize := go.wLength)));
    }
  }

  // ----- what can change the memories

  /** The request erases the section, begins a flash download, or brings words for one. */
  predicate TouchesFlash(s: Dfu, r: Request)
    requires |s.cmd.data| == 5
  {
    && r.kind == Dnload && r.packet != [] && Parameter(s, r, 0) == 0x00
    && ((r.packet[0] == 0x04 && Parameter(s, r, 1) == 0xFF)
        || (r.packet[0] == 0x01 && !s.isSecure)
        || (s.mode == DfuDnloadIdle && r.wLength > BytesRead(r)))
  }

  /** The request brings bytes for an EEPROM download. */
  predicate TouchesEeprom(s: Dfu, r: Request)
    requires |s.cmd.data| == 5
  {
    && r.kind == Dnload && r.packet != [] && Parameter(s, r, 0) != 0x00 && r.wLength > BytesRead(r)
    && (s.mode == DfuDnloadIdle || (r.packet[0] == 0x01 && Parameter(s, r, 0) == 0x01 && !s.isSecure))
  }

  lemma {:induction false} ProgMemory(c: Config, s: Dfu)
    requires Valid(c, s)
    ensures var t := MemProg(c, s);
            && t.eeprom == s.eeprom && (s.cmd.data[0] != 0x00 ==> t.flash == s.flash)
            && (t.mode == DfuDnloadIdle ==> s.mode == DfuDnloadIdle || s.cmd.data[0] <= 0x01)
  {
  }

  lemma {:induction false} ReadMemory(c: Config, s: Dfu)
    requires Valid(c, s)
    ensures var t := MemRead(c, s); t.eeprom == s.eeprom && t.flash == s.flash && (t.mode == DfuDnloadIdle ==> s.mode == DfuDnloadIdle)
  {
  }

  lemma {:induction false} WriteMemory(c: Config, s: Dfu)
    requires Valid(c, s)
    ensures var t := WriteCommand(c, s);
            t.eeprom == s.eeprom && t.mode == s.mode && (!(s.cmd.data[0] == 0x00 && s.cmd.data[1] == 0xFF) ==> t.flash == s.flash)
  {
  }

  lemma {:induction false} InfoMemory(c: Config, s: Dfu)
    requires Valid(c, s)
    ensures var t := ReadCommand(c, s); t.eeprom == s.eeprom && t.flash == s.flash && (t.mode == DfuDnloadIdle ==> s.mode == DfuDnloadIdle)
  {
  }

  lemma {:induction false} CommandMemory(c: Config, s: Dfu)
    requires Valid(c, s)
    ensures var t := ProcessCommand(c, s);
            && t.eeprom == s.eeprom
            && (!IsErase(s.cmd) && !(s.cmd.code == 0x01 && s.cmd.data[0] == 0x00 && !s.isSecure) ==> t.flash == s.flash)
            && (t.mode == DfuDnloadIdle ==> s.mode == DfuDnloadIdle || (s.cmd.code == 0x01 && s.cmd.data[0] <= 0x01 && !s.isSecure))
  {
    ProgMemory(c, s);
    ReadMemory(c, s);
    WriteMemory(c, s);
    InfoMemory(c, s);
  }

  lemma {:induction false} FirmwareMemory(c: Config, s: Dfu, payload: seq<byte>)
    requires Valid(c, s)
    ensures var t := Receive(c, s, payload);
            && (t.flash != s.flash ==> s.mode == DfuDnloadIdle && s.cmd.dataSize != 0 && s.cmd.data[0] == 0x00)
            && (t.eeprom != s.eeprom ==> s.mode == DfuDnloadIdle && s.cmd.dataSize != 0 && s.cmd.data[0] != 0x00)
  {
  }

  /** Any other request leaves the flash as it is, page buffer included, and likewise the EEPROM. */
  lemma {:induction false} MemoryStep(c: Config, s: Dfu, r: Request)
    requires Valid(c, s) && WellFormed(r) && Sound(s)
    ensures Handle(c, s, r).flash != s.flash ==> TouchesFlash(s, r)
    ensures Handle(c, s, r).eeprom != s.eeprom ==> TouchesEeprom(s, r)
  {
    if r.kind == Dnload {
      var t := PendingStart(c, s, r);
      CommandMemory(c, s.(cmd := s.cmd.(dataSize := r.wLength)));
      if r.wLength == 0 {
        FirmwareMemory(c, t, r.payload);
      } else if r.packet != [] {
        var u := t.(cmd := LoadCommand(t.cmd, r.packet));
        PacketLoaded(s, t.cmd, r);
        CommandMemory(c, u);
        CommandKept(c, u);
        FirmwareMemory(c, ProcessCommand(c, u), r.payload);
      }
    }
  }

  /** No request of the run touches the flash. */
  ghost predicate FlashUntouched(c: Config, s: Dfu, rs: seq<Request>)
    requires Valid(c, s) && AllWellFormed(rs)
    decreases |rs|
  {
    rs == [] || (!TouchesFlash(s, rs[0]) && FlashUntouched(c, Handle(c, s, rs[0]), rs[1..]))
  }

  lemma {:induction false} MemoryRun(c: Config, s: Dfu, rs: seq<Request>)
    requires Valid(c, s) && AllWellFormed(rs) && Sound(s) && FlashUntouched(c, s, rs)
    ensures HandleAll(c, s, rs).flash == s.flash
    decreases |rs|
  {
    if rs == [] {
    } else {
      MemoryStep(c, s, rs[0]);
      StartStep(c, s, rs[0]);
      MemoryRun(c, Handle(c, s, rs[0]), rs[1..]);
    }
  }
}
