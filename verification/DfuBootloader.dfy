/** The bootloader's globals and the handlers that change them, against the state machine of DfuRequests. */
module DfuBootloader {
  import opened Basics
  import opened Flash
  import opened DfuState
  import opened DfuRequests
  import opened FlashWords
  import opened DfuDownload
  import opened DfuErase
  import opened DfuSecure
  import opened DfuRoundTrip
  import DfuStart

  class Bootloader {
    const c: Config
    const flash: Memory
    var eeprom: seq<byte>
    var isSecure: bool
    var runBootloader: bool
    var waitForExit: bool
    var dfuState: Mode
    var dfuStatus: Status
    var sentCommand: Command
    var responseByte: byte
    var appStart: word
    var bootKey: bool
    var flash64KBPage: byte
    var startAddr: word
    var endAddr: word

    ghost function View(): (s: Dfu)
      reads this, flash
    {
      Dfu(isSecure, runBootloader, waitForExit, dfuState, dfuStatus, sentCommand, responseByte,
          appStart, flash64KBPage, startAddr, endAddr, bootKey, flash.View(), eeprom)
    }

    ghost predicate Valid()
      reads this, flash
    {
      flash.d == c.d && DfuState.Valid(c, View())
    }

    /** The values the globals start with. */
    constructor (c: Config, flash: Memory, eeprom: seq<byte>, secureMode: bool, bootKey: bool)
      requires flash.d == c.d && flash.Valid() && |c.signature| == 3 && |eeprom| == 0x1_0000
      ensures Valid() && this.c == c && this.flash == flash
      ensures View() == Dfu(secureMode, true, false, DfuIdle, Ok, Command(0, [0, 0, 0, 0, 0], 0), 0,
                            0, 0, 0, 0, bootKey, flash.View(), eeprom)
    {
      this.c, this.flash, this.eeprom, this.bootKey := c, flash, eeprom, bootKey;
      isSecure, runBootloader, waitForExit := secureMode, true, false;
      dfuState, dfuStatus, sentCommand, responseByte := DfuIdle, Ok, Command(0, [0, 0, 0, 0, 0], 0), 0;
      appStart, flash64KBPage, startAddr, endAddr := 0, 0, 0, 0;
    }

    // ----- the commands

    method LoadStartEndAddresses()
      requires Valid()
      modifies this`startAddr, this`endAddr
      ensures View() == LoadAddresses(old(View()))
    {
      startAddr := WordOf(sentCommand.data[1], sentCommand.data[2]);
      endAddr := WordOf(sentCommand.data[3], sentCommand.data[4]);
    }

    method ProcessMemProgCommand()
      requires Valid()
      modifies this, flash
      ensures Valid() && View() == MemProg(c, old(View()))
    {
      if sentCommand.data[0] == 0x00 || sentCommand.data[0] == 0x01 {
        LoadStartEndAddresses();
        if sentCommand.data[0] == 0x00 {
          flash.BootPageErase(Long(flash64KBPage, startAddr));
        }
        dfuState := DfuDnloadIdle;
      }
    }

    /** The loop of the blank check. */
    method CheckBlank() returns (address: nat)
      requires Valid()
      ensures address == FirstNonBlank(c.d, flash.View(), 0)
    {
      address := 0;
      while address < c.d.bootStart
        invariant address <= c.d.bootStart
        invariant FirstNonBlank(c.d, flash.View(), address) == FirstNonBlank(c.d, flash.View(), 0)
      {
        var b := flash.ReadByte(address);
        if b != 0xFF {
          break;
        }
        address := address + 1;
      }
    }

    method ProcessMemReadCommand()
      requires Valid()
      modifies this
      ensures Valid() && View() == MemRead(c, old(View()))
    {
      if sentCommand.data[0] == 0x00 || sentCommand.data[0] == 0x02 {
        LoadStartEndAddresses();
        dfuState := DfuUploadIdle;
      } else if sentCommand.data[0] == 0x01 {
        var address := CheckBlank();
        if address < c.d.bootStart {
          flash64KBPage, startAddr := address / 0x1_0000 % 0x100, address % 0x1_0000;
          dfuState, dfuStatus := DfuError, ErrCheckErased;
        }
      }
    }

    /** The loop of the erase command. */
    method EraseSection()
      requires Valid()
      modifies flash
      ensures flash.Valid() && flash.View() == ApplyAll(c.d, old(flash.View()), EraseOps(c.d, 0))
    {
      var address := 0;
      while address < c.d.bootStart
        invariant flash.Valid()
        invariant ApplyAll(c.d, flash.View(), EraseOps(c.d, address)) == ApplyAll(c.d, old(flash.View()), EraseOps(c.d, 0))
        decreases c.d.bootStart - address
      {
        ghost var f := flash.View();
        ghost var rest := EraseOps(c.d, address + c.d.PageSize());
        flash.BootPageErase(address);
        flash.BootPageWrite(address);
        ApplyFirst(c.d, f, Erase(address), [Write(address)] + rest);
        ApplyFirst(c.d, Apply(c.d, f, Erase(address)), Write(address), rest);
        assert EraseOps(c.d, address) == [Erase(address)] + ([Write(address)] + rest);
        address := address + c.d.PageSize();
      }
    }

    method StartApplication()
      requires Valid() && sentCommand.data[0] == 0x03
      modifies this
      ensures Valid() && View() == WriteCommand(c, old(View()))
    {
      waitForExit := true;
      if sentCommand.dataSize != 0 {
        if sentCommand.data[1] == 0x01 {
          appStart := WordOf(sentCommand.data[3], sentCommand.data[4]);
        }
      } else if sentCommand.data[1] == 0x00 {
        bootKey := true;
      } else {
        var w := flash.ReadWord(0);
        if w == BLANK {
          runBootloader := false;
        }
      }
    }

    method ProcessWriteCommand()
      requires Valid()
      modifies this, flash
      ensures Valid() && View() == WriteCommand(c, old(View()))
    {
      if sentCommand.data[0] == 0x03 {
        StartApplication();
      } else if sentCommand.data[0] == 0x00 && sentCommand.data[1] == 0xFF {
        EraseSection();
        isSecure := false;
      }
    }

    method ProcessReadCommand()
      requires Valid()
      modifies this
      ensures Valid() && View() == ReadCommand(c, old(View()))
    {
      var index := sentCommand.data[1];
      var readAddressInvalid := false;
      if sentCommand.data[0] == 0x00 {
        if index < 3 {
          responseByte := BOOTLOADER_INFO[index];
        } else {
          readAddressInvalid := true;
        }
      } else if sentCommand.data[0] == 0x01 {
        match index
        case 0x30 => responseByte := 0x58;
        case 0x31 => responseByte := c.signature[0];
        case 0x60 => responseByte := c.signature[1];
        case 0x61 => responseByte := c.signature[2];
        case _ => readAddressInvalid := true;
      }
      if readAddressInvalid {
        dfuState, dfuStatus := DfuError, ErrAddress;
      }
    }

    method ProcessBootloaderCommand()
      requires Valid()
      modifies this, flash
      ensures Valid() && View() == ProcessCommand(c, old(View()))
    {
      if isSecure {
        if !IsErase(sentCommand) && sentCommand.code != COMMAND_READ {
          dfuState, dfuStatus := DfuError, ErrWrite;
          return;
        }
      }
      if sentCommand.code == COMMAND_PROG_START {
        ProcessMemProgCommand();
      } else if sentCommand.code == COMMAND_DISP_DATA {
        ProcessMemReadCommand();
      } else if sentCommand.code == COMMAND_WRITE {
        ProcessWriteCommand();
      } else if sentCommand.code == COMMAND_READ {
        ProcessReadCommand();
      } else if sentCommand.code == COMMAND_CHANGE_BASE_ADDR {
        if sentCommand.data[0] == 0x03 && sentCommand.data[1] == 0x00 {
          flash64KBPage := sentCommand.data[2];
        }
      }
    }

    // ----- DNLOAD

    /** The command and up to five parameters are read from the first packet. */
    method ReadCommandPacket(packet: seq<byte>)
      requires Valid() && 0 < |packet| <= sentCommand.dataSize
      modifies this`sentCommand
      ensures sentCommand == LoadCommand(old(sentCommand), packet)
    {
      ghost var before := sentCommand.data;
      sentCommand := sentCommand.(code := packet[0], dataSize := sentCommand.dataSize - 1);
      var i := 0;
      while i < 5 && i + 1 < |packet|
        invariant i <= 5 && i < |packet| && sentCommand.code == packet[0]
        invariant sentCommand.data == Parameters(before, packet, i)
        invariant sentCommand.dataSize + i == old(sentCommand.dataSize) - 1
      {
        NextParameter(before, packet, i);
        sentCommand := sentCommand.(data := sentCommand.data[i := packet[i + 1]], dataSize := sentCommand.dataSize - 1);
        i := i + 1;
      }
    }

    /** The firmware loop for the flash; it gives up when the host disconnects. */
    method WriteWords(start: nat, count: nat, words: seq<word>) returns (complete: bool)
      requires Valid()
      modifies flash
      ensures flash.Valid()
      ensures flash.View() == ApplyAll(c.d, old(flash.View()), ProgramOps(c.d, start, start, 0, count, UpTo(words, count)))
      ensures complete <==> |UpTo(words, count)| == count
    {
      ghost var final := ApplyAll(c.d, flash.View(), ProgramOps(c.d, start, start, 0, count, UpTo(words, count)));
      var wordsRemaining, address, pageStart, i := count, start, start, 0;
      var wordsInFlashPage: byte := 0;
      assert words[0..] == words;
      while wordsRemaining > 0
        invariant flash.Valid() && i <= |words| && i + wordsRemaining == count
        invariant ApplyAll(c.d, flash.View(), ProgramOps(c.d, address, pageStart, wordsInFlashPage, wordsRemaining,
                                                         UpTo(words[i..], wordsRemaining))) == final
      {
        if i == |words| {
          return false;
        }
        NextUpTo(words, i, wordsRemaining);
        address, pageStart, wordsInFlashPage :=
          WriteNext(words[i], address, pageStart, wordsInFlashPage, wordsRemaining, UpTo(words[i + 1..], wordsRemaining - 1));
        wordsRemaining := wordsRemaining - 1;
        i := i + 1;
      }
      return true;
    }

    /** One round of that loop. */
    method WriteNext(w: word, address: nat, pageStart: nat, wordsInFlashPage: byte, wordsRemaining: nat, ghost rest: seq<word>)
      returns (address': nat, pageStart': nat, wordsInFlashPage': byte)
      requires Valid() && |rest| < wordsRemaining
      modifies flash
      ensures flash.Valid()
      ensures ApplyAll(c.d, flash.View(), ProgramOps(c.d, address', pageStart', wordsInFlashPage', wordsRemaining - 1, rest))
              == ApplyAll(c.d, old(flash.View()), ProgramOps(c.d, address, pageStart, wordsInFlashPage, wordsRemaining, [w] + rest))
    {
      ProgramStep(c.d, flash.View(), address, pageStart, wordsInFlashPage, wordsRemaining, w, rest);
      flash.BootPageFill(address, w);
      address', pageStart' := address + 2, pageStart;
      wordsInFlashPage' := if wordsInFlashPage == 0xFF then 0 else wordsInFlashPage + 1;
      if wordsInFlashPage' == c.d.pageWords || wordsRemaining == 1 {
        flash.BootPageWrite(pageStart);
        if wordsRemaining != 1 {
          pageStart', wordsInFlashPage' := address', 0;
          flash.BootPageErase(address');
        }
      }
    }

    /** The firmware loop for the EEPROM. */
    method WriteEepromBytes(payload: seq<byte>)
      requires Valid()
      modifies this`eeprom, this`startAddr
      ensures View() == old(View()).(
                eeprom := WriteEeprom(old(eeprom), old(startAddr), UpTo(payload, ByteCount(old(startAddr), endAddr))),
                startAddr := Advance16(old(startAddr), |UpTo(payload, ByteCount(old(startAddr), endAddr))|))
    {
      ghost var bytes := UpTo(payload, ByteCount(startAddr, endAddr));
      var bytesRemaining: nat := ByteCount(startAddr, endAddr);
      var i := 0;
      while bytesRemaining > 0 && i < |payload|
        invariant i + bytesRemaining == ByteCount(old(startAddr), endAddr) && i <= |bytes|
        invariant startAddr == Advance16(old(startAddr), i) && |eeprom| == 0x1_0000
        invariant WriteEeprom(eeprom, startAddr, bytes[i..]) == WriteEeprom(old(eeprom), old(startAddr), bytes)
      {
        assert bytes[i..][1..] == bytes[i + 1..];
        eeprom := eeprom[startAddr := payload[i]];
        startAddr := Advance16(startAddr, 1);
        bytesRemaining := bytesRemaining - 1;
        i := i + 1;
      }
    }

    method ReceiveFirmware(payload: seq<byte>)
      requires Valid()
      modifies this, flash
      ensures Valid() && View() == Receive(c, old(View()), payload)
    {
      if dfuState == DfuDnloadIdle {
        if sentCommand.dataSize == 0 {
          dfuState := DfuIdle;
        } else if sentCommand.data[0] == 0x00 {
          var bytesRemaining := ByteCount(startAddr, endAddr);
          var complete := WriteWords(Long(flash64KBPage, startAddr), bytesRemaining / 2, WordsOf(payload));
          if complete {
            startAddr := endAddr;
          }
        } else {
          WriteEepromBytes(payload);
        }
      }
    }

    method DnloadRequest(packet: seq<byte>, payload: seq<byte>)
      requires Valid() && |packet| <= sentCommand.dataSize
      modifies this, flash
      ensures Valid() && View() == HandleDnload(c, old(View()), packet, payload)
    {
      CommandKept(c, View());
      if waitForExit {
        ProcessBootloaderCommand();
        waitForExit := false;
      }
      if sentCommand.dataSize != 0 {
        if packet == [] {
          return;
        }
        ReadCommandPacket(packet);
        ProcessBootloaderCommand();
      }
      ReceiveFirmware(payload);
    }

    // ----- UPLOAD

    /** The loop that sends flash words, while the host takes them. */
    method SendWords(start: nat, count: nat, taken: nat) returns (sent: seq<word>)
      requires Valid() && taken <= count
      ensures |sent| == taken && sent == ReadWords(c.d, flash.View(), start, taken)
    {
      var wordsRemaining, address := count, start;
      sent := [];
      while wordsRemaining > 0 && |sent| < taken
        invariant |sent| <= taken && |sent| + wordsRemaining == count
        invariant sent + ReadWords(c.d, flash.View(), address, taken - |sent|) == ReadWords(c.d, flash.View(), start, taken)
      {
        var w := flash.ReadWord(address);
        Regroup(sent, [w], ReadWords(c.d, flash.View(), address + 2, taken - |sent| - 1));
        sent := sent + [w];
        wordsRemaining := wordsRemaining - 1;
        address := address + 2;
      }
    }

    method SendFlash(host: Host) returns (out: seq<Output>, complete: bool)
      requires Valid()
      ensures var n := ByteCount(startAddr, endAddr) / 2;
              && out == FlashOutput(ReadWords(c.d, flash.View(), Long(flash64KBPage, startAddr), Taken(host, n)))
              && complete == (Taken(host, n) == n)
    {
      var bytesRemaining := ByteCount(startAddr, endAddr);
      var taken := Taken(host, bytesRemaining / 2);
      var sent := SendWords(Long(flash64KBPage, startAddr), bytesRemaining / 2, taken);
      out, complete := FlashOutput(sent), taken == bytesRemaining / 2;
    }

    /** The loop that sends EEPROM bytes, while the host takes them. */
    method SendBytes(count: nat, taken: nat) returns (sent: seq<byte>)
      requires Valid() && taken <= count < 0x1_0000
      modifies this`startAddr
      ensures |sent| == taken && sent == ReadEeprom(eeprom, old(startAddr), taken) && startAddr == Advance16(old(startAddr), taken)
    {
      ghost var all := ReadEeprom(eeprom, startAddr, taken);
      var bytesRemaining := count;
      sent := [];
      while bytesRemaining > 0 && |sent| < taken
        invariant |sent| <= taken && |sent| + bytesRemaining == count
        invariant startAddr == Advance16(old(startAddr), |sent|)
        invariant sent + ReadEeprom(eeprom, startAddr, taken - |sent|) == all
      {
        ReadFirst(eeprom, startAddr, taken - |sent|);
        Regroup(sent, [eeprom[startAddr]], ReadEeprom(eeprom, Advance16(startAddr, 1), taken - |sent| - 1));
        sent := sent + [eeprom[startAddr]];
        bytesRemaining := bytesRemaining - 1;
        startAddr := Advance16(startAddr, 1);
      }
    }

    method SendEeprom(host: Host) returns (out: seq<Output>, complete: bool)
      requires Valid()
      modifies this`startAddr
      ensures var n := ByteCount(old(startAddr), endAddr);
              && out == EepromOutput(ReadEeprom(eeprom, old(startAddr), Taken(host, n)))
              && startAddr == Advance16(old(startAddr), Taken(host, n)) && complete == (Taken(host, n) == n)
    {
      var bytesRemaining := ByteCount(startAddr, endAddr);
      var taken := Taken(host, bytesRemaining);
      var sent := SendBytes(bytesRemaining, taken);
      out, complete := EepromOutput(sent), taken == bytesRemaining;
    }

    method UploadRequest(host: Host) returns (out: seq<Output>)
      requires Valid()
      modifies this
      ensures Valid() && out == UploadOutput(c, old(View()), host) && View() == HandleUpload(old(View()), host)
    {
      out := [];
      if host == Leaves(0) {
        return;
      }
      if dfuState != DfuUploadIdle {
        if dfuState == DfuError && sentCommand.data[0] == 0x01 {
          out := [NonBlankAddress(startAddr)];
        } else {
          out := [ResponseByte(responseByte)];
        }
      } else {
        var complete := true;
        if sentCommand.data[0] == 0x00 {
          out, complete := SendFlash(host);
          if complete {
            startAddr := endAddr;
          }
        } else if sentCommand.data[0] == 0x02 {
          out, complete := SendEeprom(host);
        }
        if complete {
          dfuState := DfuIdle;
        }
      }
    }

    /** EVENT_USB_Device_ControlRequest. */
    method ControlRequest(r: Request) returns (out: seq<Output>)
      requires Valid() && WellFormed(r)
      modifies this, flash
      ensures Valid() && View() == Handle(c, old(View()), r) && out == Sent(c, old(View()), r)
    {
      out := [];
      sentCommand := sentCommand.(dataSize := r.wLength);
      match r.kind
      case Dnload => DnloadRequest(r.packet, r.payload);
      case Upload => out := UploadRequest(r.host);
      case GetStatus =>
        if r.host != Leaves(0) {
          out := [StatusReport(dfuStatus, dfuState)];
        }
      case ClrStatus => dfuStatus := Ok;
      case GetState =>
        if r.host != Leaves(0) {
          out := [StateReport(dfuState)];
        }
      case Abort => dfuState := DfuIdle;
      case Other =>
    }

    /** A session: every request in turn. */
    method Session(rs: seq<Request>) returns (out: seq<Output>)
      requires Valid() && AllWellFormed(rs)
      modifies this, flash
      ensures Valid() && View() == HandleAll(c, old(View()), rs) && out == SentAll(c, old(View()), rs)
    {
      out := [];
      assert rs[0..] == rs;
      for i := 0 to |rs|
        invariant Valid() && AllWellFormed(rs[i..])
        invariant HandleAll(c, View(), rs[i..]) == HandleAll(c, old(View()), rs)
        invariant out + SentAll(c, View(), rs[i..]) == SentAll(c, old(View()), rs)
      {
        assert rs[i..][0] == rs[i] && rs[i..][1..] == rs[i + 1..];
        var o := ControlRequest(rs[i]);
        out := out + o;
      }
    }

    /**
     A session in secure mode. If the bootloader is still secure at the end, both memories are as they were and nothing
     was revealed. Otherwise some request `k` erased the section: nothing of the first `safe` outputs, which were sent before
     that, reveals anything, and the section was blank then.
     */
    method SecureSession(rs: seq<Request>) returns (out: seq<Output>, ghost k: nat, ghost safe: nat)
      requires Valid() && AllWellFormed(rs) && Locked(View())
      requires SectionFits(c.d) && c.d.bootStart % 2 == 0 && BufferClean(c.d, flash.View())
      modifies this, flash
      ensures Valid()
      ensures isSecure ==> Locked(View()) && flash.View() == old(flash.View()) && eeprom == old(eeprom) && NothingRevealed(out)
      ensures isSecure ==> runBootloader == old(runBootloader) && bootKey == old(bootKey) && appStart == old(appStart)
      ensures !isSecure ==>
                && k < |rs| && safe <= |out| && NothingRevealed(out[..safe])
                && SentAll(c, old(View()), rs[..k]) == out[..safe]
                && HandleAll(c, old(View()), rs[..k]).flash == old(flash.View())
                && HandleAll(c, old(View()), rs[..k]).eeprom == old(eeprom)
                && SectionBlank(c.d, HandleAll(c, old(View()), rs[..k + 1]).flash)
    {
      k, safe := SecureOutcome(c, View(), rs);
      if HandleAll(c, View(), rs).isSecure {
        DfuStart.SecureNeverStarts(c, View(), rs);
      }
      out := Session(rs);
    }

    /**
     A download that keeps to its pages, a read command and an upload: the words are in the flash, the rest of their pages
     is blank, no other page has changed, and the words come back.
     */
    method ProgramAndReadBack(
        prog: Request, read: Request, up: Request, ghost startAddr: word, ghost endAddr: word, ghost n0: nat, ghost n: nat)
      returns (out: seq<Output>)
      requires Valid() && !isSecure && !waitForExit && flash.buffer == BlankPage(c.d) && c.d.pageWords <= 0xFF
      requires IsCommand(prog, 0x01, 0x00, startAddr, endAddr) && prog.wLength > 6
      requires IsCommand(read, 0x03, 0x00, startAddr, endAddr)
      requires up.kind == Upload && up.host == Stays && WellFormed(up)
      requires 0x1_0000 * flash64KBPage + startAddr == 2 * n0 && n == ByteCount(startAddr, endAddr) / 2 && 2 * n <= |prog.payload|
      requires n > 0 ==> Exists(c.d, n0 + n - 1) && KeepsToPages(c.d, n0, n)
      modifies this, flash
      ensures Valid() && SendsBytes(out, prog.payload[..2 * n])
      ensures HoldsBytes(c.d, flash.View(), 2 * n0, prog.payload[..2 * n])
      ensures n > 0 ==>
                && |WordsOf(prog.payload)| >= n
                && FlashWords.Loaded(c.d, old(flash.View()), flash.View(), n0, WordsOf(prog.payload)[..n])
    {
      FlashRoundTrip(c, View(), prog, read, up, startAddr, endAddr, n0, n);
      var _ := ControlRequest(prog);
      var _ := ControlRequest(read);
      out := ControlRequest(up);
    }
  }

  /** Two bootloaders that differ in nothing but the application section answer every session alike. */
  method TwinSessions(a: Bootloader, b: Bootloader, rs: seq<Request>) returns (outA: seq<Output>, outB: seq<Output>)
    requires a != b && a.flash != b.flash && a.c == b.c && a.Valid() && b.Valid() && AllWellFormed(rs)
    requires Locked(a.View()) && Twins(a.c, a.View(), b.View())
    modifies a, a.flash, b, b.flash
    ensures outA == outB
  {
    NoInterference(a.c, a.View(), b.View(), rs);
    outA := a.Session(rs);
    outB := b.Session(rs);
  }

  lemma {:induction false} NextParameter(data: seq<byte>, packet: seq<byte>, i: nat)
    requires |data| == 5 && i < 5 && i + 1 < |packet|
    ensures Parameters(data, packet, i)[i := packet[i + 1]] == Parameters(data, packet, i + 1)
  {
  }

  lemma {:induction false} NextUpTo<T>(s: seq<T>, i: nat, n: nat)
    requires i < |s| && n > 0
    ensures UpTo(s[i..], n) == [s[i]] + UpTo(s[i + 1..], n - 1)
  {
  }
}
