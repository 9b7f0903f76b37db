/** The HEX loader as BootloaderPrinter.c runs it: parser fields and flash changed in place. */
module HexLoader {
  import opened Flash
  import opened FlashWords
  import opened HexParser
  import opened HexLoad
  import HexText

  class Loader {
    const flash: Memory
    var phase: Phase
    var prevData: byte
    var data: byte
    var readMSB: bool
    var recordType: byte
    var dataRem: byte
    var checksum: byte
    var pageStart: uint32
    var base: uint32
    var address: uint32
    var pageDirty: bool
    var runBootloader: bool

    ghost predicate Valid()
      reads this, flash
    {
      flash.Valid()
    }

    ghost function ReaderView(): (s: Reader)
      reads this
    {
      Reader(phase, prevData, data, readMSB, recordType, dataRem, checksum)
    }

    ghost function TargetView(): (t: Target)
      reads this
    {
      Target(pageStart, base, address, pageDirty)
    }

    ghost function View(): (p: Parser)
      reads this
    {
      Parser(ReaderView(), TargetView(), runBootloader)
    }

    constructor (flash: Memory)
      requires flash.Valid()
      ensures Valid() && this.flash == flash && View() == INITIAL
    {
      this.flash := flash;
      phase, prevData, data, readMSB, recordType, dataRem, checksum := WaitLine, 0, 0, false, 0, 0, 0;
      pageStart, base, address, pageDirty, runBootloader := 0, 0, 0, false, true;
    }

    method FlushPageIfRequired()
      requires Valid()
      modifies `pageStart, `pageDirty, flash
      ensures Valid() && TargetView() == Flush(flash.d, old(TargetView()))
      ensures flash.View() == ApplyAll(flash.d, old(flash.View()), FlushOps(flash.d, old(TargetView())))
    {
      if !pageDirty {
        return;
      }
      var newPageStart := PageStart(flash.d, address);
      if pageStart != newPageStart {
        flash.BootPageWrite(pageStart);
        assert [Write(pageStart)][1..] == [];
        pageStart := newPageStart;
        pageDirty := false;
      }
    }

    /** The HEX_RECORD_TYPE_Data case: the word goes to the page buffer, its page being erased first. */
    method StoreDataWord(word: word)
      requires Valid()
      modifies `pageStart, `pageDirty, `address, flash
      ensures Valid() && TargetView() == StoreWord(flash.d, old(TargetView()))
      ensures flash.View() == ApplyAll(flash.d, old(flash.View()), StoreOps(flash.d, old(TargetView()), word))
    {
      ghost var d, f, t := flash.d, flash.View(), TargetView();
      ghost var erase := if pageDirty then [] else [Erase(pageStart)];
      if !pageDirty {
        flash.BootPageErase(pageStart);
        pageDirty := true;
        assert [Erase(pageStart)][1..] == [];
      }
      assert flash.View() == ApplyAll(d, f, erase);
      flash.BootPageFill(address, word);
      address := Wrap32(address + 2);
      FlushPageIfRequired();
      FillThenFlush(d, f, erase, Fill(t.address, word), FlushOps(d, Filled(t)));
    }

    /** The READ_DATA case. */
    method ReadDataByte()
      requires Valid() && phase == ReadData
      modifies this, flash
      ensures Valid() && ReaderView() == DataReader(old(ReaderView()), Protected(flash.d, old(TargetView())))
      ensures TargetView() == NextTarget(flash.d, old(ReaderView()), old(TargetView())) && runBootloader == old(runBootloader)
      ensures flash.View() == ApplyAll(flash.d, old(flash.View()), ByteOps(flash.d, old(ReaderView()), old(TargetView())))
    {
      dataRem := if dataRem == 0 then 0xFF else dataRem - 1;
      if address >= flash.d.bootStart {
        phase := WaitLine;
        pageDirty := false;
        return;
      }
      if dataRem % 2 == 1 {
        prevData := data;
        return;
      }
      var newDataWord: int := WordOf(data, prevData);
      if recordType == DATA_RECORD {
        StoreDataWord(newDataWord);
      } else if recordType == SEGMENT_ADDRESS {
        base := newDataWord * 0x10;
      } else if recordType == LINEAR_ADDRESS {
        base := newDataWord * 0x1_0000;
      }
      if dataRem == 0 {
        phase := Checksum;
      }
    }

    /** The switch on a complete byte. */
    method ProcessByte()
      requires Valid() && phase != WaitLine
      modifies this, flash
      ensures Valid() && View() == Process(flash.d, old(View()))
      ensures flash.View() == ApplyAll(flash.d, old(flash.View()), ByteOps(flash.d, old(ReaderView()), old(TargetView())))
    {
      if phase != Checksum {
        checksum := Add8(checksum, data);
      }
      match phase {
        case ByteCount =>
          dataRem := data;
          phase := AddressHigh;
        case AddressHigh =>
          address := Wrap32(address + 0x100 * data);
          phase := AddressLow;
        case AddressLow =>
          address := Wrap32(address + data);
          phase := TypeByte;
        case TypeByte =>
          recordType := data;
          phase := if dataRem != 0 then ReadData else Checksum;
        case ReadData =>
          ReadDataByte();
        case Checksum =>
          if data == Negated(checksum) {
            FlushPageIfRequired();
            if recordType == END_OF_FILE {
              runBootloader := false;
            }
          }
        case WaitLine =>
          assert false;
      }
    }

    method ParseIntelHEXByte(c: char)
      requires Valid()
      modifies this, flash
      ensures Valid() && View() == Step(flash.d, old(View()), c)
      ensures flash.View() == ApplyAll(flash.d, old(flash.View()), StepOps(flash.d, old(View()), c))
    {
      if phase == WaitLine || c == ':' {
        checksum := 0;
        address := base;
        readMSB := false;
        if c == ':' {
          phase := ByteCount;
        }
        return;
      }
      var digit := HexToDecimal(c);
      if digit < 0 {
        return;
      }
      data := Pair(data, digit);
      readMSB := !readMSB;
      if readMSB {
        return;
      }
      ProcessByte();
    }

    /** The loop of main over the characters received. */
    method ParseAll(cs: string)
      requires Valid()
      modifies this, flash
      ensures Valid() && View() == After(flash.d, old(View()), cs)
      ensures flash.View() == ApplyAll(flash.d, old(flash.View()), Ops(flash.d, old(View()), cs))
    {
      for i := 0 to |cs|
        invariant Valid() && View() == After(flash.d, old(View()), cs[..i])
        invariant flash.View() == ApplyAll(flash.d, old(flash.View()), Ops(flash.d, old(View()), cs[..i]))
      {
        NextCharacter(flash.d, old(View()), old(flash.View()), cs, i);
        ParseIntelHEXByte(cs[i]);
      }
      assert cs[..|cs|] == cs;
    }
  }

  lemma {:induction false} FillThenFlush(d: Device, f: State, erase: seq<Op>, fill: Op, flush: seq<Op>)
    requires ValidState(d, f)
    ensures ApplyAll(d, f, erase + [fill] + flush) == ApplyAll(d, Apply(d, ApplyAll(d, f, erase), fill), flush)
  {
    ApplyConcat(d, f, erase + [fill], flush);
    ApplyConcat(d, f, erase, [fill]);
    assert [fill][1..] == [];
  }

  lemma {:induction false} NextCharacter(d: Device, p: Parser, f: State, cs: string, i: nat)
    requires ValidState(d, f) && i < |cs|
    ensures After(d, p, cs[..i + 1]) == Step(d, After(d, p, cs[..i]), cs[i])
    ensures ApplyAll(d, f, Ops(d, p, cs[..i + 1]))
            == ApplyAll(d, ApplyAll(d, f, Ops(d, p, cs[..i])), StepOps(d, After(d, p, cs[..i]), cs[i]))
  {
    var q := After(d, p, cs[..i]);
    assert cs[..i + 1] == cs[..i] + [cs[i]];
    RunConcat(d, p, cs[..i], [cs[i]]);
    assert [cs[i]][1..] == [];
    assert Ops(d, q, [cs[i]]) == StepOps(d, q, cs[i]) + Ops(d, Step(d, q, cs[i]), []) == StepOps(d, q, cs[i]);
    ApplyConcat(d, f, Ops(d, p, cs[..i]), Ops(d, q, [cs[i]]));
  }

  /** Loading a whole file: afterwards the flash holds its image, and the bootloader is to stop. */
  method LoadFile(flash: Memory, cs: string, ghost n0: nat, ghost ws: seq<word>, ghost chunks: seq<seq<word>>)
    returns (run: bool)
    requires flash.Valid() && flash.buffer == BlankPage(flash.d) && SectionFits(flash.d)
    requires FileOf(flash.d, cs, n0, ws, chunks) && n0 < flash.d.pageWords <= n0 + |ws|
    modifies flash
    ensures flash.Valid() && Loaded(flash.d, old(flash.View()), flash.View(), n0, ws)
    ensures FlashWords.Holds(flash.d, flash.View(), n0, ws) && HoldsBytes(flash.d, flash.View(), 2 * n0, HexText.BytesOf(ws)) && !run
  {
    LoadCorrect(flash.d, flash.View(), cs, n0, ws, chunks);
    var loader := new Loader(flash);
    loader.ParseAll(cs);
    run := loader.runBootloader;
  }
}
