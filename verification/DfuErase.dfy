/** The erase command and the blank check. */
module DfuErase {
  import opened Flash
  import opened FlashWords
  import opened DfuState
  import opened DfuDownload

  /** The flash after the erase command. */
  function ErasedFlash(d: Device, f: State): (r: State)
    requires ValidState(d, f)
    ensures ValidState(d, r)
  {
    ApplyAll(d, f, EraseOps(d, 0))
  }

  /** Erasing and committing one page. */
  function WipePage(d: Device, f: State, p: nat): (r: State)
    requires ValidState(d, f)
    ensures ValidState(d, r) && r.buffer == BlankPage(d)
  {
    Apply(d, Apply(d, f, Erase(2 * p)), Write(2 * p))
  }

  lemma {:induction false} WipeFirst(d: Device, f: State, p: nat)
    requires ValidState(d, f) && 2 * p < d.bootStart
    ensures ApplyAll(d, f, EraseOps(d, 2 * p)) == ApplyAll(d, WipePage(d, f, p), EraseOps(d, 2 * (p + d.pageWords)))
  {
    var rest := EraseOps(d, 2 * p + d.PageSize());
    assert 2 * p + d.PageSize() == 2 * (p + d.pageWords);
    ApplyFirst(d, f, Erase(2 * p), [Write(2 * p)] + rest);
    ApplyFirst(d, Apply(d, f, Erase(2 * p)), Write(2 * p), rest);
    assert EraseOps(d, 2 * p) == [Erase(2 * p)] + ([Write(2 * p)] + rest);
  }

  /** The wiped page holds what the page buffer held; no other page changes. */
  lemma {:induction false} WipedWord(d: Device, f: State, p: nat, i: nat)
    requires ValidState(d, f) && Exists(d, i)
    ensures WordIn(d, WipePage(d, f, p), i)
            == if FirstWord(d, i) == FirstWord(d, p) then f.buffer[i - FirstWord(d, i)] else WordIn(d, f, i)
  {
    ErasedWord(d, f, p, i);
    WrittenWord(d, Apply(d, f, Erase(2 * p)), p, i);
    AndBlank(f.buffer[i - FirstWord(d, i)]);
  }

  /** What the pages behind the wiped one leave of it. */
  lemma {:induction false} WipeOne(d: Device, f: State, p: nat, i: nat)
    requires ValidState(d, f) && FirstWord(d, p) == p && f.buffer == BlankPage(d) && Exists(d, i) && 2 * p < d.bootStart
    ensures (if p + d.pageWords <= i && 2 * FirstWord(d, i) < d.bootStart then BLANK else WordIn(d, WipePage(d, f, p), i))
            == if p <= i && 2 * FirstWord(d, i) < d.bootStart then BLANK else WordIn(d, f, i)
  {
    OnPage(d, p, i);
    WipedWord(d, f, p, i);
  }

  lemma {:induction false} WipeRest(d: Device, f: State, p: nat, i: nat)
    requires ValidState(d, f) && FirstWord(d, p) == p && f.buffer == BlankPage(d) && Exists(d, i)
    ensures WordIn(d, ApplyAll(d, f, EraseOps(d, 2 * p)), i)
            == if p <= i && 2 * FirstWord(d, i) < d.bootStart then BLANK else WordIn(d, f, i)
    decreases d.bootStart - 2 * p
  {
    if 2 * p < d.bootStart {
      WipeFirst(d, f, p);
      NextPage(d, p);
      WipeRest(d, WipePage(d, f, p), p + d.pageWords, i);
      WipeOne(d, f, p, i);
    } else if p <= i {
      PageMonotone(d, p, i);
    }
  }

  /**
   The erase command blanks every page that starts below the bootloader, except that
   the first one takes over what was left in the page buffer. All other pages stay as they are.
   */
  lemma {:induction false} EraseWord(d: Device, f: State, i: nat)
    requires ValidState(d, f) && Exists(d, i)
    ensures WordIn(d, ErasedFlash(d, f), i)
            == if 2 * FirstWord(d, i) >= d.bootStart then WordIn(d, f, i)
               else if i < d.pageWords then f.buffer[i]
               else BLANK
  {
    OnPage(d, 0, i);
    if 0 < d.bootStart {
      WipeFirst(d, f, 0);
      NextPage(d, 0);
      WipedWord(d, f, 0, i);
      WipeRest(d, WipePage(d, f, 0), d.pageWords, i);
      if d.pageWords <= i {
        PageMonotone(d, d.pageWords, i);
      }
    }
  }

  lemma {:induction false} WipeBuffer(d: Device, f: State, p: nat)
    requires ValidState(d, f)
    ensures ApplyAll(d, f, EraseOps(d, 2 * p)).buffer == if 2 * p < d.bootStart then BlankPage(d) else f.buffer
    decreases d.bootStart - 2 * p
  {
    if 2 * p >= d.bootStart {
    } else {
      WipeFirst(d, f, p);
      WipeBuffer(d, WipePage(d, f, p), p + d.pageWords);
    }
  }

  /** The two flashes agree on all pages that start at or above the bootloader. */
  ghost predicate SameAbove(d: Device, f: State, g: State)
    requires ValidState(d, f) && ValidState(d, g)
  {
    forall i: nat :: Exists(d, i) && 2 * FirstWord(d, i) >= d.bootStart ==> WordIn(d, f, i) == WordIn(d, g, i)
  }

  /** The erase command forgets the application section completely. */
  lemma {:induction false} EraseForgets(d: Device, f: State, g: State)
    requires ValidState(d, f) && ValidState(d, g) && f.buffer == g.buffer && SameAbove(d, f, g)
    ensures ErasedFlash(d, f) == ErasedFlash(d, g)
  {
    WipeBuffer(d, f, 0);
    WipeBuffer(d, g, 0);
    forall i: nat | Exists(d, i) ensures WordIn(d, ErasedFlash(d, f), i) == WordIn(d, ErasedFlash(d, g), i) {
      EraseWord(d, f, i);
      EraseWord(d, g, i);
    }
    SameFlash(d, ErasedFlash(d, f), ErasedFlash(d, g));
  }

  // ----- the blank check

  ghost predicate SectionBlank(d: Device, f: State)
    requires ValidState(d, f)
  {
    forall a: nat :: a < d.bootStart ==> ByteAt(d, f, a) == 0xFF
  }

  ghost predicate WordsBlank(d: Device, f: State)
    requires ValidState(d, f)
  {
    forall i: nat :: 2 * i < d.bootStart ==> WordIn(d, f, i) == BLANK
  }

  lemma {:induction false} WordOfByte(d: Device, f: State, a: nat)
    requires ValidState(d, f)
    ensures a % 2 == 0 ==> ByteAt(d, f, a) == WordIn(d, f, a / 2) % 0x100
    ensures a % 2 == 1 ==> ByteAt(d, f, a) == WordIn(d, f, a / 2) / 0x100
  {
    assert a % 2 == 0 ==> 2 * (a / 2) == a;
    assert a % 2 == 1 ==> 2 * (a / 2) == a - 1;
  }

  lemma {:induction false} BlankWord(d: Device, f: State, i: nat)
    requires ValidState(d, f)
    ensures WordIn(d, f, i) == BLANK <==> ByteAt(d, f, 2 * i) == 0xFF && ByteAt(d, f, 2 * i + 1) == 0xFF
  {
    WordOfByte(d, f, 2 * i);
    WordOfByte(d, f, 2 * i + 1);
  }

  lemma {:induction false} BlankBytes(d: Device, f: State)
    requires ValidState(d, f) && d.bootStart % 2 == 0
    ensures SectionBlank(d, f) <==> WordsBlank(d, f)
  {
    if SectionBlank(d, f) {
      forall i: nat | 2 * i < d.bootStart ensures WordIn(d, f, i) == BLANK {
        BlankWord(d, f, i);
      }
    }
    if WordsBlank(d, f) {
      forall a: nat | a < d.bootStart ensures ByteAt(d, f, a) == 0xFF {
        WordOfByte(d, f, a);
        assert 2 * (a / 2) < d.bootStart;
      }
    }
  }

  /** The page buffer holds nothing that the erase command would leave in the section. */
  ghost predicate BufferClean(d: Device, f: State)
    requires ValidState(d, f)
  {
    forall i: nat :: i < d.pageWords && 2 * i < d.bootStart ==> f.buffer[i] == BLANK
  }

  /** The erase command leaves the section blank if and only if nothing was left in the page buffer. */
  lemma {:induction false} EraseBlanksIff(d: Device, f: State)
    requires ValidState(d, f) && SectionFits(d) && d.bootStart % 2 == 0
    ensures SectionBlank(d, ErasedFlash(d, f)) <==> BufferClean(d, f)
  {
    var g := ErasedFlash(d, f);
    BlankBytes(d, g);
    forall i: nat | 2 * i < d.bootStart ensures WordIn(d, g, i) == if i < d.pageWords then f.buffer[i] else BLANK {
      InSection(d, i);
      EraseWord(d, f, i);
    }
  }

  /** The blank check reports nothing on a blank section, and else the least address that is not blank. */
  lemma {:induction false} BlankCheckReports(c: Config, s: Dfu)
    requires Valid(c, s) && c.d.bootStart <= 0x100_0000 && s.cmd.data[0] == 0x01
    ensures SectionBlank(c.d, s.flash) ==> MemRead(c, s) == s
    ensures !SectionBlank(c.d, s.flash) ==>
              var r := MemRead(c, s);
              var a := Long(r.page64, r.startAddr);
              && r.mode == DfuError && r.status == ErrCheckErased && r.flash == s.flash
              && a < c.d.bootStart && ByteAt(c.d, s.flash, a) != 0xFF
              && (forall x: nat :: x < a ==> ByteAt(c.d, s.flash, x) == 0xFF)
  {
    var a := FirstNonBlank(c.d, s.flash, 0);
    if a < c.d.bootStart {
      SplitAddress(a);
    }
  }

  lemma SplitAddress(a: nat)
    requires a < 0x100_0000
    ensures 0x1_0000 * (a / 0x1_0000 % 0x100) + a % 0x1_0000 == a
  {
  }

  /** An erase and a blank check agree: no error right after an erase, as long as the page buffer was empty. */
  lemma {:induction false} EraseThenCheck(c: Config, s: Dfu, check: Command)
    requires Valid(c, s) && SectionFits(c.d) && c.d.bootStart % 2 == 0 && c.d.bootStart <= 0x100_0000
    requires s.cmd.data[0] == 0x00 && s.cmd.data[1] == 0xFF && |check.data| == 5 && check.data[0] == 0x01
    ensures var erased := WriteCommand(c, s).(cmd := check);
            !erased.isSecure && (BufferClean(c.d, s.flash) <==> SectionBlank(c.d, erased.flash))
            && (BufferClean(c.d, s.flash) ==> MemRead(c, erased) == erased)
  {
    EraseBlanksIff(c.d, s.flash);
    BlankCheckReports(c, WriteCommand(c, s).(cmd := check));
  }
}
