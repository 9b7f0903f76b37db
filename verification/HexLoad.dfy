/** Which images the HEX loader really loads. */
module HexLoad {
  import opened Flash
  import opened FlashWords
  import opened HexParser
  import opened HexText

  // ----- loading words one after the other

  /** Word `i` while the page from word `first` on is being filled. */
  function WhileLoading(d: Device, f0: State, first: nat, dirty: bool, n0: nat, ws: seq<word>, i: nat): (w: word)
    requires ValidState(d, f0)
  {
    var p := FirstWord(d, i);
    if p == first then (if dirty then BLANK else WordIn(d, f0, i))
    else if FirstWord(d, n0) <= p < first then ImageAt(n0, ws, i)
    else WordIn(d, f0, i)
  }

  ghost predicate PagesHold(d: Device, f0: State, f: State, first: nat, dirty: bool, n0: nat, ws: seq<word>)
    requires ValidState(d, f0) && ValidState(d, f)
  {
    forall i: nat :: Exists(d, i) ==> WordIn(d, f, i) == WhileLoading(d, f0, first, dirty, n0, ws, i)
  }

  /** Flash `f` and target `t` after loading the words `ws` from word `n0` on into flash `f0`. */
  ghost predicate Loading(d: Device, f0: State, f: State, t: Target, n0: nat, ws: seq<word>)
  {
    && ValidState(d, f0) && ValidState(d, f)
    && t.address == 2 * (n0 + |ws|) && t.pageStart == 2 * FirstWord(d, n0 + |ws|)
    && (t.pageDirty <==> ws != [] && t.address != t.pageStart)
    && BufferHolds(d, f, FirstWord(d, n0 + |ws|), n0, ws)
    && PagesHold(d, f0, f, FirstWord(d, n0 + |ws|), t.pageDirty, n0, ws)
  }

  /** The first word of a page erases it. */
  lemma {:induction false} ErasePages(d: Device, f0: State, f: State, first: nat, n0: nat, ws: seq<word>)
    requires ValidState(d, f0) && ValidState(d, f) && FirstWord(d, first) == first
    requires PagesHold(d, f0, f, first, false, n0, ws)
    ensures PagesHold(d, f0, Apply(d, f, Erase(2 * first)), first, true, n0, ws)
  {
    var f1 := Apply(d, f, Erase(2 * first));
    forall i: nat | Exists(d, i) ensures WordIn(d, f1, i) == WhileLoading(d, f0, first, true, n0, ws, i) {
      ErasedWord(d, f, first, i);
      assert WordIn(d, f, i) == WhileLoading(d, f0, first, false, n0, ws, i);
    }
  }

  /** Filling leaves the pages alone, and no page before the current one has anything of the new word. */
  lemma {:induction false} FillPages(d: Device, f0: State, f: State, n0: nat, ws: seq<word>, w: word)
    requires ValidState(d, f0) && ValidState(d, f)
    requires PagesHold(d, f0, f, FirstWord(d, n0 + |ws|), true, n0, ws)
    ensures PagesHold(d, f0, Apply(d, f, Fill(2 * (n0 + |ws|), w)), FirstWord(d, n0 + |ws|), true, n0, ws + [w])
  {
    var n := n0 + |ws|;
    var first, f1 := FirstWord(d, n), Apply(d, f, Fill(2 * n, w));
    forall i: nat | Exists(d, i) ensures WordIn(d, f1, i) == WhileLoading(d, f0, first, true, n0, ws + [w], i) {
      FilledWord(d, f, n, w, i);
      assert WordIn(d, f, i) == WhileLoading(d, f0, first, true, n0, ws, i);
    }
  }

  /** Writing the page that is being filled makes the one behind it the current page. */
  lemma {:induction false} WritePages(d: Device, f0: State, f: State, n: nat, n0: nat, ws: seq<word>)
    requires ValidState(d, f0) && ValidState(d, f) && n0 <= n
    requires BufferHolds(d, f, FirstWord(d, n), n0, ws) && PagesHold(d, f0, f, FirstWord(d, n), true, n0, ws)
    ensures PagesHold(d, f0, Apply(d, f, Write(2 * FirstWord(d, n))), FirstWord(d, n) + d.pageWords, false, n0, ws)
  {
    var first := FirstWord(d, n);
    var f1 := Apply(d, f, Write(2 * first));
    PageUnique(d, n, first);
    PageMonotone(d, n0, n);
    forall i: nat | Exists(d, i) ensures WordIn(d, f1, i) == WhileLoading(d, f0, first + d.pageWords, false, n0, ws, i) {
      WrittenWord(d, f, first, i);
      assert WordIn(d, f, i) == WhileLoading(d, f0, first, true, n0, ws, i);
      var p := FirstWord(d, i);
      if p == first {
        assert f.buffer[i - p] == ImageAt(n0, ws, first + (i - p));
        AndBlank(ImageAt(n0, ws, i));
      } else if first < p < first + d.pageWords {
        PageUnique(d, n, p);
        PageUnique(d, i, p);
      }
    }
  }

  /** The operations of one word, one by one. */
  lemma {:induction false} StoreSteps(d: Device, f: State, t: Target, w: word, f1: State)
    requires d.Valid() && ValidState(d, f) && f1 == if t.pageDirty then f else Apply(d, f, Erase(t.pageStart))
    ensures ApplyAll(d, f, StoreOps(d, t, w))
            == if FlushRequired(d, Filled(t)) then Apply(d, Apply(d, f1, Fill(t.address, w)), Write(t.pageStart))
               else Apply(d, f1, Fill(t.address, w))
  {
    var erase := if t.pageDirty then [] else [Erase(t.pageStart)];
    var fill, flush := [Fill(t.address, w)], FlushOps(d, Filled(t));
    ApplyConcat(d, f, erase, fill + flush);
    ApplyConcat(d, f1, fill, flush);
    assert StoreOps(d, t, w) == erase + (fill + flush);
    assert (erase != [] ==> erase[1..] == []) && fill[1..] == [] && (flush != [] ==> flush[1..] == []);
  }

  lemma {:induction false} EraseFirst(d: Device, f0: State, f: State, t: Target, n0: nat, ws: seq<word>) returns (f1: State)
    requires d.Valid() && Loading(d, f0, f, t, n0, ws)
    ensures ValidState(d, f1) && f1 == if t.pageDirty then f else Apply(d, f, Erase(t.pageStart))
    ensures BufferHolds(d, f1, FirstWord(d, n0 + |ws|), n0, ws)
    ensures PagesHold(d, f0, f1, FirstWord(d, n0 + |ws|), true, n0, ws)
  {
    if t.pageDirty {
      f1 := f;
    } else {
      f1 := Apply(d, f, Erase(t.pageStart));
      var n := n0 + |ws|;
      PageUnique(d, n, FirstWord(d, n));
      ErasePages(d, f0, f, FirstWord(d, n), n0, ws);
    }
  }

  /** A word has been filled in; flushing the page if it is complete brings flash and target in step again. */
  lemma {:induction false} FlushNext(d: Device, f0: State, f: State, t: Target, n0: nat, ws: seq<word>)
    requires ValidState(d, f0) && ValidState(d, f) && ws != [] && t.pageDirty
    requires t.address == 2 * (n0 + |ws|) && t.pageStart == 2 * FirstWord(d, n0 + |ws| - 1)
    requires BufferHolds(d, f, FirstWord(d, n0 + |ws| - 1), n0, ws)
    requires PagesHold(d, f0, f, FirstWord(d, n0 + |ws| - 1), true, n0, ws)
    ensures Loading(d, f0, if FlushRequired(d, t) then Apply(d, f, Write(t.pageStart)) else f, Flush(d, t), n0, ws)
  {
    var n := n0 + |ws| - 1;
    NextWord(d, n);
    WordPlace(d, n + 1);
    if FlushRequired(d, t) {
      WritePages(d, f0, f, n, n0, ws);
      BlankBuffer(d, Apply(d, f, Write(t.pageStart)), n0, ws);
    }
  }

  lemma {:induction false} FillOne(d: Device, f0: State, f: State, t: Target, n0: nat, ws: seq<word>, w: word) returns (g: State, ws': seq<word>)
    requires ValidState(d, f0) && ValidState(d, f) && t.address == 2 * (n0 + |ws|)
    requires BufferHolds(d, f, FirstWord(d, n0 + |ws|), n0, ws)
    requires PagesHold(d, f0, f, FirstWord(d, n0 + |ws|), true, n0, ws)
    ensures g == Apply(d, f, Fill(t.address, w)) && ws' == ws + [w] && n0 + |ws'| - 1 == n0 + |ws|
    ensures ValidState(d, g) && BufferHolds(d, g, FirstWord(d, n0 + |ws|), n0, ws')
    ensures PagesHold(d, f0, g, FirstWord(d, n0 + |ws|), true, n0, ws')
  {
    g, ws' := Apply(d, f, Fill(t.address, w)), ws + [w];
    FillNext(d, f, n0, ws, w);
    FillPages(d, f0, f, n0, ws, w);
  }

  /** One more word keeps the flash in step with the image. */
  lemma {:induction false} LoadNext(d: Device, f0: State, f: State, t: Target, n0: nat, ws: seq<word>, w: word)
    requires d.Valid() && Loading(d, f0, f, t, n0, ws) && t.address + 2 < 0x1_0000_0000
    ensures Loading(d, f0, ApplyAll(d, f, StoreOps(d, t, w)), StoreWord(d, t), n0, ws + [w])
  {
    var f1 := EraseFirst(d, f0, f, t, n0, ws);
    var g, ws' := FillOne(d, f0, f1, t, n0, ws, w);
    FlushNext(d, f0, g, Filled(t), n0, ws');
    StoreSteps(d, f, t, w, f1);
  }

  lemma {:induction false} LoadFirst(d: Device, f: State, t: Target, ws: seq<word>)
    requires ValidState(d, f) && ws != []
    ensures ApplyAll(d, f, LoadOps(d, t, ws)) == ApplyAll(d, ApplyAll(d, f, StoreOps(d, t, ws[0])), LoadOps(d, StoreWord(d, t), ws[1..]))
    ensures LoadTarget(d, t, |ws|) == LoadTarget(d, StoreWord(d, t), |ws[1..]|)
  {
    ApplyConcat(d, f, StoreOps(d, t, ws[0]), LoadOps(d, StoreWord(d, t), ws[1..]));
  }

  lemma {:induction false} LoadAll(d: Device, f0: State, f: State, t: Target, n0: nat, done: seq<word>, ws: seq<word>)
    requires d.Valid() && Loading(d, f0, f, t, n0, done) && Below(d, t, |ws|)
    ensures Loading(d, f0, ApplyAll(d, f, LoadOps(d, t, ws)), LoadTarget(d, t, |ws|), n0, done + ws)
    decreases |ws|
  {
    if ws == [] {
      assert done + ws == done;
    } else {
      LoadNext(d, f0, f, t, n0, done, ws[0]);
      OneWordLess(d, t, |ws|);
      LoadAll(d, f0, ApplyAll(d, f, StoreOps(d, t, ws[0])), StoreWord(d, t), n0, done + [ws[0]], ws[1..]);
      LoadFirst(d, f, t, ws);
      assert done + [ws[0]] + ws[1..] == done + ws;
    }
  }

  // ----- a whole file

  /** The flash after a stream of characters. */
  function LoadedFlash(d: Device, f: State, cs: string): (r: State)
    requires ValidState(d, f)
    ensures ValidState(d, r)
  {
    ApplyAll(d, f, Ops(d, INITIAL, cs))
  }

  /** `cs` is a HEX file, with any noise in it, of the contiguous image `ws` from word `n0` on, below the bootloader. */
  ghost predicate FileOf(d: Device, cs: string, n0: nat, ws: seq<word>, chunks: seq<seq<word>>)
  {
    && 2 * (n0 + |ws|) <= 0x1_0000 && 2 * (n0 + |ws|) <= d.bootStart
    && Chunked(chunks) && Flat(chunks) == ws
    && Denoise(cs) == Records(2 * n0, chunks) + EndRecord()
  }

  /** The target at the start of the image. */
  function StartTarget(n0: nat): (t: Target)
    requires 2 * n0 < 0x1_0000_0000
  {
    INITIAL.target.(address := 2 * n0)
  }

  /** The flush at the end record, where the address is 0 again. */
  function LastFlush(d: Device, f: State, t: Target): (r: State)
    requires ValidState(d, f)
    ensures ValidState(d, r)
  {
    if t.pageDirty && t.pageStart != 0 then Apply(d, f, Write(t.pageStart)) else f
  }

  /** The flash operations of a file are those of its words and a last flush; it always ends the run. */
  lemma {:induction false} FileOperations(d: Device, cs: string, n0: nat, ws: seq<word>, chunks: seq<seq<word>>)
    requires d.Valid() && FileOf(d, cs, n0, ws, chunks)
    ensures var t := StartTarget(n0);
            Ops(d, INITIAL, cs) == LoadOps(d, t, ws) + FlushOps(d, LoadTarget(d, t, |ws|).(address := 0))
    ensures !After(d, INITIAL, cs).runBootloader
  {
    NoiseTransparent(d, INITIAL, INITIAL, cs);
    var q := FeedRecords(d, INITIAL, 2 * n0, chunks, EndRecord());
    var r := FeedEnd(d, q);
  }

  /** The flash after a file. */
  lemma {:induction false} FileOps(d: Device, f: State, cs: string, n0: nat, ws: seq<word>, chunks: seq<seq<word>>)
    requires ValidState(d, f) && FileOf(d, cs, n0, ws, chunks)
    ensures var t, f1 := LoadTarget(d, StartTarget(n0), |ws|), ApplyAll(d, f, LoadOps(d, StartTarget(n0), ws));
            LoadedFlash(d, f, cs) == LastFlush(d, f1, t)
    ensures !After(d, INITIAL, cs).runBootloader
  {
    FileOperations(d, cs, n0, ws, chunks);
    var flush := FlushOps(d, LoadTarget(d, StartTarget(n0), |ws|).(address := 0));
    ApplyConcat(d, f, LoadOps(d, StartTarget(n0), ws), flush);
    assert PageStart(d, 0) == 0 && (flush != [] ==> flush[1..] == []);
  }

  /** What the last flush leaves in word `i`. */
  lemma {:induction false} FinishedWord(d: Device, f0: State, f: State, t: Target, n0: nat, ws: seq<word>, i: nat)
    requires d.Valid() && Loading(d, f0, f, t, n0, ws) && Exists(d, i)
    ensures var n := FirstWord(d, n0 + |ws|);
            WordIn(d, LastFlush(d, f, t), i)
            == if t.pageDirty && t.pageStart != 0 then WhileLoading(d, f0, n + d.pageWords, false, n0, ws, i)
               else WhileLoading(d, f0, n, t.pageDirty, n0, ws, i)
  {
    if t.pageDirty && t.pageStart != 0 {
      WritePages(d, f0, f, n0 + |ws|, n0, ws);
    }
  }

  /** Loading starts in step when the page of the first word is the current one. */
  lemma {:induction false} StartsInStep(d: Device, f: State, t: Target, n0: nat)
    requires ValidState(d, f) && f.buffer == BlankPage(d)
    requires t.address == 2 * n0 && t.pageStart == 2 * FirstWord(d, n0) && !t.pageDirty
    ensures Loading(d, f, f, t, n0, [])
  {
  }

  /** The flash and the target after the words of a file whose image starts on the first page. */
  lemma {:induction false} LoadFromFirstPage(d: Device, f: State, n0: nat, ws: seq<word>)
    requires ValidState(d, f) && f.buffer == BlankPage(d) && n0 < d.pageWords
    requires 2 * (n0 + |ws|) <= 0x1_0000 && 2 * (n0 + |ws|) <= d.bootStart
    ensures Loading(d, f, ApplyAll(d, f, LoadOps(d, StartTarget(n0), ws)), LoadTarget(d, StartTarget(n0), |ws|), n0, ws)
  {
    StartsInStep(d, f, StartTarget(n0), n0);
    LoadAll(d, f, f, StartTarget(n0), n0, [], ws);
    assert [] + ws == ws;
  }

  /** The page behind the last word of the image. */
  lemma {:induction false} LastPage(d: Device, n: nat)
    requires d.Valid() && n > 0
    ensures FirstWord(d, n - 1) + d.pageWords == if FirstWord(d, n) == n then n else FirstWord(d, n) + d.pageWords
    ensures FirstWord(d, FirstWord(d, n - 1) + d.pageWords) == FirstWord(d, n - 1) + d.pageWords
  {
    NextWord(d, n - 1);
    NextPage(d, n - 1);
  }

  /** Once all pages below word `m`, where the last page of the image ends, are written, the image is in place. */
  lemma {:induction false} PagesHome(d: Device, f0: State, m: nat, n0: nat, ws: seq<word>, i: nat)
    requires ValidState(d, f0) && ws != [] && n0 < d.pageWords
    requires m == FirstWord(d, n0 + |ws| - 1) + d.pageWords && FirstWord(d, m) == m
    ensures WhileLoading(d, f0, m, false, n0, ws, i) == Landed(d, f0, n0, n0, ws, i)
  {
    BelowPage(d, m, i);
  }

  /** Where the pages that are written after the last flush end. */
  lemma {:induction false} LastFlushed(d: Device, t: Target, n: nat) returns (m: nat)
    requires d.Valid() && d.pageWords <= n && t.pageStart == 2 * FirstWord(d, n) && (t.pageDirty <==> FirstWord(d, n) != n)
    ensures m == FirstWord(d, n - 1) + d.pageWords == FirstWord(d, m)
    ensures if t.pageDirty && t.pageStart != 0 then FirstWord(d, n) + d.pageWords == m else FirstWord(d, n) == m && !t.pageDirty
  {
    m := FirstWord(d, n - 1) + d.pageWords;
    PageMonotone(d, d.pageWords, n);
    LastPage(d, n);
  }

  /** Once the image has reached the end of the first page, the last flush brings every word of it home. */
  lemma {:induction false} WordHome(d: Device, f0: State, f: State, t: Target, n0: nat, ws: seq<word>, i: nat)
    requires d.Valid() && Loading(d, f0, f, t, n0, ws) && ws != [] && Exists(d, i) && n0 < d.pageWords <= n0 + |ws|
    ensures WordIn(d, LastFlush(d, f, t), i) == Landed(d, f0, n0, n0, ws, i)
  {
    var m := LastFlushed(d, t, n0 + |ws|);
    FinishedWord(d, f0, f, t, n0, ws, i);
    PagesHome(d, f0, m, n0, ws, i);
  }

  lemma {:induction false} ByteInWords(ws: seq<word>, k: nat)
    requires k < 2 * |ws|
    ensures BytesOf(ws)[k] == if k % 2 == 0 then ws[k / 2] % 0x100 else ws[k / 2] / 0x100
    decreases |ws|
  {
    if k < 2 {
    } else {
      ByteInWords(ws[1..], k - 2);
      assert ws[1..][(k - 2) / 2] == ws[k / 2];
    }
  }

  /** The bytes of the words, in the order of the records, are the bytes of the flash in the order of addresses. */
  lemma {:induction false} HeldBytes(d: Device, f: State, n0: nat, ws: seq<word>)
    requires ValidState(d, f) && FlashWords.Holds(d, f, n0, ws)
    ensures HoldsBytes(d, f, 2 * n0, BytesOf(ws))
  {
    forall k: nat | k < 2 * |ws| ensures ByteAt(d, f, 2 * n0 + k) == BytesOf(ws)[k] {
      ByteInWords(ws, k);
      ByteOfWord(d, f, n0, k);
      assert WordIn(d, f, n0 + k / 2) == ws[k / 2];
    }
  }

  /**
   A file whose image starts on the first page and reaches its end is loaded into any flash, whatever the flash held
   and however the file is split into records. No page is changed that has nothing of the image, and the run ends.
   */
  lemma {:induction false} LoadCorrect(d: Device, f: State, cs: string, n0: nat, ws: seq<word>, chunks: seq<seq<word>>)
    requires ValidState(d, f) && f.buffer == BlankPage(d) && SectionFits(d) && FileOf(d, cs, n0, ws, chunks)
    requires n0 < d.pageWords <= n0 + |ws|
    ensures Loaded(d, f, LoadedFlash(d, f, cs), n0, ws) && FlashWords.Holds(d, LoadedFlash(d, f, cs), n0, ws)
    ensures HoldsBytes(d, LoadedFlash(d, f, cs), 2 * n0, BytesOf(ws)) && !After(d, INITIAL, cs).runBootloader
  {
    FileOps(d, f, cs, n0, ws, chunks);
    LoadFromFirstPage(d, f, n0, ws);
    var t, f1 := LoadTarget(d, StartTarget(n0), |ws|), ApplyAll(d, f, LoadOps(d, StartTarget(n0), ws));
    forall i: nat | Exists(d, i) ensures WordIn(d, LoadedFlash(d, f, cs), i) == Landed(d, f, n0, n0, ws, i) {
      WordHome(d, f, f1, t, n0, ws, i);
    }
    LoadedHolds(d, f, LoadedFlash(d, f, cs), n0, ws);
    HeldBytes(d, LoadedFlash(d, f, cs), n0, ws);
  }

  lemma {:induction false} LoadedHolds(d: Device, f: State, r: State, n0: nat, ws: seq<word>)
    requires ValidState(d, f) && ValidState(d, r) && ws != [] && SectionFits(d) && 2 * (n0 + |ws|) <= d.bootStart
    requires Loaded(d, f, r, n0, ws)
    ensures FlashWords.Holds(d, r, n0, ws)
  {
    forall k | 0 <= k < |ws| ensures WordIn(d, r, n0 + k) == ws[k] {
      InSection(d, n0 + k);
      PageMonotone(d, n0 + k, n0 + |ws| - 1);
      assert Exists(d, n0 + k);
    }
  }

  /** An image that ends within the first page is never written: its page is erased and left blank. */
  lemma {:induction false} ShortImageLost(d: Device, f: State, cs: string, n0: nat, ws: seq<word>, chunks: seq<seq<word>>)
    requires ValidState(d, f) && f.buffer == BlankPage(d) && SectionFits(d) && FileOf(d, cs, n0, ws, chunks)
    requires ws != [] && n0 + |ws| < d.pageWords
    ensures WordIn(d, LoadedFlash(d, f, cs), n0) == BLANK
  {
    FileOps(d, f, cs, n0, ws, chunks);
    LoadFromFirstPage(d, f, n0, ws);
    InSection(d, n0);
    FinishedWord(d, f, ApplyAll(d, f, LoadOps(d, StartTarget(n0), ws)), LoadTarget(d, StartTarget(n0), |ws|), n0, ws, n0);
  }

  /** The first word of an image that starts behind the first page is written to the first page instead. */
  lemma {:induction false} FirstWordAstray(d: Device, f: State, n0: nat, w: word)
    requires ValidState(d, f) && f.buffer == BlankPage(d) && d.pageWords <= n0 < 0x8000
    ensures StoreWord(d, StartTarget(n0)) == Target(2 * FirstWord(d, n0 + 1), 0, 2 * (n0 + 1), false)
    ensures var f1 := ApplyAll(d, f, StoreOps(d, StartTarget(n0), w));
            f1.buffer == BlankPage(d) && WordIn(d, f1, n0) == WordIn(d, f, n0)
  {
    var t, f1 := StartTarget(n0), Apply(d, f, Erase(0));
    var f2 := Apply(d, f1, Fill(2 * n0, w));
    PageMonotone(d, d.pageWords, n0);
    PageMonotone(d, n0, n0 + 1);
    WordPlace(d, n0 + 1);
    StoreSteps(d, f, t, w, f1);
    ErasedWord(d, f, 0, n0);
    FilledWord(d, f1, n0, w, n0);
    if Exists(d, n0) {
      WrittenWord(d, f2, 0, n0);
    }
  }

  /** A blank word in front of the loaded image stays blank. */
  lemma {:induction false} LostWord(d: Device, f0: State, f: State, t: Target, n0: nat, ws: seq<word>, i: nat)
    requires d.Valid() && Loading(d, f0, f, t, n0, ws) && Exists(d, i)
    requires i < n0 && WordIn(d, f0, i) == BLANK
    ensures WordIn(d, LastFlush(d, f, t), i) == BLANK
  {
    FinishedWord(d, f0, f, t, n0, ws, i);
  }

  /** Behind the stray first word, the rest of the image is loaded in step. */
  lemma {:induction false} LoadBehindFirst(d: Device, f: State, n0: nat, ws: seq<word>) returns (f1: State)
    requires ValidState(d, f) && f.buffer == BlankPage(d) && ws != [] && d.pageWords <= n0
    requires 2 * (n0 + |ws|) <= 0x1_0000 && 2 * (n0 + |ws|) <= d.bootStart
    ensures ValidState(d, f1) && WordIn(d, f1, n0) == WordIn(d, f, n0)
    ensures Loading(d, f1, ApplyAll(d, f, LoadOps(d, StartTarget(n0), ws)), LoadTarget(d, StartTarget(n0), |ws|), n0 + 1, ws[1..])
  {
    var t0 := StartTarget(n0);
    FirstWordAstray(d, f, n0, ws[0]);
    var t1 := StoreWord(d, t0);
    f1 := ApplyAll(d, f, StoreOps(d, t0, ws[0]));
    StartsInStep(d, f1, t1, n0 + 1);
    LoadAll(d, f1, f1, t1, n0 + 1, [], ws[1..]);
    LoadFirst(d, f, t0, ws);
    assert [] + ws[1..] == ws[1..];
  }

  /** The first word of an image that starts behind the first page is lost. */
  lemma {:induction false} LateImageLost(d: Device, f: State, cs: string, n0: nat, ws: seq<word>, chunks: seq<seq<word>>)
    requires ValidState(d, f) && f.buffer == BlankPage(d) && SectionFits(d) && FileOf(d, cs, n0, ws, chunks)
    requires ws != [] && d.pageWords <= n0 && WordIn(d, f, n0) == BLANK
    ensures WordIn(d, LoadedFlash(d, f, cs), n0) == BLANK
  {
    var t, g := LoadTarget(d, StartTarget(n0), |ws|), ApplyAll(d, f, LoadOps(d, StartTarget(n0), ws));
    InSection(d, n0);
    var f1 := LoadBehindFirst(d, f, n0, ws);
    LostWord(d, f1, g, t, n0 + 1, ws[1..], n0);
    FileOps(d, f, cs, n0, ws, chunks);
  }

  // ----- exactly which images are loaded

  /** Every file of `n` words from word `n0` on is loaded into every flash. */
  ghost predicate AlwaysLoads(d: Device, n0: nat, n: nat)
    requires SectionFits(d)
  {
    forall f, cs, ws, chunks :: ValidState(d, f) && f.buffer == BlankPage(d) && |ws| == n && FileOf(d, cs, n0, ws, chunks)
      ==> FlashWords.Holds(d, LoadedFlash(d, f, cs), n0, ws)
  }

  function Singles(n: nat): (chunks: seq<seq<word>>)
    ensures Chunked(chunks) && |Flat(chunks)| == n
    ensures forall k :: 0 <= k < n ==> Flat(chunks)[k] == 0
  {
    if n == 0 then [] else
      var rest := Singles(n - 1);
      assert ([[0]] + rest)[1..] == rest;
      [[0]] + rest
  }

  ghost predicate Plain(cs: string)
  {
    forall i :: 0 <= i < |cs| ==> !IsNoise(cs[i])
  }

  lemma {:induction false} DenoisePlain(cs: string)
    requires Plain(cs)
    ensures Denoise(cs) == cs
    decreases |cs|
  {
    if cs == [] {
    } else {
      DenoisePlain(cs[1..]);
    }
  }

  lemma {:induction false} HexOfPlain(bs: seq<byte>)
    ensures Plain(HexOf(bs))
    decreases |bs|
  {
    if bs == [] {
    } else {
      HexOfPlain(bs[1..]);
    }
  }

  lemma {:induction false} RecordPlain(bs: seq<byte>)
    ensures Plain(Record(bs))
  {
    HexOfPlain(bs);
  }

  lemma {:induction false} RecordsPlain(address: nat, chunks: seq<seq<word>>)
    requires Chunked(chunks) && address + 2 * |Flat(chunks)| <= 0x1_0000
    ensures Plain(Records(address, chunks))
    decreases |chunks|
  {
    if chunks == [] {
    } else {
      RecordPlain(Header(address, |chunks[0]|) + BytesOf(chunks[0]));
      RecordsPlain(address + 2 * |chunks[0]|, chunks[1..]);
    }
  }

  /** A file of zero words. */
  lemma {:induction false} ZeroFile(d: Device, n0: nat, n: nat) returns (cs: string, ws: seq<word>, chunks: seq<seq<word>>)
    requires 2 * (n0 + n) <= 0x1_0000 && 2 * (n0 + n) <= d.bootStart
    ensures |ws| == n && FileOf(d, cs, n0, ws, chunks) && forall k :: 0 <= k < n ==> ws[k] == 0
  {
    chunks := Singles(n);
    ws := Flat(chunks);
    cs := Records(2 * n0, chunks) + EndRecord();
    RecordsPlain(2 * n0, chunks);
    RecordPlain([0, 0, 0, 1]);
    DenoisePlain(cs);
  }

  /**
   Exactly the images that start on the first page and reach its end are always loaded. (The page to erase
   and write is only noted when a page has been flushed, and the end-of-file record counts as address 0.)
   */
  lemma {:induction false} AlwaysLoadsIff(d: Device, n0: nat, n: nat)
    requires SectionFits(d) && n > 0 && 2 * (n0 + n) <= 0x1_0000 && 2 * (n0 + n) <= d.bootStart
    ensures AlwaysLoads(d, n0, n) <==> n0 < d.pageWords <= n0 + n
  {
    if n0 < d.pageWords <= n0 + n {
      forall f, cs, ws, chunks | ValidState(d, f) && f.buffer == BlankPage(d) && |ws| == n && FileOf(d, cs, n0, ws, chunks)
        ensures FlashWords.Holds(d, LoadedFlash(d, f, cs), n0, ws)
      {
        LoadCorrect(d, f, cs, n0, ws, chunks);
      }
    } else {
      var f := BlankFlash(d);
      var cs, ws, chunks := ZeroFile(d, n0, n);
      if n0 < d.pageWords {
        ShortImageLost(d, f, cs, n0, ws, chunks);
      } else {
        LateImageLost(d, f, cs, n0, ws, chunks);
      }
      assert WordIn(d, LoadedFlash(d, f, cs), n0 + 0) != ws[0];
    }
  }
}
