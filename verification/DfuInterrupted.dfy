/** A host that disconnects in the middle of a download, and what the next erase makes of it. */
module DfuInterrupted {
  import opened Flash
  import opened FlashWords
  import opened DfuState
  import opened DfuDownload
  import opened DfuErase
  import opened DfuRequests
  import opened DfuRoundTrip

  // ----- the page buffer

  /** The flash when the host has sent `words` and `left` more than that were expected. */
  function Cut(d: Device, f: State, cur: nat, ps: nat, left: nat, words: seq<word>): (r: State)
    requires ValidState(d, f) && ps <= cur <= ps + 0xFF && |words| <= left
    ensures ValidState(d, r)
  {
    ApplyAll(d, f, ProgramOps(d, 2 * cur, 2 * ps, cur - ps, left, words))
  }

  lemma {:induction false} CutFull(d: Device, f: State, cur: nat, ps: nat, left: nat, words: seq<word>)
    requires ValidState(d, f) && words != [] && |words| < left && ps <= cur < ps + 0xFF && cur - ps + 1 == d.pageWords
    ensures Cut(d, f, cur, ps, left, words) == Cut(d, Turned(d, f, cur, ps, words[0]), cur + 1, cur + 1, left - 1, words[1..])
  {
    assert words == [words[0]] + words[1..] && 2 * cur + 2 == 2 * (cur + 1);
    ProgramStep(d, f, 2 * cur, 2 * ps, cur - ps, left, words[0], words[1..]);
  }

  lemma {:induction false} CutOpen(d: Device, f: State, cur: nat, ps: nat, left: nat, words: seq<word>)
    requires ValidState(d, f) && words != [] && |words| < left && ps <= cur < ps + 0xFF && cur - ps + 1 != d.pageWords
    ensures Cut(d, f, cur, ps, left, words) == Cut(d, Apply(d, f, Fill(2 * cur, words[0])), cur + 1, ps, left - 1, words[1..])
  {
    assert words == [words[0]] + words[1..] && 2 * cur + 2 == 2 * (cur + 1) && cur - ps + 1 == cur + 1 - ps;
    ProgramStep(d, f, 2 * cur, 2 * ps, cur - ps, left, words[0], words[1..]);
  }

  /** The words that have come since the loop last wrote a page. */
  function Unwritten(d: Device, words: seq<word>): (ws: seq<word>)
    requires d.Valid()
    ensures |ws| < d.pageWords && |ws| <= |words|
    decreases |words|
  {
    if |words| < d.pageWords then words else Unwritten(d, words[d.pageWords..])
  }

  /** Where the first of them belongs. */
  function UnwrittenFrom(d: Device, n0: nat, words: seq<word>): (n: nat)
    requires d.Valid()
  {
    n0 + |words| - |Unwritten(d, words)|
  }

  function Offset(d: Device, i: nat): (o: nat)
    requires d.Valid()
    ensures o < d.pageWords
  {
    i - FirstWord(d, i)
  }

  /** How far behind word `at` the next word with offset `o` is. */
  function Ahead(d: Device, at: nat, o: nat): (k: nat)
    requires d.Valid() && o < d.pageWords
    ensures k < d.pageWords
  {
    if o >= Offset(d, at) then o - Offset(d, at) else o + d.pageWords - Offset(d, at)
  }

  lemma {:induction false} AheadOffset(d: Device, at: nat, k: nat)
    requires d.Valid() && k < d.pageWords
    ensures Ahead(d, at, Offset(d, at + k)) == k
  {
    var next := FirstWord(d, at) + d.pageWords;
    if at + k < next {
      PageUnique(d, at, at + k);
    } else {
      NextPage(d, at);
      PageUnique(d, next, at + k);
    }
  }

  /** What the words from word `at` on put at offset `o` of a blank page buffer. */
  function PendingWord(d: Device, at: nat, ws: seq<word>, o: nat): (w: word)
    requires d.Valid() && o < d.pageWords
  {
    if Ahead(d, at, o) < |ws| then ws[Ahead(d, at, o)] else BLANK
  }

  /** Each of the words is there, at the offset that it has on its own page. */
  lemma {:induction false} PendingPlace(d: Device, at: nat, ws: seq<word>, k: nat)
    requires d.Valid() && k < |ws| <= d.pageWords
    ensures PendingWord(d, at, ws, Offset(d, at + k)) == ws[k]
  {
    AheadOffset(d, at, k);
  }

  ghost predicate Pending(d: Device, f: State, at: nat, ws: seq<word>)
  {
    ValidState(d, f) && (forall o: nat :: o < d.pageWords ==> f.buffer[o] == PendingWord(d, at, ws, o))
  }

  lemma {:induction false} FillPending(d: Device, f: State, at: nat, ws: seq<word>, w: word)
    requires Pending(d, f, at, ws) && |ws| < d.pageWords
    ensures Pending(d, Apply(d, f, Fill(2 * (at + |ws|), w)), at, ws + [w])
  {
    var g, p := Apply(d, f, Fill(2 * (at + |ws|), w)), Offset(d, at + |ws|);
    AheadOffset(d, at, |ws|);
    WordPlace(d, at + |ws|);
    forall o: nat | o < d.pageWords ensures g.buffer[o] == PendingWord(d, at, ws + [w], o) {
      assert o != p ==> g.buffer[o] == f.buffer[o] && Ahead(d, at, o) != |ws|;
    }
  }

  lemma {:induction false} UnwrittenTurn(d: Device, n0: nat, ws: seq<word>, words: seq<word>, all: seq<word>, rest: seq<word>)
    requires d.Valid() && |ws| + 1 == d.pageWords && words != [] && all == ws + words && rest == words[1..]
    ensures Unwritten(d, all) == Unwritten(d, rest)
    ensures UnwrittenFrom(d, n0, all) == UnwrittenFrom(d, n0 + d.pageWords, rest)
  {
    assert all[d.pageWords..] == rest;
  }

  lemma {:induction false} TurnCut(d: Device, f: State, ps: nat, cur: nat, left: nat, words: seq<word>, rest: seq<word>)
    returns (g: State, next: nat)
    requires ValidState(d, f) && ps + d.pageWords == cur + 1 && d.pageWords <= 0xFF && 0 < |words| < left && rest == words[1..]
    ensures next == ps + d.pageWords && Pending(d, g, next, [])
    ensures Cut(d, f, cur, ps, left, words) == Cut(d, g, next, next, left - 1, rest)
  {
    g, next := Turned(d, f, cur, ps, words[0]), cur + 1;
    NonePending(d, g, next);
    CutFull(d, f, cur, ps, left, words);
  }

  lemma {:induction false} OneMoreWord(ws: seq<word>, words: seq<word>)
    requires words != []
    ensures words == [words[0]] + words[1..] && ws + words == (ws + [words[0]]) + words[1..]
  {
  }

  lemma {:induction false} NothingMore(d: Device, f: State, ps: nat, ws: seq<word>, left: nat)
    requires Pending(d, f, ps, ws) && |ws| < d.pageWords <= 0xFF
    ensures Cut(d, f, ps + |ws|, ps, left, []) == f
    ensures Unwritten(d, ws + []) == ws && UnwrittenFrom(d, ps, ws + []) == ps
  {
    assert ws + [] == ws;
  }

  lemma {:induction false} NonePending(d: Device, f: State, at: nat)
    requires ValidState(d, f) && f.buffer == BlankPage(d)
    ensures Pending(d, f, at, [])
  {
  }

  /** The loop is cut off: the page buffer holds the words that it has not written. */
  lemma {:induction false} CutPending(d: Device, f: State, ps: nat, cur: nat, ws: seq<word>, left: nat, words: seq<word>, all: seq<word>)
    returns (r: State, at: nat, us: seq<word>)
    requires Pending(d, f, ps, ws) && |ws| < d.pageWords <= 0xFF && |words| < left && cur == ps + |ws| && all == ws + words
    ensures r == Cut(d, f, cur, ps, left, words)
    ensures at == UnwrittenFrom(d, ps, all) && us == Unwritten(d, all) && Pending(d, r, at, us)
    decreases |words|, 1
  {
    if words == [] {
      NothingMore(d, f, ps, ws, left);
      r, at, us := f, ps, ws;
    } else if |ws| + 1 == d.pageWords {
      r, at, us := TurnPending(d, f, ps, cur, ws, left, words, all);
    } else {
      OneMoreWord(ws, words);
      CutOpen(d, f, cur, ps, left, words);
      FillPending(d, f, ps, ws, words[0]);
      r, at, us := CutPending(d, Apply(d, f, Fill(2 * cur, words[0])), ps, cur + 1, ws + [words[0]], left - 1, words[1..], all);
    }
  }

  lemma {:induction false} TurnPending(d: Device, f: State, ps: nat, cur: nat, ws: seq<word>, left: nat, words: seq<word>, all: seq<word>)
    returns (r: State, at: nat, us: seq<word>)
    requires Pending(d, f, ps, ws) && |ws| + 1 == d.pageWords <= 0xFF && 0 < |words| < left && cur == ps + |ws| && all == ws + words
    ensures r == Cut(d, f, cur, ps, left, words)
    ensures at == UnwrittenFrom(d, ps, all) && us == Unwritten(d, all) && Pending(d, r, at, us)
    decreases |words|, 0
  {
    var rest := words[1..];
    var g, next := TurnCut(d, f, ps, cur, left, words, rest);
    UnwrittenTurn(d, ps, ws, words, all, rest);
    r, at, us := CutPending(d, g, next, next, [], left - 1, rest, rest);
  }

  /** The flash after a download to words `n0` on of which only `words` arrive. */
  function CutDownload(d: Device, f: State, n0: nat, n: nat, words: seq<word>): (r: State)
    requires ValidState(d, f) && |words| <= n
    ensures ValidState(d, r)
  {
    Cut(d, Apply(d, f, Erase(2 * n0)), n0, n0, n, words)
  }

  /** What a download that is cut off leaves at offset `o` of the page buffer. */
  function RestWord(d: Device, n0: nat, words: seq<word>, o: nat): (w: word)
    requires d.Valid() && o < d.pageWords
  {
    PendingWord(d, UnwrittenFrom(d, n0, words), Unwritten(d, words), o)
  }

  /** A download that is cut off leaves in the page buffer just the words since the last page it wrote. */
  lemma {:induction false} CutBuffer(d: Device, f: State, n0: nat, n: nat, words: seq<word>)
    requires ValidState(d, f) && d.pageWords <= 0xFF && f.buffer == BlankPage(d) && |words| < n
    ensures forall o: nat :: o < d.pageWords ==> CutDownload(d, f, n0, n, words).buffer[o] == RestWord(d, n0, words, o)
  {
    NonePending(d, Apply(d, f, Erase(2 * n0)), n0);
    var r, at, us := CutPending(d, Apply(d, f, Erase(2 * n0)), n0, n0, [], n, words, words);
  }

  /** Of a download that keeps to its pages these are the words of the page that it was filling. */
  lemma {:induction false} RestAligned(d: Device, n0: nat, n: nat, words: seq<word>, o: nat)
    requires d.Valid() && |words| < n && KeepsToPages(d, n0, n) && o < d.pageWords
    ensures RestWord(d, n0, words, o) == ImageAt(n0, words, FirstWord(d, n0 + |words|) + o)
  {
    UnwrittenTail(d, words);
    if FirstWord(d, n0) == n0 {
      UnwrittenPage(d, n0, words);
    } else {
      OnPage(d, n0, n0 + |words|);
    }
  }

  lemma {:induction false} UnwrittenTail(d: Device, words: seq<word>)
    requires d.Valid()
    ensures words[|words| - |Unwritten(d, words)|..] == Unwritten(d, words)
    decreases |words|
  {
    if |words| < d.pageWords {
    } else {
      UnwrittenTail(d, words[d.pageWords..]);
    }
  }

  lemma {:induction false} UnwrittenPage(d: Device, n0: nat, words: seq<word>)
    requires d.Valid() && FirstWord(d, n0) == n0
    ensures FirstWord(d, n0 + |words|) == UnwrittenFrom(d, n0, words) == FirstWord(d, UnwrittenFrom(d, n0, words))
    decreases |words|
  {
    if |words| < d.pageWords {
      PageUnique(d, n0, n0 + |words|);
    } else {
      NextPage(d, n0);
      UnwrittenPage(d, n0 + d.pageWords, words[d.pageWords..]);
    }
  }

  /** Those of them that the erase command would put into the section are all blank. */
  ghost predicate RestBlank(d: Device, n0: nat, words: seq<word>)
    requires d.Valid()
  {
    forall k: nat :: k < |Unwritten(d, words)| && 2 * Offset(d, UnwrittenFrom(d, n0, words) + k) < d.bootStart
      ==> Unwritten(d, words)[k] == BLANK
  }

  /** An erase after that writes them to the first page: the section is blank only if they are. */
  lemma {:induction false} CutThenErase(d: Device, f: State, n0: nat, n: nat, words: seq<word>)
    requires ValidState(d, f) && d.pageWords <= 0xFF && f.buffer == BlankPage(d) && SectionFits(d) && d.bootStart % 2 == 0
    requires |words| < n
    ensures SectionBlank(d, ErasedFlash(d, CutDownload(d, f, n0, n, words))) <==> RestBlank(d, n0, words)
  {
    var r := CutDownload(d, f, n0, n, words);
    CutBuffer(d, f, n0, n, words);
    EraseBlanksIff(d, r);
    CleanIff(d, r, UnwrittenFrom(d, n0, words), Unwritten(d, words));
  }

  lemma {:induction false} CleanIff(d: Device, f: State, at: nat, ws: seq<word>)
    requires Pending(d, f, at, ws) && |ws| < d.pageWords
    ensures BufferClean(d, f) <==> forall k: nat :: k < |ws| && 2 * Offset(d, at + k) < d.bootStart ==> ws[k] == BLANK
  {
    if BufferClean(d, f) {
      forall k: nat | k < |ws| && 2 * Offset(d, at + k) < d.bootStart ensures ws[k] == BLANK {
        PendingPlace(d, at, ws, k);
      }
    }
    if forall k: nat :: k < |ws| && 2 * Offset(d, at + k) < d.bootStart ==> ws[k] == BLANK {
      forall o: nat | o < d.pageWords && 2 * o < d.bootStart ensures f.buffer[o] == BLANK {
        OffsetAhead(d, at, o);
      }
    }
  }

  lemma {:induction false} OffsetAhead(d: Device, at: nat, o: nat)
    requires d.Valid() && o < d.pageWords
    ensures Offset(d, at + Ahead(d, at, o)) == o
  {
    AheadOffset(d, at, Ahead(d, at, o));
  }

  lemma {:induction false} CutThenErasedWord(d: Device, f: State, n0: nat, n: nat, words: seq<word>, i: nat)
    requires ValidState(d, f) && d.pageWords <= 0xFF && f.buffer == BlankPage(d) && SectionFits(d)
    requires |words| < n && i < d.pageWords && 2 * i < d.bootStart
    ensures WordIn(d, ErasedFlash(d, CutDownload(d, f, n0, n, words)), i) == RestWord(d, n0, words, i)
  {
    var r := CutDownload(d, f, n0, n, words);
    CutBuffer(d, f, n0, n, words);
    InSection(d, i);
    OnPage(d, 0, i);
    EraseWord(d, r, i);
  }

  // ----- on requests

  /** A program request whose firmware does not arrive completely. */
  lemma {:induction false} CutRequest(c: Config, s: Dfu, r: Request, startAddr: word, endAddr: word, n0: nat, n: nat)
    requires Valid(c, s) && !s.isSecure && !s.waitForExit
    requires IsCommand(r, 0x01, 0x00, startAddr, endAddr) && r.wLength > 6
    requires 0x1_0000 * s.page64 + startAddr == 2 * n0 && n == ByteCount(startAddr, endAddr) / 2 && |WordsOf(r.payload)| < n
    ensures var t := Handle(c, s, r);
            && t.flash == CutDownload(c.d, s.flash, n0, n, WordsOf(r.payload))
            && !t.isSecure && !t.waitForExit && t.mode == DfuDnloadIdle && t.startAddr == startAddr
  {
    var p := ProgCommand(c, s, r, startAddr, endAddr, n0);
    FlashFirmware(c, p, r.payload, n0, n, WordsOf(r.payload));
  }

  /** A DNLOAD request that is only a command with two parameters. */
  predicate IsShort(r: Request, code: byte, first: byte, second: byte)
  {
    r.kind == Dnload && r.packet == [code, first, second] && r.wLength == 3
  }

  lemma {:induction false} ShortHandled(c: Config, s: Dfu, r: Request, code: byte, first: byte, second: byte) returns (u: Dfu)
    requires Valid(c, s) && IsShort(r, code, first, second) && !s.waitForExit
    ensures Valid(c, u) && Handle(c, s, r) == Receive(c, ProcessCommand(c, u), r.payload)
    ensures u.cmd.code == code && u.cmd.data[0] == first && u.cmd.data[1] == second && u.cmd.dataSize == 0
    ensures u == s.(cmd := u.cmd)
  {
    u := Commanded(s, r);
  }

  lemma {:induction false} EraseRequest(c: Config, s: Dfu, r: Request)
    requires Valid(c, s) && IsShort(r, 0x04, 0x00, 0xFF) && !s.waitForExit
    ensures var t := Handle(c, s, r); t.flash == ErasedFlash(c.d, s.flash) && t.eeprom == s.eeprom && !t.isSecure && !t.waitForExit
  {
    var u := ShortHandled(c, s, r, 0x04, 0x00, 0xFF);
    CommandKept(c, u);
  }

  lemma {:induction false} CheckRequest(c: Config, s: Dfu, r: Request, second: byte)
    requires Valid(c, s) && c.d.bootStart <= 0x100_0000
    requires IsShort(r, 0x03, 0x01, second) && !s.waitForExit && !s.isSecure && !SectionBlank(c.d, s.flash)
    ensures var t := Handle(c, s, r);
            var a := Long(t.page64, t.startAddr);
            && t.mode == DfuError && t.status == ErrCheckErased && t.flash == s.flash
            && a < c.d.bootStart && ByteAt(c.d, s.flash, a) != 0xFF
            && (forall x: nat :: x < a ==> ByteAt(c.d, s.flash, x) == 0xFF)
  {
    var u := ShortHandled(c, s, r, 0x03, 0x01, second);
    BlankCheckReports(c, u);
  }

  /** A download that is cut off and an erase: the first page then holds the words that were not written. */
  lemma {:induction false} CutEraseRequests(
      c: Config, s: Dfu, prog: Request, erase: Request, startAddr: word, endAddr: word, n0: nat, n: nat, i: nat)
    requires Valid(c, s) && !s.isSecure && !s.waitForExit && s.flash.buffer == BlankPage(c.d)
    requires c.d.pageWords <= 0xFF && SectionFits(c.d) && i < c.d.pageWords && 2 * i < c.d.bootStart
    requires IsCommand(prog, 0x01, 0x00, startAddr, endAddr) && prog.wLength > 6
    requires 0x1_0000 * s.page64 + startAddr == 2 * n0 && n == ByteCount(startAddr, endAddr) / 2 && |WordsOf(prog.payload)| < n
    requires IsShort(erase, 0x04, 0x00, 0xFF)
    ensures var t := Handle(c, Handle(c, s, prog), erase);
            && WordIn(c.d, t.flash, i) == RestWord(c.d, n0, WordsOf(prog.payload), i)
            && !t.isSecure && !t.waitForExit
  {
    CutRequest(c, s, prog, startAddr, endAddr, n0, n);
    CutThenErasedWord(c.d, s.flash, n0, n, WordsOf(prog.payload), i);
    EraseRequest(c, Handle(c, s, prog), erase);
  }

  lemma {:induction false} RestOfPage(d: Device, n0: nat, words: seq<word>)
    requires d.Valid() && 0 < |words| < d.pageWords && FirstWord(d, n0) == n0
    ensures RestWord(d, n0, words, 0) == words[0]
  {
  }

  lemma {:induction false} FirstBytes(d: Device, f: State)
    requires ValidState(d, f) && WordIn(d, f, 0) != BLANK && 1 < d.bootStart
    ensures ByteAt(d, f, 0) != 0xFF || ByteAt(d, f, 1) != 0xFF
    ensures !SectionBlank(d, f)
  {
    BlankWord(d, f, 0);
  }

  lemma {:induction false} CheckFindsWord(c: Config, t: Dfu, check: Request)
    requires Valid(c, t) && !t.isSecure && !t.waitForExit && 1 < c.d.bootStart <= 0x100_0000
    requires WordIn(c.d, t.flash, 0) != BLANK && IsShort(check, 0x03, 0x01, 0x00)
    ensures var u := Handle(c, t, check); u.mode == DfuError && u.status == ErrCheckErased && Long(u.page64, u.startAddr) <= 1
  {
    FirstBytes(c.d, t.flash);
    CheckRequest(c, t, check, 0x00);
  }

  /** A program request for `n` words from the start of a page on, of which fewer arrive, not enough for that page. */
  ghost predicate CutShort(d: Device, s: Dfu, prog: Request, startAddr: word, endAddr: word, n0: nat, n: nat, words: seq<word>)
    requires d.Valid()
  {
    && IsCommand(prog, 0x01, 0x00, startAddr, endAddr) && prog.wLength > 6
    && 0x1_0000 * s.page64 + startAddr == 2 * n0 && FirstWord(d, n0) == n0 && n == ByteCount(startAddr, endAddr) / 2
    && words == WordsOf(prog.payload) && 0 < |words| < d.pageWords && |words| < n
  }

  /**
   The page buffer is not always empty when an erase command comes. After a program request at the start of a page that
   is cut short within that page, the erase leaves its first word at the start of the flash, and a blank check reports it.
   */
  lemma {:induction false} EraseLeavesWord(
      c: Config, s: Dfu, prog: Request, erase: Request, check: Request,
      startAddr: word, endAddr: word, n0: nat, n: nat, words: seq<word>) returns (t: Dfu)
    requires Valid(c, s) && !s.isSecure && !s.waitForExit && s.flash.buffer == BlankPage(c.d)
    requires c.d.pageWords <= 0xFF && SectionFits(c.d) && 1 < c.d.bootStart <= 0x100_0000
    requires CutShort(c.d, s, prog, startAddr, endAddr, n0, n, words) && words[0] != BLANK
    requires IsShort(erase, 0x04, 0x00, 0xFF) && IsShort(check, 0x03, 0x01, 0x00)
    ensures t == Handle(c, Handle(c, s, prog), erase) && !t.isSecure && WordIn(c.d, t.flash, 0) == words[0]
    ensures var u := Handle(c, t, check); u.mode == DfuError && u.status == ErrCheckErased && Long(u.page64, u.startAddr) <= 1
  {
    RestOfPage(c.d, n0, words);
    CutEraseRequests(c, s, prog, erase, startAddr, endAddr, n0, n, 0);
    t := Handle(c, Handle(c, s, prog), erase);
    CheckFindsWord(c, t, check);
  }

  lemma {:induction false} ZeroWord() returns (payload: seq<byte>)
    ensures |WordsOf(payload)| == 1 && WordsOf(payload)[0] == 0
  {
    payload := [0, 0];
    assert payload[2..] == [];
  }

  lemma {:induction false} ProgPacket() returns (packet: seq<byte>)
    ensures |packet| == 6 && packet[0] == 0x01 && packet[5] == 3
    ensures packet[1] == packet[2] == packet[3] == packet[4] == 0
  {
    packet := [0x01, 0, 0, 0, 0, 3];
  }

  lemma {:induction false} AnnounceTwo() returns (prog: Request, startAddr: word, endAddr: word)
    ensures IsCommand(prog, 0x01, 0x00, startAddr, endAddr) && prog.wLength > 6
    ensures startAddr == 0 && endAddr == 3
    ensures |WordsOf(prog.payload)| == 1 && WordsOf(prog.payload)[0] == 0
  {
    var packet := ProgPacket();
    var payload := ZeroWord();
    prog, startAddr, endAddr := Request(Dnload, 7, packet, payload, Stays), 0, 3;
  }

  lemma {:induction false} TwoWords() returns (prog: Request, startAddr: word, endAddr: word, n: nat)
    ensures IsCommand(prog, 0x01, 0x00, startAddr, endAddr) && prog.wLength > 6
    ensures startAddr == 0 && n == ByteCount(startAddr, endAddr) / 2 && 1 < n
    ensures |WordsOf(prog.payload)| == 1 && WordsOf(prog.payload)[0] == 0
  {
    prog, startAddr, endAddr := AnnounceTwo();
    n := ByteCount(startAddr, endAddr) / 2;
  }

  lemma {:induction false} FirstPage(d: Device, page64: byte, startAddr: word) returns (n0: nat)
    requires d.Valid() && page64 == startAddr == 0
    ensures FirstWord(d, n0) == n0 && 0x1_0000 * page64 + startAddr == 2 * n0
  {
    n0 := 0;
  }

  /** There is such a request: two words are announced at address 0 and one zero word arrives. */
  lemma {:induction false} CutShortExists(d: Device, s: Dfu)
    returns (prog: Request, startAddr: word, endAddr: word, n0: nat, n: nat)
    requires d.Valid() && d.pageWords > 1 && s.page64 == 0
    ensures CutShort(d, s, prog, startAddr, endAddr, n0, n, WordsOf(prog.payload)) && WordsOf(prog.payload)[0] == 0
  {
    prog, startAddr, endAddr, n := TwoWords();
    n0 := FirstPage(d, s.page64, startAddr);
  }

  // ----- without a cut the page buffer stays empty

  /** A complete download ends with a page write. */
  lemma {:induction false} CompleteEmpties(d: Device, f: State, address: nat, pageStart: nat, inPage: byte, words: seq<word>)
    requires ValidState(d, f) && words != []
    ensures ApplyAll(d, f, ProgramOps(d, address, pageStart, inPage, |words|, words)).buffer == BlankPage(d)
    decreases |words|
  {
    var w, rest := words[0], words[1..];
    assert words == [w] + rest;
    ProgramStep(d, f, address, pageStart, inPage, |words|, w, rest);
    if rest == [] {
    } else {
      var n := if inPage == 0xFF then 0 else inPage + 1;
      var g := Apply(d, f, Fill(address, w));
      if n != d.pageWords {
        CompleteEmpties(d, g, address + 2, pageStart, n, rest);
      } else {
        CompleteEmpties(d, Apply(d, Apply(d, g, Write(pageStart)), Erase(address + 2)), address + 2, address + 2, 0, rest);
      }
    }
  }

  /** The last part of a DNLOAD request in this state is a flash download of which not all words arrive. */
  ghost predicate CutsHere(s: Dfu, payload: seq<byte>)
    requires |s.cmd.data| == 5
  {
    && s.mode == DfuDnloadIdle && s.cmd.dataSize != 0 && s.cmd.data[0] == 0x00
    && |WordsOf(payload)| < ByteCount(s.startAddr, s.endAddr) / 2
  }

  /** The request is cut off in a flash download. */
  ghost predicate Cuts(c: Config, s: Dfu, r: Request)
    requires Valid(c, s) && WellFormed(r)
  {
    var t := FinishExit(c, s.(cmd := s.cmd.(dataSize := r.wLength)));
    r.kind == Dnload &&
    if t.cmd.dataSize == 0 then CutsHere(t, r.payload)
    else 0 < |r.packet| <= t.cmd.dataSize && CutsHere(ProcessCommand(c, t.(cmd := LoadCommand(t.cmd, r.packet))), r.payload)
  }

  ghost predicate Empty(c: Config, s: Dfu)
  {
    s.flash.buffer == BlankPage(c.d)
  }

  lemma {:induction false} CommandEmpty(c: Config, s: Dfu)
    requires Valid(c, s) && Empty(c, s)
    ensures Empty(c, ProcessCommand(c, s))
  {
    WipeBuffer(c.d, s.flash, 0);
  }

  lemma {:induction false} ReceiveEmpty(c: Config, s: Dfu, payload: seq<byte>)
    requires Valid(c, s) && Empty(c, s) && !CutsHere(s, payload)
    ensures Empty(c, Receive(c, s, payload))
  {
    var n := ByteCount(s.startAddr, s.endAddr) / 2;
    var words, start := UpTo(WordsOf(payload), n), Long(s.page64, s.startAddr);
    if s.mode == DfuDnloadIdle && s.cmd.dataSize != 0 && s.cmd.data[0] == 0x00 && words != [] {
      CompleteEmpties(c.d, s.flash, start, start, 0, words);
    }
  }

  lemma {:induction false} StepEmpty(c: Config, s: Dfu, r: Request)
    requires Valid(c, s) && WellFormed(r) && Empty(c, s) && !Cuts(c, s, r)
    ensures Empty(c, Handle(c, s, r))
  {
    if r.kind == Dnload {
      var s1 := s.(cmd := s.cmd.(dataSize := r.wLength));
      CommandKept(c, s1);
      CommandEmpty(c, s1);
      var t := FinishExit(c, s1);
      if t.cmd.dataSize == 0 {
        ReceiveEmpty(c, t, r.payload);
      } else if r.packet != [] {
        var u := t.(cmd := LoadCommand(t.cmd, r.packet));
        CommandEmpty(c, u);
        ReceiveEmpty(c, ProcessCommand(c, u), r.payload);
      }
    }
  }

  /** No request of the run is cut off in a flash download. */
  ghost predicate NoCuts(c: Config, s: Dfu, rs: seq<Request>)
    requires Valid(c, s) && AllWellFormed(rs)
    decreases |rs|
  {
    rs == [] || (!Cuts(c, s, rs[0]) && NoCuts(c, Handle(c, s, rs[0]), rs[1..]))
  }

  /** Over every run without such a cut the page buffer is empty at the end, so that an erase then blanks the section. */
  lemma {:induction false} RunEmpty(c: Config, s: Dfu, rs: seq<Request>)
    requires Valid(c, s) && AllWellFormed(rs) && Empty(c, s) && NoCuts(c, s, rs)
    requires SectionFits(c.d) && c.d.bootStart % 2 == 0
    ensures Empty(c, HandleAll(c, s, rs)) && SectionBlank(c.d, ErasedFlash(c.d, HandleAll(c, s, rs).flash))
    decreases |rs|
  {
    if rs == [] {
      EraseBlanksIff(c.d, s.flash);
    } else {
      StepEmpty(c, s, rs[0]);
      RunEmpty(c, Handle(c, s, rs[0]), rs[1..]);
    }
  }
}
