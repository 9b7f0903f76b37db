/** What the download loop leaves in the flash. */
module DfuDownload {
  import opened Flash
  import opened FlashWords
  import opened DfuState

  /** The flash after a download to words `n0` on: the first page is erased when the command arrives. */
  function Downloaded(d: Device, f: State, n0: nat, words: seq<word>): (r: State)
    requires ValidState(d, f)
    ensures ValidState(d, r)
  {
    Finish(d, Apply(d, f, Erase(2 * n0)), n0, n0, words)
  }

  // ----- one word of the loop

  /** One round of the firmware loop, on its operations. */
  lemma {:induction false} ProgramStep(
      d: Device, f: State, address: nat, pageStart: nat, inPage: byte, remaining: nat, w: word, rest: seq<word>)
    requires ValidState(d, f) && |rest| < remaining
    ensures var g := Apply(d, f, Fill(address, w));
            var n := if inPage == 0xFF then 0 else inPage + 1;
            ApplyAll(d, f, ProgramOps(d, address, pageStart, inPage, remaining, [w] + rest))
            == if n != d.pageWords && remaining != 1 then
                 ApplyAll(d, g, ProgramOps(d, address + 2, pageStart, n, remaining - 1, rest))
               else if remaining == 1 then Apply(d, g, Write(pageStart))
               else ApplyAll(d, Apply(d, Apply(d, g, Write(pageStart)), Erase(address + 2)),
                             ProgramOps(d, address + 2, address + 2, 0, remaining - 1, rest))
  {
    var g := Apply(d, f, Fill(address, w));
    var n := if inPage == 0xFF then 0 else inPage + 1;
    assert ([w] + rest)[1..] == rest;
    if n != d.pageWords && remaining != 1 {
      ApplyFirst(d, f, Fill(address, w), ProgramOps(d, address + 2, pageStart, n, remaining - 1, rest));
    } else if remaining == 1 {
      ApplyFirst(d, f, Fill(address, w), [Write(pageStart)]);
      ApplyFirst(d, g, Write(pageStart), []);
      assert [Write(pageStart)] + [] == [Write(pageStart)];
    } else {
      var ops := ProgramOps(d, address + 2, address + 2, 0, remaining - 1, rest);
      ApplyFirst(d, f, Fill(address, w), [Write(pageStart)] + ([Erase(address + 2)] + ops));
      ApplyFirst(d, g, Write(pageStart), [Erase(address + 2)] + ops);
      ApplyFirst(d, Apply(d, g, Write(pageStart)), Erase(address + 2), ops);
    }
  }

  /** The last word of a page, or of the download: it is filled in and the page is committed. */
  function Committed(d: Device, f: State, cur: nat, ps: nat, w: word): (r: State)
    requires ValidState(d, f)
    ensures ValidState(d, r)
  {
    Apply(d, Apply(d, f, Fill(2 * cur, w)), Write(2 * ps))
  }

  /** The flash after a full page is committed and the next one is erased. */
  function Turned(d: Device, f: State, cur: nat, ps: nat, w: word): (r: State)
    requires ValidState(d, f)
    ensures ValidState(d, r)
  {
    Apply(d, Committed(d, f, cur, ps, w), Erase(2 * (cur + 1)))
  }

  /** The flash when the loop ends: words from `cur` on are still to come, and the page was begun at word `ps`. */
  function Finish(d: Device, f: State, cur: nat, ps: nat, words: seq<word>): (r: State)
    requires ValidState(d, f) && ps <= cur <= ps + 0xFF
    ensures ValidState(d, r)
  {
    ApplyAll(d, f, ProgramOps(d, 2 * cur, 2 * ps, cur - ps, |words|, words))
  }

  lemma {:induction false} LastWord(d: Device, f: State, cur: nat, ps: nat, w: word)
    requires ValidState(d, f) && ps <= cur <= ps + 0xFF
    ensures Finish(d, f, cur, ps, [w]) == Committed(d, f, cur, ps, w)
  {
    ApplyFirst(d, f, Fill(2 * cur, w), [Write(2 * ps)]);
    assert ProgramOps(d, 2 * cur, 2 * ps, cur - ps, 1, [w]) == [Fill(2 * cur, w)] + [Write(2 * ps)];
    ApplyFirst(d, Apply(d, f, Fill(2 * cur, w)), Write(2 * ps), []);
    assert [Write(2 * ps)] + [] == [Write(2 * ps)];
  }

  lemma {:induction false} PageFull(d: Device, f: State, cur: nat, ps: nat, words: seq<word>)
    requires ValidState(d, f) && |words| > 1 && ps <= cur < ps + 0xFF && cur - ps + 1 == d.pageWords
    ensures Finish(d, f, cur, ps, words) == Finish(d, Turned(d, f, cur, ps, words[0]), cur + 1, cur + 1, words[1..])
  {
    var rest := ProgramOps(d, 2 * cur + 2, 2 * cur + 2, 0, |words| - 1, words[1..]);
    var a, b, e := Fill(2 * cur, words[0]), Write(2 * ps), Erase(2 * cur + 2);
    ApplyFirst(d, f, a, [b] + ([e] + rest));
    ApplyFirst(d, Apply(d, f, a), b, [e] + rest);
    ApplyFirst(d, Committed(d, f, cur, ps, words[0]), e, rest);
    assert 2 * cur + 2 == 2 * (cur + 1);
  }

  lemma {:induction false} PageOpen(d: Device, f: State, cur: nat, ps: nat, words: seq<word>)
    requires ValidState(d, f) && |words| > 1 && ps <= cur < ps + 0xFF && cur - ps + 1 != d.pageWords
    ensures Finish(d, f, cur, ps, words) == Finish(d, Apply(d, f, Fill(2 * cur, words[0])), cur + 1, ps, words[1..])
  {
    assert 2 * cur + 2 == 2 * (cur + 1) && cur + 1 - ps == cur - ps + 1;
    ApplyFirst(d, f, Fill(2 * cur, words[0]), ProgramOps(d, 2 * (cur + 1), 2 * ps, cur + 1 - ps, |words| - 1, words[1..]));
  }

  // ----- downloads that keep to their pages

  /** The download starts on a page boundary, or it ends on the page it starts on. */
  predicate KeepsToPages(d: Device, n0: nat, n: nat)
    requires d.Valid()
  {
    FirstWord(d, n0) == n0 || n0 + n <= FirstWord(d, n0) + d.pageWords
  }

  lemma {:induction false} BufferWord(d: Device, f: State, n0: nat, done: seq<word>, w: word, i: nat)
    requires ValidState(d, f) && FirstWord(d, i) == FirstWord(d, n0 + |done|)
    requires BufferHolds(d, f, FirstWord(d, n0 + |done|), n0, done)
    ensures BitAnd(BLANK, Apply(d, f, Fill(2 * (n0 + |done|), w)).buffer[i - FirstWord(d, i)], 16) == ImageAt(n0, done + [w], i)
  {
    FillNext(d, f, n0, done, w);
    var o := i - FirstWord(d, i);
    assert Apply(d, f, Fill(2 * (n0 + |done|), w)).buffer[o] == ImageAt(n0, done + [w], FirstWord(d, i) + o);
    AndBlank(ImageAt(n0, done + [w], i));
  }

  /** Committing a page that was erased before puts the buffer's part of the image there and changes no other page. */
  lemma {:induction false} CommitWord(d: Device, f: State, ps: nat, n0: nat, done: seq<word>, w: word, i: nat)
    requires ValidState(d, f) && Exists(d, i)
    requires FirstWord(d, ps) == FirstWord(d, n0 + |done|)
    requires BufferHolds(d, f, FirstWord(d, n0 + |done|), n0, done)
    requires FirstWord(d, i) == FirstWord(d, ps) ==> WordIn(d, f, i) == BLANK
    ensures WordIn(d, Committed(d, f, n0 + |done|, ps, w), i)
            == if FirstWord(d, i) == FirstWord(d, ps) then ImageAt(n0, done + [w], i) else WordIn(d, f, i)
  {
    var cur := n0 + |done|;
    FilledWord(d, f, cur, w, i);
    WrittenWord(d, Apply(d, f, Fill(2 * cur, w)), ps, i);
    if FirstWord(d, i) == FirstWord(d, ps) {
      BufferWord(d, f, n0, done, w, i);
    }
  }

  /** The pages that a range of words covers are those whose words lie between the range's page bounds. */
  lemma {:induction false} OnPage(d: Device, a: nat, i: nat)
    requires d.Valid()
    ensures FirstWord(d, i) == FirstWord(d, a) <==> FirstWord(d, a) <= i < FirstWord(d, a) + d.pageWords
  {
    if FirstWord(d, a) <= i < FirstWord(d, a) + d.pageWords {
      PageUnique(d, a, i);
    }
  }

  ghost predicate Loading(d: Device, f: State, ps: nat, n0: nat, done: seq<word>, left: nat)
  {
    var cur := n0 + |done|;
    && ValidState(d, f) && d.pageWords <= 0xFF && left > 0
    && ps <= cur && FirstWord(d, ps) == FirstWord(d, cur)
    && (FirstWord(d, ps) == ps || cur + left <= FirstWord(d, ps) + d.pageWords)
    && BufferHolds(d, f, FirstWord(d, cur), n0, done)
  }

  /** The last word: the image is complete. */
  lemma {:induction false} LandLast(d: Device, f: State, ps: nat, cur: nat, n0: nat, done: seq<word>, w: word, image: seq<word>, i: nat)
    requires Loading(d, f, ps, n0, done, 1) && Exists(d, i) && cur == n0 + |done| && image == done + [w]
    requires FirstWord(d, i) == FirstWord(d, ps) ==> WordIn(d, f, i) == BLANK
    ensures WordIn(d, Committed(d, f, cur, ps, w), i) == Landed(d, f, cur, n0, image, i)
  {
    CommitWord(d, f, ps, n0, done, w, i);
    OnPage(d, cur, i);
  }

  /** The next word goes to the page that is being filled. */
  lemma {:induction false} LoadOpen(d: Device, f: State, ps: nat, n0: nat, done: seq<word>, w: word, left: nat)
    requires Loading(d, f, ps, n0, done, left) && left > 1 && n0 + |done| - ps + 1 != d.pageWords
    ensures Loading(d, Apply(d, f, Fill(2 * (n0 + |done|), w)), ps, n0, done + [w], left - 1)
  {
    var cur := n0 + |done|;
    assert cur - ps < d.pageWords;
    FillNext(d, f, n0, done, w);
    PageUnique(d, ps, cur + 1);
    assert n0 + |done + [w]| == cur + 1;
  }

  lemma {:induction false} LoadFull(d: Device, f: State, ps: nat, n0: nat, done: seq<word>, w: word, left: nat)
    requires Loading(d, f, ps, n0, done, left) && left > 1 && n0 + |done| - ps + 1 == d.pageWords
    ensures n0 + |done| + 1 == FirstWord(d, n0 + |done| + 1) == FirstWord(d, ps) + d.pageWords
    ensures Loading(d, Turned(d, f, n0 + |done|, ps, w), n0 + |done| + 1, n0, done + [w], left - 1)
  {
    var cur := n0 + |done|;
    assert cur + left > FirstWord(d, ps) + d.pageWords;
    NextPage(d, ps);
    var g := Turned(d, f, cur, ps, w);
    assert g.buffer == BlankPage(d);
    assert n0 + |done + [w]| == cur + 1;
    BlankBuffer(d, g, n0, done + [w]);
  }

  /** Turning the page: the committed page has its part of the image, the next page is blank. */
  lemma {:induction false} TurnedWord(d: Device, f: State, ps: nat, n0: nat, done: seq<word>, w: word, left: nat, i: nat)
    requires Loading(d, f, ps, n0, done, left) && left > 1 && n0 + |done| - ps + 1 == d.pageWords && Exists(d, i)
    requires FirstWord(d, i) == FirstWord(d, ps) ==> WordIn(d, f, i) == BLANK
    ensures WordIn(d, Turned(d, f, n0 + |done|, ps, w), i)
            == if FirstWord(d, i) == n0 + |done| + 1 then BLANK
               else if FirstWord(d, i) == FirstWord(d, ps) then ImageAt(n0, done + [w], i)
               else WordIn(d, f, i)
  {
    var cur := n0 + |done|;
    LoadFull(d, f, ps, n0, done, w, left);
    CommitWord(d, f, ps, n0, done, w, i);
    ErasedWord(d, Committed(d, f, cur, ps, w), cur + 1, i);
  }

  /** A word before the next page: the page that was turned holds its part of the image, and no other page changed. */
  lemma {:induction false} LandedBefore(
      d: Device, f: State, g: State, ps: nat, cur: nat, next: nat, n0: nat, image: seq<word>, i: nat)
    requires ValidState(d, f) && ValidState(d, g) && image != [] && FirstWord(d, ps) == FirstWord(d, cur)
    requires i < next == FirstWord(d, next) == FirstWord(d, ps) + d.pageWords <= n0 + |image| - 1
    requires WordIn(d, g, i) == if FirstWord(d, i) == FirstWord(d, ps) then ImageAt(n0, image, i) else WordIn(d, f, i)
    ensures Landed(d, g, next, n0, image, i) == Landed(d, f, cur, n0, image, i)
  {
    OnPage(d, ps, i);
    PageMonotone(d, next, n0 + |image| - 1);
  }

  /** A word from the next page on: it lies beyond the image, or the image is still to come there. */
  lemma {:induction false} LandedBehind(
      d: Device, f: State, g: State, ps: nat, cur: nat, next: nat, n0: nat, image: seq<word>, i: nat)
    requires ValidState(d, f) && ValidState(d, g) && image != [] && FirstWord(d, ps) == FirstWord(d, cur)
    requires next == FirstWord(d, next) == FirstWord(d, ps) + d.pageWords <= n0 + |image| - 1 && next <= i
    requires FirstWord(d, i) != next ==> WordIn(d, g, i) == WordIn(d, f, i)
    ensures Landed(d, g, next, n0, image, i) == Landed(d, f, cur, n0, image, i)
  {
    OnPage(d, next, i);
    PageMonotone(d, next, n0 + |image| - 1);
  }

  lemma {:induction false} OtherPage(d: Device, ps: nat, next: nat, i: nat)
    requires d.Valid() && next == FirstWord(d, ps) + d.pageWords
    ensures i < next ==> FirstWord(d, i) != next
    ensures next <= i ==> FirstWord(d, i) != FirstWord(d, ps)
  {
    OnPage(d, ps, i);
  }

  lemma {:induction false} LandedTurned(
      d: Device, f: State, ps: nat, cur: nat, n0: nat, done: seq<word>, words: seq<word>, image: seq<word>, i: nat)
    requires Loading(d, f, ps, n0, done, |words|) && |words| > 1 && cur == n0 + |done| && cur - ps + 1 == d.pageWords && Exists(d, i)
    requires (FirstWord(d, i) == FirstWord(d, ps) ==> WordIn(d, f, i) == BLANK) && image == done + words
    ensures Landed(d, Turned(d, f, cur, ps, words[0]), cur + 1, n0, image, i) == Landed(d, f, cur, n0, image, i)
  {
    var w := words[0];
    var g := Turned(d, f, cur, ps, w);
    LoadFull(d, f, ps, n0, done, w, |words|);
    TurnedWord(d, f, ps, n0, done, w, |words|, i);
    OtherPage(d, ps, cur + 1, i);
    if i < cur + 1 {
      assert ImageAt(n0, done + [w], i) == ImageAt(n0, image, i);
      LandedBefore(d, f, g, ps, cur, cur + 1, n0, image, i);
    } else {
      LandedBehind(d, f, g, ps, cur, cur + 1, n0, image, i);
    }
  }

  lemma {:induction false} LandedOpen(d: Device, f: State, ps: nat, cur: nat, n0: nat, w: word, image: seq<word>, i: nat)
    requires ValidState(d, f) && image != [] && FirstWord(d, ps) == FirstWord(d, cur)
    requires ps <= cur && cur + 1 < FirstWord(d, ps) + d.pageWords
    ensures Landed(d, Apply(d, f, Fill(2 * cur, w)), cur + 1, n0, image, i) == Landed(d, f, cur, n0, image, i)
  {
    PageUnique(d, ps, cur + 1);
    FilledWord(d, f, cur, w, i);
  }

  /** The loop goes on with the next page, which is blank, and with the rest of the words. */
  lemma {:induction false} TurnPage(
      d: Device, f: State, ps: nat, cur: nat, n0: nat, done: seq<word>, words: seq<word>, image: seq<word>, i: nat)
    returns (g: State, next: nat, done': seq<word>, rest: seq<word>)
    requires Loading(d, f, ps, n0, done, |words|) && Exists(d, i) && image == done + words && cur == n0 + |done|
    requires FirstWord(d, i) == FirstWord(d, ps) ==> WordIn(d, f, i) == BLANK
    requires |words| > 1 && cur - ps + 1 == d.pageWords
    ensures Loading(d, g, next, n0, done', |rest|) && image == done' + rest && next == n0 + |done'| && |rest| < |words|
    ensures FirstWord(d, i) == FirstWord(d, next) ==> WordIn(d, g, i) == BLANK
    ensures cur <= ps + 0xFF && Finish(d, f, cur, ps, words) == Finish(d, g, next, next, rest)
    ensures Landed(d, g, next, n0, image, i) == Landed(d, f, cur, n0, image, i)
  {
    g, next, done', rest := Turned(d, f, cur, ps, words[0]), cur + 1, done + [words[0]], words[1..];
    LoadFull(d, f, ps, n0, done, words[0], |words|);
    TurnedWord(d, f, ps, n0, done, words[0], |words|, i);
    PageFull(d, f, cur, ps, words);
    LandedTurned(d, f, ps, cur, n0, done, words, image, i);
  }

  lemma {:induction false} TurnAndLand(
      d: Device, f: State, ps: nat, cur: nat, n0: nat, done: seq<word>, words: seq<word>, image: seq<word>, i: nat) returns (r: State)
    requires Loading(d, f, ps, n0, done, |words|) && Exists(d, i) && image == done + words && cur == n0 + |done|
    requires FirstWord(d, i) == FirstWord(d, ps) ==> WordIn(d, f, i) == BLANK
    requires |words| > 1 && cur - ps + 1 == d.pageWords
    ensures cur <= ps + 0xFF && r == Finish(d, f, cur, ps, words)
    ensures WordIn(d, r, i) == Landed(d, f, cur, n0, image, i)
    decreases |words|, 0
  {
    var g, next, done', rest := TurnPage(d, f, ps, cur, n0, done, words, image, i);
    r := LoopLands(d, g, next, next, n0, done', rest, image, i);
  }

  lemma {:induction false} FillAndLand(
      d: Device, f: State, ps: nat, cur: nat, n0: nat, done: seq<word>, words: seq<word>, image: seq<word>, i: nat) returns (r: State)
    requires Loading(d, f, ps, n0, done, |words|) && Exists(d, i) && image == done + words && cur == n0 + |done|
    requires FirstWord(d, i) == FirstWord(d, ps) ==> WordIn(d, f, i) == BLANK
    requires |words| > 1 && cur - ps + 1 < d.pageWords
    ensures cur <= ps + 0xFF && r == Finish(d, f, cur, ps, words)
    ensures WordIn(d, r, i) == Landed(d, f, cur, n0, image, i)
    decreases |words|, 0
  {
    var w := words[0];
    LoadOpen(d, f, ps, n0, done, w, |words|);
    FilledWord(d, f, cur, w, i);
    r := LoopLands(d, Apply(d, f, Fill(2 * cur, w)), ps, cur + 1, n0, done + [w], words[1..], image, i);
    PageOpen(d, f, cur, ps, words);
    LandedOpen(d, f, ps, cur, n0, w, image, i);
  }

  /** The download loop puts every word of the image where it belongs, and blanks the rest of the pages it uses. */
  lemma {:induction false} LoopLands(
      d: Device, f: State, ps: nat, cur: nat, n0: nat, done: seq<word>, words: seq<word>, image: seq<word>, i: nat) returns (r: State)
    requires Loading(d, f, ps, n0, done, |words|) && Exists(d, i) && image == done + words && cur == n0 + |done|
    requires FirstWord(d, i) == FirstWord(d, ps) ==> WordIn(d, f, i) == BLANK
    ensures cur <= ps + 0xFF && r == Finish(d, f, cur, ps, words)
    ensures WordIn(d, r, i) == Landed(d, f, cur, n0, image, i)
    decreases |words|, 1
  {
    assert cur - ps < d.pageWords;
    if |words| == 1 {
      assert words == [words[0]];
      LastWord(d, f, cur, ps, words[0]);
      LandLast(d, f, ps, cur, n0, done, words[0], image, i);
      r := Committed(d, f, cur, ps, words[0]);
    } else if cur - ps + 1 == d.pageWords {
      r := TurnAndLand(d, f, ps, cur, n0, done, words, image, i);
    } else {
      r := FillAndLand(d, f, ps, cur, n0, done, words, image, i);
    }
  }

  lemma {:induction false} LandedErased(d: Device, f: State, n0: nat, words: seq<word>, i: nat)
    requires ValidState(d, f) && words != []
    ensures Landed(d, Apply(d, f, Erase(2 * n0)), n0, n0, words, i) == Landed(d, f, n0, n0, words, i)
  {
    ErasedWord(d, f, n0, i);
    OnPage(d, n0, i);
    PageMonotone(d, n0, n0 + |words| - 1);
  }

  /** After a download that keeps to its pages: the image on the pages it uses, and no other page changed. */
  lemma {:induction false} DownloadWord(d: Device, f: State, n0: nat, words: seq<word>, i: nat)
    requires ValidState(d, f) && d.pageWords <= 0xFF && f.buffer == BlankPage(d)
    requires words != [] && KeepsToPages(d, n0, |words|) && Exists(d, i)
    ensures WordIn(d, Downloaded(d, f, n0, words), i) == Landed(d, f, n0, n0, words, i)
  {
    ErasedWord(d, f, n0, i);
    var r := LoopLands(d, Apply(d, f, Erase(2 * n0)), n0, n0, n0, [], words, words, i);
    LandedErased(d, f, n0, words, i);
  }
}
