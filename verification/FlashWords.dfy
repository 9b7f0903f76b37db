/** The flash seen by word index: word `i` lies at byte address 2 * i. */
module FlashWords {
  import opened Flash

  /** Index of the first word of the page that holds word `i`. */
  function FirstWord(d: Device, i: nat): (n: nat)
    requires d.Valid()
    ensures n <= i < n + d.pageWords
    decreases i
  {
    if i < d.pageWords then 0 else d.pageWords + FirstWord(d, i - d.pageWords)
  }

  lemma {:induction false} WordPlace(d: Device, i: nat)
    requires d.Valid()
    ensures PageStart(d, 2 * i) == 2 * FirstWord(d, i)
    ensures OffsetOf(d, 2 * i) == i - FirstWord(d, i)
    decreases i
  {
    if i < d.pageWords {
    } else {
      WordPlace(d, i - d.pageWords);
      assert 2 * i - d.PageSize() == 2 * (i - d.pageWords);
    }
  }

  lemma {:induction false} PageUnique(d: Device, a: nat, x: nat)
    requires d.Valid() && FirstWord(d, a) <= x < FirstWord(d, a) + d.pageWords
    ensures FirstWord(d, x) == FirstWord(d, a) && PageOf(d, 2 * x) == PageOf(d, 2 * a)
    decreases a
  {
    if a < d.pageWords {
    } else {
      PageUnique(d, a - d.pageWords, x - d.pageWords);
      assert 2 * a - d.PageSize() == 2 * (a - d.pageWords) && 2 * x - d.PageSize() == 2 * (x - d.pageWords);
    }
  }

  lemma {:induction false} PageMonotone(d: Device, a: nat, b: nat)
    requires d.Valid() && a <= b
    ensures FirstWord(d, a) <= FirstWord(d, b)
    decreases a
  {
    if a < d.pageWords {
    } else {
      PageMonotone(d, a - d.pageWords, b - d.pageWords);
    }
  }

  lemma {:induction false} SamePage(d: Device, x: nat, y: nat)
    requires d.Valid()
    ensures PageOf(d, 2 * x) == PageOf(d, 2 * y) <==> FirstWord(d, x) == FirstWord(d, y)
  {
    PageStartIsMultiple(d, 2 * x);
    PageStartIsMultiple(d, 2 * y);
    WordPlace(d, x);
    WordPlace(d, y);
    if FirstWord(d, x) == FirstWord(d, y) {
      PageUnique(d, y, x);
    }
  }

  lemma {:induction false} NextPage(d: Device, a: nat)
    requires d.Valid()
    ensures FirstWord(d, FirstWord(d, a) + d.pageWords) == FirstWord(d, a) + d.pageWords
    decreases a
  {
    if a < d.pageWords {
    } else {
      NextPage(d, a - d.pageWords);
    }
  }

  /** The next word lies on the same page, or it starts the next one. */
  lemma {:induction false} NextWord(d: Device, a: nat)
    requires d.Valid()
    ensures FirstWord(d, a + 1) == FirstWord(d, a) || FirstWord(d, a + 1) == a + 1 == FirstWord(d, a) + d.pageWords
  {
    if a + 1 < FirstWord(d, a) + d.pageWords {
      PageUnique(d, a, a + 1);
    } else {
      NextPage(d, a);
    }
  }

  /** Word `i` of the flash. */
  function WordIn(d: Device, f: State, i: nat): (w: word)
    requires ValidState(d, f)
  {
    WordAt(d, f, 2 * i)
  }

  /** Word `i` is part of the flash. */
  ghost predicate Exists(d: Device, i: nat)
    requires d.Valid()
  {
    PageOf(d, 2 * i) < d.pages
  }

  // ----- what an operation does to a word

  lemma {:induction false} ErasedWord(d: Device, f: State, a: nat, i: nat)
    requires ValidState(d, f)
    ensures WordIn(d, Apply(d, f, Erase(2 * a)), i) == if FirstWord(d, i) == FirstWord(d, a) then BLANK else WordIn(d, f, i)
  {
    SamePage(d, i, a);
  }

  lemma {:induction false} FilledWord(d: Device, f: State, a: nat, w: word, i: nat)
    requires ValidState(d, f)
    ensures WordIn(d, Apply(d, f, Fill(2 * a, w)), i) == WordIn(d, f, i)
  {
  }

  lemma {:induction false} WrittenWord(d: Device, f: State, a: nat, i: nat)
    requires ValidState(d, f) && Exists(d, i)
    ensures WordIn(d, Apply(d, f, Write(2 * a)), i)
            == if FirstWord(d, i) == FirstWord(d, a) then BitAnd(WordIn(d, f, i), f.buffer[i - FirstWord(d, i)], 16) else WordIn(d, f, i)
  {
    SamePage(d, i, a);
    WordPlace(d, i);
  }

  // ----- the section below the bootloader

  /** The application section lies within the flash. */
  ghost predicate SectionFits(d: Device)
  {
    d.Valid() && d.bootStart <= d.pages * d.PageSize()
  }

  lemma FewerPages(p: nat, pages: nat, size: nat)
    requires p * size < pages * size
    ensures p < pages
  {
  }

  lemma {:induction false} InSection(d: Device, i: nat)
    requires SectionFits(d) && 2 * i < d.bootStart
    ensures Exists(d, i)
  {
    PageStartIsMultiple(d, 2 * i);
    FewerPages(PageOf(d, 2 * i), d.pages, d.PageSize());
  }

  // ----- an image in the flash

  /** The word an image from word `n0` on has at word `i`, all ones outside of it. */
  function ImageAt(n0: nat, ws: seq<word>, i: nat): (w: word)
  {
    if n0 <= i < n0 + |ws| then ws[i - n0] else BLANK
  }

  ghost predicate Holds(d: Device, f: State, n0: nat, ws: seq<word>)
    requires ValidState(d, f)
  {
    forall k :: 0 <= k < |ws| ==> WordIn(d, f, n0 + k) == ws[k]
  }

  /** The flash holds these bytes, from a byte address on. */
  ghost predicate HoldsBytes(d: Device, f: State, a: nat, bytes: seq<byte>)
    requires ValidState(d, f)
  {
    forall k: nat :: k < |bytes| ==> ByteAt(d, f, a + k) == bytes[k]
  }

  /** Byte `k` behind word `n0`: the low byte of a word has the even address. */
  lemma {:induction false} ByteOfWord(d: Device, f: State, n0: nat, k: nat)
    requires ValidState(d, f)
    ensures ByteAt(d, f, 2 * n0 + k) == if k % 2 == 0 then WordIn(d, f, n0 + k / 2) % 0x100 else WordIn(d, f, n0 + k / 2) / 0x100
  {
    if k % 2 == 0 {
      assert 2 * n0 + k == 2 * (n0 + k / 2);
    } else {
      assert 2 * n0 + k - 1 == 2 * (n0 + k / 2);
    }
  }

  /** The page buffer holds what the image has on the page from word `first` on. */
  ghost predicate BufferHolds(d: Device, f: State, first: nat, n0: nat, ws: seq<word>)
    requires ValidState(d, f)
  {
    forall o :: 0 <= o < d.pageWords ==> f.buffer[o] == ImageAt(n0, ws, first + o)
  }

  /** Filling the next word of the image in. */
  lemma {:induction false} FillNext(d: Device, f: State, n0: nat, ws: seq<word>, w: word)
    requires ValidState(d, f) && BufferHolds(d, f, FirstWord(d, n0 + |ws|), n0, ws)
    ensures BufferHolds(d, Apply(d, f, Fill(2 * (n0 + |ws|), w)), FirstWord(d, n0 + |ws|), n0, ws + [w])
  {
    WordPlace(d, n0 + |ws|);
  }

  lemma {:induction false} BlankBuffer(d: Device, f: State, n0: nat, ws: seq<word>)
    requires ValidState(d, f) && f.buffer == BlankPage(d)
    ensures BufferHolds(d, f, n0 + |ws|, n0, ws)
  {
  }

  /**
   What word `i` is after an image from word `n0` on was put into flash `f`, or the part of it from word `from` on: the
   image, all ones elsewhere on the pages that were used, and what it was on all other pages.
   */
  function Landed(d: Device, f: State, from: nat, n0: nat, image: seq<word>, i: nat): (w: word)
    requires ValidState(d, f) && image != []
  {
    if FirstWord(d, from) <= i < FirstWord(d, n0 + |image| - 1) + d.pageWords then ImageAt(n0, image, i) else WordIn(d, f, i)
  }

  /** Flash `r` is flash `f` with the image in place, the rest of its pages blank, and no other page changed. */
  ghost predicate Loaded(d: Device, f: State, r: State, n0: nat, image: seq<word>)
    requires ValidState(d, f) && ValidState(d, r) && image != []
  {
    forall i: nat :: Exists(d, i) ==> WordIn(d, r, i) == Landed(d, f, n0, n0, image, i)
  }

  /** A word lies below a page boundary if and only if its page does. */
  lemma {:induction false} BelowPage(d: Device, m: nat, i: nat)
    requires d.Valid() && FirstWord(d, m) == m
    ensures i < m <==> FirstWord(d, i) < m
  {
    if m <= i {
      PageMonotone(d, m, i);
    }
  }

  // ----- the words are all there is

  lemma {:induction false} WordIndex(d: Device, p: nat, o: nat)
    requires d.Valid() && o < d.pageWords
    ensures PageOf(d, 2 * (p * d.pageWords + o)) == p && OffsetOf(d, 2 * (p * d.pageWords + o)) == o
    decreases p
  {
    if p == 0 {
      assert 0 * d.pageWords == 0;
    } else {
      OneMorePage(p - 1, d.pageWords);
      WordIndex(d, p - 1, o);
      assert 2 * (p * d.pageWords + o) - d.PageSize() == 2 * ((p - 1) * d.pageWords + o);
    }
  }

  ghost predicate SameWords(d: Device, f: State, g: State)
    requires ValidState(d, f) && ValidState(d, g)
  {
    forall i: nat :: Exists(d, i) ==> WordIn(d, f, i) == WordIn(d, g, i)
  }

  lemma {:induction false} SamePages(d: Device, f: State, g: State, p: nat)
    requires ValidState(d, f) && ValidState(d, g) && SameWords(d, f, g) && p < d.pages
    ensures f.pages[p] == g.pages[p]
  {
    forall o: nat | o < d.pageWords ensures f.pages[p][o] == g.pages[p][o] {
      WordIndex(d, p, o);
      assert WordIn(d, f, p * d.pageWords + o) == WordIn(d, g, p * d.pageWords + o);
    }
  }

  lemma {:induction false} SameFlash(d: Device, f: State, g: State)
    requires ValidState(d, f) && ValidState(d, g) && SameWords(d, f, g) && f.buffer == g.buffer
    ensures f == g
  {
    forall p: nat | p < d.pages ensures f.pages[p] == g.pages[p] {
      SamePages(d, f, g, p);
    }
    assert f.pages == g.pages;
  }
}
