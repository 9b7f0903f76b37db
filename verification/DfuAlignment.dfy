/** Exactly which downloads always land: those that keep to their pages. */
module DfuAlignment {
  import opened Flash
  import opened FlashWords
  import opened DfuState
  import opened DfuDownload

  ghost predicate BlankFrom(words: seq<word>, k: int)
  {
    forall j: nat :: k <= j < |words| ==> words[j] == BLANK
  }

  /** The loop is on its first page with blank words to follow, or it has only blank words to put anywhere. */
  ghost predicate Harmless(d: Device, f: State, p0: nat, ps: nat, cur: nat, words: seq<word>)
    requires ValidState(d, f)
  {
    || (FirstWord(d, ps) == p0 && BlankFrom(words, ps + d.pageWords - cur))
    || (f.buffer == BlankPage(d) && BlankFrom(words, 0))
  }

  lemma {:induction false} CommitHarmless(d: Device, f: State, p0: nat, ps: nat, cur: nat, words: seq<word>, i: nat)
    requires ValidState(d, f) && words != [] && Harmless(d, f, p0, ps, cur, words)
    requires Exists(d, i) && FirstWord(d, i) != p0 && WordIn(d, f, i) == BLANK
    ensures WordIn(d, Committed(d, f, cur, ps, words[0]), i) == BLANK
  {
    var g := Apply(d, f, Fill(2 * cur, words[0]));
    FilledWord(d, f, cur, words[0], i);
    WrittenWord(d, g, ps, i);
    AndBlank(BLANK);
  }

  lemma {:induction false} FillHarmless(d: Device, f: State, p0: nat, ps: nat, cur: nat, words: seq<word>)
    requires ValidState(d, f) && words != [] && Harmless(d, f, p0, ps, cur, words)
    ensures Harmless(d, Apply(d, f, Fill(2 * cur, words[0])), p0, ps, cur + 1, words[1..])
  {
    if f.buffer == BlankPage(d) && BlankFrom(words, 0) {
      assert f.buffer[OffsetOf(d, 2 * cur) := BLANK] == BlankPage(d);
      assert words[0] == BLANK;
    }
  }

  /** A word off the first page that is blank stays blank. */
  lemma {:induction false} StaysBlank(d: Device, f: State, p0: nat, ps: nat, cur: nat, words: seq<word>, i: nat)
    requires ValidState(d, f) && d.pageWords <= 0xFF && ps <= cur < ps + d.pageWords && words != []
    requires Harmless(d, f, p0, ps, cur, words)
    requires Exists(d, i) && FirstWord(d, i) != p0 && WordIn(d, f, i) == BLANK
    ensures WordIn(d, Finish(d, f, cur, ps, words), i) == BLANK
    decreases |words|
  {
    CommitHarmless(d, f, p0, ps, cur, words, i);
    if |words| == 1 {
      assert words == [words[0]];
      LastWord(d, f, cur, ps, words[0]);
    } else if cur - ps + 1 == d.pageWords {
      PageFull(d, f, cur, ps, words);
      ErasedWord(d, Committed(d, f, cur, ps, words[0]), cur + 1, i);
      assert BlankFrom(words[1..], 0);
      StaysBlank(d, Turned(d, f, cur, ps, words[0]), p0, cur + 1, cur + 1, words[1..], i);
    } else {
      PageOpen(d, f, cur, ps, words);
      FillHarmless(d, f, p0, ps, cur, words);
      FilledWord(d, f, cur, words[0], i);
      StaysBlank(d, Apply(d, f, Fill(2 * cur, words[0])), p0, ps, cur + 1, words[1..], i);
    }
  }

  /** One zero, in the first word beyond the page that the download starts on. */
  function OneZero(n: nat, z: nat): (words: seq<word>)
    requires z < n
    ensures |words| == n && words[z] == 0 && BlankFrom(words, z + 1)
  {
    seq(n, j requires 0 <= j < n => if j == z then 0 else BLANK)
  }

  /** A download that runs over the end of a page it did not start at the beginning of loses words. */
  lemma {:induction false} MisalignedLost(d: Device, n0: nat, n: nat) returns (words: seq<word>)
    requires d.Valid() && d.pageWords <= 0xFF && 0 < n && Exists(d, n0 + n - 1) && !KeepsToPages(d, n0, n)
    ensures |words| == n && !Holds(d, Downloaded(d, BlankFlash(d), n0, words), n0, words)
  {
    var p0 := FirstWord(d, n0);
    var z := p0 + d.pageWords - n0;
    words := OneZero(n, z);
    var f := BlankFlash(d);
    var g := Apply(d, f, Erase(2 * n0));
    var i := n0 + z;
    NextPage(d, n0);
    ExistsBelow(d, i, n0 + n - 1);
    ErasedWord(d, f, n0, i);
    StaysBlank(d, g, p0, n0, n0, words, i);
    assert WordIn(d, Downloaded(d, f, n0, words), n0 + z) != words[z];
  }

  lemma {:induction false} ExistsBelow(d: Device, i: nat, j: nat)
    requires d.Valid() && i <= j && Exists(d, j)
    ensures Exists(d, i)
  {
    PagesGrow(d, 2 * i, 2 * j);
  }

  lemma {:induction false} PagesGrow(d: Device, a: nat, b: nat)
    requires d.Valid() && a <= b
    ensures PageOf(d, a) <= PageOf(d, b)
    decreases a
  {
    if a < d.PageSize() {
    } else {
      PagesGrow(d, a - d.PageSize(), b - d.PageSize());
    }
  }

  lemma {:induction false} AlignedHeld(d: Device, f: State, n0: nat, words: seq<word>)
    requires ValidState(d, f) && d.pageWords <= 0xFF && f.buffer == BlankPage(d)
    requires words != [] && Exists(d, n0 + |words| - 1) && KeepsToPages(d, n0, |words|)
    ensures Holds(d, Downloaded(d, f, n0, words), n0, words)
  {
    forall k | 0 <= k < |words| ensures WordIn(d, Downloaded(d, f, n0, words), n0 + k) == words[k] {
      ExistsBelow(d, n0 + k, n0 + |words| - 1);
      DownloadWord(d, f, n0, words, n0 + k);
    }
  }

  lemma {:induction false} AlignedLoaded(d: Device, f: State, n0: nat, words: seq<word>)
    requires ValidState(d, f) && d.pageWords <= 0xFF && f.buffer == BlankPage(d)
    requires words != [] && KeepsToPages(d, n0, |words|)
    ensures Loaded(d, f, Downloaded(d, f, n0, words), n0, words)
  {
    forall i: nat | Exists(d, i) ensures WordIn(d, Downloaded(d, f, n0, words), i) == Landed(d, f, n0, n0, words, i) {
      DownloadWord(d, f, n0, words, i);
    }
  }

  /** Whatever the flash held and whatever the words are, the download puts them in place. */
  ghost predicate AlwaysLands(d: Device, n0: nat, n: nat)
    requires d.Valid()
  {
    forall f, words: seq<word> :: ValidState(d, f) && f.buffer == BlankPage(d) && |words| == n
      ==> Holds(d, Downloaded(d, f, n0, words), n0, words)
  }

  /** A download lands for certain if and only if it starts a page or ends on the page it starts on. */
  lemma {:induction false} AlwaysLandsIff(d: Device, n0: nat, n: nat)
    requires d.Valid() && d.pageWords <= 0xFF && 0 < n && Exists(d, n0 + n - 1)
    ensures AlwaysLands(d, n0, n) <==> KeepsToPages(d, n0, n)
  {
    if KeepsToPages(d, n0, n) {
      forall f, words: seq<word> | ValidState(d, f) && f.buffer == BlankPage(d) && |words| == n
        ensures Holds(d, Downloaded(d, f, n0, words), n0, words)
      {
        AlignedHeld(d, f, n0, words);
      }
    } else {
      var words := MisalignedLost(d, n0, n);
    }
  }
}
