/** Secure mode: nothing is programmed and nothing is revealed before the application section was erased. */
module DfuSecure {
  import opened Flash
  import opened FlashWords
  import opened DfuState
  import opened DfuRequests
  import opened DfuErase

  /** The states of a bootloader whose memory is protected. */
  predicate Locked(s: Dfu)
  {
    s.isSecure && !s.waitForExit && (s.mode == DfuIdle || s.mode == DfuError)
  }

  /** An output that gives no flash or EEPROM contents away. */
  predicate RevealsNothing(o: Output)
  {
    !o.FlashWord? && !o.EepromByte?
  }

  ghost predicate NothingRevealed(out: seq<Output>)
  {
    forall i :: 0 <= i < |out| ==> RevealsNothing(out[i])
  }

  ghost predicate SameMemory(s: Dfu, t: Dfu)
  {
    t.flash == s.flash && t.eeprom == s.eeprom
  }

  /** The step that unlocks: the whole application section was erased, and nothing else happened to the memories. */
  ghost predicate Unlocked(c: Config, s: Dfu, t: Dfu)
    requires Valid(c, s)
  {
    && !t.isSecure && !t.waitForExit && (t.mode == DfuIdle || t.mode == DfuError)
    && t.flash == ErasedFlash(c.d, s.flash) && t.eeprom == s.eeprom
  }

  lemma {:induction false} LockedCommand(c: Config, s: Dfu)
    requires Valid(c, s) && Locked(s)
    ensures var t := ProcessCommand(c, s);
            (Locked(t) && SameMemory(s, t) && !IsErase(s.cmd)) || (Unlocked(c, s, t) && IsErase(s.cmd))
  {
  }

  /** A request to a locked bootloader leaves both memories alone and the bootloader locked, or it erases the section. */
  lemma {:induction false} LockedStep(c: Config, s: Dfu, r: Request)
    requires Valid(c, s) && WellFormed(r) && Locked(s)
    ensures var t := Handle(c, s, r); (Locked(t) && SameMemory(s, t)) || Unlocked(c, s, t)
  {
    if r.kind == Dnload && r.wLength != 0 && r.packet != [] {
      var s1 := s.(cmd := s.cmd.(dataSize := r.wLength));
      LockedCommand(c, s1.(cmd := LoadCommand(s1.cmd, r.packet)));
    }
  }

  lemma {:induction false} LockedSent(c: Config, s: Dfu, r: Request)
    requires Valid(c, s) && Locked(s)
    ensures NothingRevealed(Sent(c, s, r))
  {
  }

  /** Handling the first `k` requests and the ones after them. */
  lemma {:induction false} HandleSplit(c: Config, s: Dfu, rs: seq<Request>, k: nat)
    requires Valid(c, s) && AllWellFormed(rs) && 0 < k <= |rs|
    ensures HandleAll(c, s, rs[..k]) == HandleAll(c, Handle(c, s, rs[0]), rs[1..][..k - 1])
    ensures SentAll(c, s, rs[..k]) == Sent(c, s, rs[0]) + SentAll(c, Handle(c, s, rs[0]), rs[1..][..k - 1])
  {
    assert rs[..k][1..] == rs[1..][..k - 1];
  }

  /** After `k` requests the bootloader is still locked, its memories are untouched and nothing was revealed. */
  ghost predicate SafeUpTo(c: Config, s: Dfu, rs: seq<Request>, k: nat)
    requires Valid(c, s) && AllWellFormed(rs) && k <= |rs|
  {
    Locked(HandleAll(c, s, rs[..k])) && SameMemory(s, HandleAll(c, s, rs[..k])) && NothingRevealed(SentAll(c, s, rs[..k]))
  }

  lemma {:induction false} SafeStart(c: Config, s: Dfu, rs: seq<Request>)
    requires Valid(c, s) && AllWellFormed(rs) && Locked(s)
    ensures SafeUpTo(c, s, rs, 0)
  {
    assert rs[..0] == [];
  }

  lemma {:induction false} SafeAfter(c: Config, s: Dfu, rs: seq<Request>, k: nat)
    requires Valid(c, s) && AllWellFormed(rs) && 0 < k <= |rs| && Locked(s)
    requires SameMemory(s, Handle(c, s, rs[0])) && SafeUpTo(c, Handle(c, s, rs[0]), rs[1..], k - 1)
    ensures SafeUpTo(c, s, rs, k)
  {
    HandleSplit(c, s, rs, k);
    LockedSent(c, s, rs[0]);
  }

  /**
   Every run of a locked bootloader: up to some request `k` it stays locked, in the idle or the error state, with both
   memories untouched and nothing revealed; and if the run goes on after that, request `k` erased the application section.
   */
  lemma {:induction false} SecureRun(c: Config, s: Dfu, rs: seq<Request>) returns (k: nat)
    requires Valid(c, s) && AllWellFormed(rs) && Locked(s)
    ensures k <= |rs| && (forall j: nat :: j <= k ==> SafeUpTo(c, s, rs, j))
    ensures k < |rs| ==> Unlocked(c, HandleAll(c, s, rs[..k]), HandleAll(c, s, rs[..k + 1]))
    decreases |rs|
  {
    k := 0;
    SafeStart(c, s, rs);
    if rs == [] {
    } else {
      var t := Handle(c, s, rs[0]);
      LockedStep(c, s, rs[0]);
      HandleSplit(c, s, rs, 1);
      if Locked(t) {
        var m := SecureRun(c, t, rs[1..]);
        k := m + 1;
        forall j: nat | j <= k ensures SafeUpTo(c, s, rs, j) {
          if j > 0 {
            SafeAfter(c, s, rs, j);
          }
        }
        HandleSplit(c, s, rs, k);
        if k < |rs| {
          HandleSplit(c, s, rs, k + 1);
        }
      } else {
        assert rs[1..][..0] == [] && rs[..0] == [];
      }
    }
  }

  /** With an empty page buffer at the start, the section is blank when the run stops being safe. */
  lemma {:induction false} UnlockedIsBlank(c: Config, s: Dfu, rs: seq<Request>) returns (k: nat)
    requires Valid(c, s) && AllWellFormed(rs) && Locked(s)
    requires SectionFits(c.d) && c.d.bootStart % 2 == 0 && BufferClean(c.d, s.flash)
    ensures k <= |rs| && (forall j: nat :: j <= k ==> SafeUpTo(c, s, rs, j))
    ensures k < |rs| ==> !HandleAll(c, s, rs[..k + 1]).isSecure && SectionBlank(c.d, HandleAll(c, s, rs[..k + 1]).flash)
  {
    k := SecureRun(c, s, rs);
    assert SafeUpTo(c, s, rs, k);
    EraseBlanksIff(c.d, s.flash);
  }

  // ----- once unlocked, always unlocked

  lemma {:induction false} CommandStaysUnlocked(c: Config, s: Dfu)
    requires Valid(c, s) && !s.isSecure
    ensures !ProcessCommand(c, s).isSecure
  {
  }

  lemma {:induction false} StepStaysUnlocked(c: Config, s: Dfu, r: Request)
    requires Valid(c, s) && WellFormed(r) && !s.isSecure
    ensures !Handle(c, s, r).isSecure
  {
    if r.kind == Dnload {
      var s1 := s.(cmd := s.cmd.(dataSize := r.wLength));
      CommandKept(c, s1);
      CommandStaysUnlocked(c, s1);
      var t := FinishExit(c, s1);
      if t.cmd.dataSize != 0 && r.packet != [] {
        CommandStaysUnlocked(c, t.(cmd := LoadCommand(t.cmd, r.packet)));
      }
    }
  }

  lemma {:induction false} StaysUnlocked(c: Config, s: Dfu, rs: seq<Request>)
    requires Valid(c, s) && AllWellFormed(rs) && !s.isSecure
    ensures !HandleAll(c, s, rs).isSecure
    decreases |rs|
  {
    if rs == [] {
    } else {
      StepStaysUnlocked(c, s, rs[0]);
      StaysUnlocked(c, Handle(c, s, rs[0]), rs[1..]);
    }
  }

  /** A run is its first `k` requests and then the others. */
  lemma {:induction false} RunInParts(c: Config, s: Dfu, rs: seq<Request>, k: nat)
    requires Valid(c, s) && AllWellFormed(rs) && k <= |rs|
    ensures HandleAll(c, s, rs) == HandleAll(c, HandleAll(c, s, rs[..k]), rs[k..])
    ensures SentAll(c, s, rs[..k]) <= SentAll(c, s, rs)
    decreases k
  {
    if k == 0 {
      assert rs[..0] == [] && rs[0..] == rs;
    } else {
      HandleSplit(c, s, rs, k);
      RunInParts(c, Handle(c, s, rs[0]), rs[1..], k - 1);
      assert rs[1..][k - 1..] == rs[k..];
    }
  }

  /** A bootloader that is secure at the end of a run was so all the time. */
  lemma {:induction false} SecureToTheEnd(c: Config, s: Dfu, rs: seq<Request>, k: nat)
    requires Valid(c, s) && AllWellFormed(rs) && k < |rs| && !HandleAll(c, s, rs[..k + 1]).isSecure
    ensures !HandleAll(c, s, rs).isSecure
  {
    RunInParts(c, s, rs, k + 1);
    StaysUnlocked(c, HandleAll(c, s, rs[..k + 1]), rs[k + 1..]);
  }

  lemma {:induction false} StillSafe(c: Config, s: Dfu, rs: seq<Request>)
    requires Valid(c, s) && AllWellFormed(rs) && SafeUpTo(c, s, rs, |rs|)
    ensures Locked(HandleAll(c, s, rs)) && SameMemory(s, HandleAll(c, s, rs)) && NothingRevealed(SentAll(c, s, rs))
  {
    assert rs[..|rs|] == rs;
  }

  lemma {:induction false} SafePart(c: Config, s: Dfu, rs: seq<Request>, k: nat) returns (safe: nat)
    requires Valid(c, s) && AllWellFormed(rs) && k <= |rs| && SafeUpTo(c, s, rs, k)
    ensures safe <= |SentAll(c, s, rs)| && SentAll(c, s, rs[..k]) == SentAll(c, s, rs)[..safe]
    ensures NothingRevealed(SentAll(c, s, rs)[..safe]) && SameMemory(s, HandleAll(c, s, rs[..k]))
  {
    RunInParts(c, s, rs, k);
    safe := |SentAll(c, s, rs[..k])|;
  }

  /** How a session that starts in secure mode can end. */
  lemma {:induction false} SecureOutcome(c: Config, s: Dfu, rs: seq<Request>) returns (k: nat, safe: nat)
    requires Valid(c, s) && AllWellFormed(rs) && Locked(s)
    requires SectionFits(c.d) && c.d.bootStart % 2 == 0 && BufferClean(c.d, s.flash)
    ensures k <= |rs| && (HandleAll(c, s, rs).isSecure <==> k == |rs|)
    ensures k == |rs| ==>
              Locked(HandleAll(c, s, rs)) && SameMemory(s, HandleAll(c, s, rs)) && NothingRevealed(SentAll(c, s, rs))
    ensures k < |rs| ==>
              && safe <= |SentAll(c, s, rs)| && NothingRevealed(SentAll(c, s, rs)[..safe])
              && SentAll(c, s, rs[..k]) == SentAll(c, s, rs)[..safe] && SameMemory(s, HandleAll(c, s, rs[..k]))
              && SectionBlank(c.d, HandleAll(c, s, rs[..k + 1]).flash)
  {
    k := UnlockedIsBlank(c, s, rs);
    assert SafeUpTo(c, s, rs, k);
    if k == |rs| {
      StillSafe(c, s, rs);
      safe := 0;
    } else {
      SecureToTheEnd(c, s, rs, k);
      safe := SafePart(c, s, rs, k);
    }
  }

  // ----- the application section never shows

  /** Two bootloaders that differ in nothing but the contents of the application section. */
  ghost predicate Twins(c: Config, s: Dfu, t: Dfu)
    requires Valid(c, s) && Valid(c, t)
  {
    t == s.(flash := t.flash) && s.flash.buffer == t.flash.buffer && SameAbove(c.d, s.flash, t.flash)
  }

  lemma {:induction false} TwinErase(c: Config, s: Dfu, t: Dfu)
    requires Valid(c, s) && Valid(c, t) && Locked(s) && Twins(c, s, t) && IsErase(s.cmd)
    ensures ProcessCommand(c, s) == ProcessCommand(c, t)
  {
    EraseForgets(c.d, s.flash, t.flash);
  }

  lemma {:induction false} TwinOther(c: Config, s: Dfu, t: Dfu)
    requires Valid(c, s) && Valid(c, t) && Locked(s) && Twins(c, s, t) && !IsErase(s.cmd)
    ensures var s', t' := ProcessCommand(c, s), ProcessCommand(c, t); Locked(s') && Twins(c, s', t')
  {
  }

  lemma {:induction false} TwinCommand(c: Config, s: Dfu, t: Dfu)
    requires Valid(c, s) && Valid(c, t) && Locked(s) && Twins(c, s, t)
    ensures var s', t' := ProcessCommand(c, s), ProcessCommand(c, t); (Locked(s') && Twins(c, s', t')) || s' == t'
  {
    if IsErase(s.cmd) {
      TwinErase(c, s, t);
    } else {
      TwinOther(c, s, t);
    }
  }

  lemma {:induction false} TwinReceive(c: Config, s: Dfu, t: Dfu, packet: seq<byte>)
    requires Valid(c, s) && Valid(c, t) && Locked(s) && Twins(c, s, t) && 0 < |packet| <= s.cmd.dataSize
    ensures var s' := ProcessCommand(c, s.(cmd := LoadCommand(s.cmd, packet)));
            var t' := ProcessCommand(c, t.(cmd := LoadCommand(t.cmd, packet)));
            (Locked(s') && Twins(c, s', t')) || s' == t'
  {
    TwinCommand(c, s.(cmd := LoadCommand(s.cmd, packet)), t.(cmd := LoadCommand(t.cmd, packet)));
  }

  lemma {:induction false} TwinStep(c: Config, s: Dfu, t: Dfu, r: Request)
    requires Valid(c, s) && Valid(c, t) && WellFormed(r) && Locked(s) && Twins(c, s, t)
    ensures var s', t' := Handle(c, s, r), Handle(c, t, r); (Locked(s') && Twins(c, s', t')) || s' == t'
  {
    if r.kind == Dnload && r.wLength != 0 && r.packet != [] {
      var s1 := s.(cmd := s.cmd.(dataSize := r.wLength));
      var t1 := t.(cmd := t.cmd.(dataSize := r.wLength));
      TwinReceive(c, s1, t1, r.packet);
    }
  }

  /**
   Whatever the host asks for, and even after the bootloader is unlocked, what it sends does not depend
   on what the application section held while the bootloader was locked.
   */
  lemma {:induction false} NoInterference(c: Config, s: Dfu, t: Dfu, rs: seq<Request>)
    requires Valid(c, s) && Valid(c, t) && AllWellFormed(rs) && Locked(s) && Twins(c, s, t)
    ensures SentAll(c, s, rs) == SentAll(c, t, rs)
    decreases |rs|
  {
    if rs == [] {
    } else {
      TwinStep(c, s, t, rs[0]);
      var s', t' := Handle(c, s, rs[0]), Handle(c, t, rs[0]);
      if s' != t' {
        NoInterference(c, s', t', rs[1..]);
      }
    }
  }
}
