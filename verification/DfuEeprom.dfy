/** The EEPROM and secure mode: the erase that unlocks the bootloader leaves it alone. */
module DfuEeprom {
  import opened Flash
  import opened DfuState
  import opened DfuRequests
  import opened DfuRoundTrip
  import opened DfuInterrupted
  import opened DfuSecure

  lemma {:induction false} SentThree(c: Config, s: Dfu, a: Request, b: Request, r: Request)
    requires Valid(c, s) && WellFormed(a) && WellFormed(b) && WellFormed(r) && a.kind == b.kind == Dnload
    ensures AllWellFormed([a, b, r]) && SentAll(c, s, [a, b, r]) == Sent(c, Handle(c, Handle(c, s, a), b), r)
  {
    var t := Handle(c, s, a);
    assert [a, b, r][1..] == [b, r] && [b, r][1..] == [r] && [r][1..] == [];
    assert SentAll(c, Handle(c, t, b), [r]) == Sent(c, Handle(c, t, b), r) + [];
  }

  /** A locked bootloader that is told to erase, to read an EEPROM range and to upload it sends what the EEPROM held all along. */
  lemma {:induction false} EepromSurvives(c: Config, s: Dfu, erase: Request, read: Request, up: Request, startAddr: word, endAddr: word)
    requires Valid(c, s) && Locked(s) && IsShort(erase, 0x04, 0x00, 0xFF)
    requires IsCommand(read, 0x03, 0x02, startAddr, endAddr) && up.kind == Upload && up.host == Stays && WellFormed(up)
    ensures Unlocked(c, s, Handle(c, s, erase)) && AllWellFormed([erase, read, up])
    ensures SentAll(c, s, [erase, read, up]) == EepromOutput(ReadEeprom(s.eeprom, startAddr, ByteCount(startAddr, endAddr)))
  {
    EraseRequest(c, s, erase);
    LockedStep(c, s, erase);
    EepromUpload(c, Handle(c, s, erase), read, up, startAddr, endAddr);
    SentThree(c, s, erase, read, up);
  }

  // ----- which EEPROM contents show

  lemma {:induction false} AskFor(x: word) returns (erase: Request, read: Request, up: Request)
    ensures IsShort(erase, 0x04, 0x00, 0xFF) && IsCommand(read, 0x03, 0x02, x, x)
    ensures up.kind == Upload && up.host == Stays && WellFormed(up)
  {
    var hi, lo := x / 0x100, x % 0x100;
    assert WordOf(hi, lo) == x;
    erase := Request(Dnload, 3, [0x04, 0x00, 0xFF], [], Stays);
    read := Request(Dnload, 6, [0x03, 0x02, hi, lo, hi, lo], [], Stays);
    up := Request(Upload, 0, [], [], Stays);
  }

  lemma {:induction false} OneByteRead(e: seq<byte>, x: word)
    requires |e| == 0x1_0000
    ensures ByteCount(x, x) == 1 && |EepromOutput(ReadEeprom(e, x, 1))| == 1
    ensures EepromOutput(ReadEeprom(e, x, 1))[0] == EepromByte(e[x])
  {
  }

  /** An EEPROM byte in which two locked bootloaders differ tells them apart. */
  lemma {:induction false} ByteShows(c: Config, s: Dfu, t: Dfu, x: word) returns (rs: seq<Request>)
    requires Valid(c, s) && Valid(c, t) && Locked(s) && Locked(t) && s.eeprom[x] != t.eeprom[x]
    ensures AllWellFormed(rs) && SentAll(c, s, rs) != SentAll(c, t, rs)
  {
    var erase, read, up := AskFor(x);
    rs := [erase, read, up];
    EepromSurvives(c, s, erase, read, up, x, x);
    EepromSurvives(c, t, erase, read, up, x, x);
    OneByteRead(s.eeprom, x);
    OneByteRead(t.eeprom, x);
  }

  /** No run tells the two bootloaders apart. */
  ghost predicate Alike(c: Config, s: Dfu, t: Dfu)
    requires Valid(c, s) && Valid(c, t)
  {
    forall rs :: AllWellFormed(rs) ==> SentAll(c, s, rs) == SentAll(c, t, rs)
  }

  /** Two locked bootloaders that differ at most in their EEPROMs send the same in all runs only if the EEPROMs agree. */
  lemma {:induction false} EepromShowsIff(c: Config, s: Dfu, t: Dfu)
    requires Valid(c, s) && Valid(c, t) && Locked(s) && t == s.(eeprom := t.eeprom)
    ensures Alike(c, s, t) <==> s.eeprom == t.eeprom
  {
    if s.eeprom != t.eeprom {
      var x: nat :| x < 0x1_0000 && s.eeprom[x] != t.eeprom[x];
      var rs := ByteShows(c, s, t, x);
      assert SentAll(c, s, rs) != SentAll(c, t, rs);
    }
  }

  /** Two locked bootloaders that differ at most in the application section send the same in all runs. */
  lemma {:induction false} SectionNeverShows(c: Config, s: Dfu, t: Dfu)
    requires Valid(c, s) && Valid(c, t) && Locked(s) && Twins(c, s, t)
    ensures Alike(c, s, t)
  {
    forall rs | AllWellFormed(rs) ensures SentAll(c, s, rs) == SentAll(c, t, rs) {
      NoInterference(c, s, t, rs);
    }
  }
}
