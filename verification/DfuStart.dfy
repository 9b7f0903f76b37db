/** The start command: how the host makes the bootloader leave. */
module DfuStart {
  import opened Flash
  import opened DfuState
  import opened DfuRequests
  import opened DfuSecure

  // ----- the command in a request

  /** How many bytes of the first packet are read: the command and at most five parameters. */
  function BytesRead(r: Request): (n: nat)
  {
    if |r.packet| <= 6 then |r.packet| else 6
  }

  /** Parameter `i` of the command: from the packet, or what an earlier command left there. */
  function Parameter(s: Dfu, r: Request, i: nat): (b: byte)
    requires |s.cmd.data| == 5 && i < 5
  {
    if i + 1 < |r.packet| then r.packet[i + 1] else s.cmd.data[i]
  }

  /** A DNLOAD request with the start command `04 03`. */
  predicate IsStart(s: Dfu, r: Request)
    requires |s.cmd.data| == 5
  {
    r.kind == Dnload && r.packet != [] && r.packet[0] == 0x04 && Parameter(s, r, 0) == 0x03
  }

  /** Only an unlocked bootloader waits for its exit, and then its last command was the start command. */
  predicate Sound(s: Dfu)
    requires |s.cmd.data| == 5
  {
    s.waitForExit ==> !s.isSecure && s.cmd.code == 0x04 && s.cmd.data[0] == 0x03
  }

  /** The request makes the bootloader carry a start command out: the one it brings without data, or a pending one. */
  predicate Starts(s: Dfu, r: Request)
    requires |s.cmd.data| == 5
  {
    && !s.isSecure && r.kind == Dnload
    && ((r.wLength == 0 && s.waitForExit) || (IsStart(s, r) && r.wLength == BytesRead(r)))
  }

  /** The first two bytes of the flash are erased. */
  predicate NoApplication(c: Config, f: State)
    requires ValidState(c.d, f)
  {
    ByteAt(c.d, f, 0) == 0xFF && ByteAt(c.d, f, 1) == 0xFF
  }

  /** The request clears the run flag. */
  predicate Exits(c: Config, s: Dfu, r: Request)
    requires Valid(c, s)
  {
    Starts(s, r) && Parameter(s, r, 1) != 0x00 && NoApplication(c, s.flash)
  }

  /** The request sets the boot key and starts the watchdog. */
  predicate Resets(s: Dfu, r: Request)
    requires |s.cmd.data| == 5
  {
    Starts(s, r) && Parameter(s, r, 1) == 0x00
  }

  // ----- one command

  lemma {:induction false} BlankStart(c: Config, f: State)
    requires ValidState(c.d, f)
    ensures NoApplication(c, f) <==> WordAt(c.d, f, 0) == 0xFFFF
  {
  }

  /** What a start command does, in a bootloader that is not secure. */
  lemma {:induction false} StartCommand(c: Config, s: Dfu)
    requires Valid(c, s) && !s.isSecure && s.cmd.code == 0x04 && s.cmd.data[0] == 0x03
    ensures var t := ProcessCommand(c, s);
            && t.runBootloader == (s.runBootloader && !(s.cmd.dataSize == 0 && s.cmd.data[1] != 0 && NoApplication(c, s.flash)))
            && t.bootKey == (s.bootKey || (s.cmd.dataSize == 0 && s.cmd.data[1] == 0))
            && t.appStart == (if s.cmd.dataSize != 0 && s.cmd.data[1] == 1 then WordOf(s.cmd.data[3], s.cmd.data[4]) else s.appStart)
            && t == s.(runBootloader := t.runBootloader, bootKey := t.bootKey, appStart := t.appStart, waitForExit := true)
  {
    BlankStart(c, s.flash);
  }

  /** The variables of the start command are the same. */
  predicate SameStart(s: Dfu, t: Dfu)
  {
    && t.runBootloader == s.runBootloader && t.bootKey == s.bootKey && t.appStart == s.appStart
    && t.waitForExit == s.waitForExit && t.cmd == s.cmd
  }

  lemma {:induction false} ProgKeeps(c: Config, s: Dfu)
    requires Valid(c, s)
    ensures SameStart(s, MemProg(c, s)) && MemProg(c, s).isSecure == s.isSecure
  {
  }

  lemma {:induction false} ReadKeeps(c: Config, s: Dfu)
    requires Valid(c, s)
    ensures SameStart(s, MemRead(c, s)) && MemRead(c, s).isSecure == s.isSecure
  {
  }

  lemma {:induction false} InfoKeeps(c: Config, s: Dfu)
    requires Valid(c, s)
    ensures SameStart(s, ReadCommand(c, s)) && ReadCommand(c, s).isSecure == s.isSecure
  {
  }

  lemma {:induction false} EraseCommand(c: Config, s: Dfu)
    requires Valid(c, s) && s.cmd.data[0] != 0x03
    ensures SameStart(s, WriteCommand(c, s)) && (WriteCommand(c, s).isSecure ==> s.isSecure)
  {
  }

  /** Any other command, and any command in secure mode, leaves the variables alone. */
  lemma {:induction false} OtherCommand(c: Config, s: Dfu)
    requires Valid(c, s) && (s.isSecure || s.cmd.code != 0x04 || s.cmd.data[0] != 0x03)
    ensures SameStart(s, ProcessCommand(c, s)) && (ProcessCommand(c, s).isSecure ==> s.isSecure)
  {
    ProgKeeps(c, s);
    ReadKeeps(c, s);
    InfoKeeps(c, s);
    if s.cmd.data[0] != 0x03 {
      EraseCommand(c, s);
    }
  }

  lemma {:induction false} ReceiveKeeps(c: Config, s: Dfu, payload: seq<byte>)
    requires Valid(c, s)
    ensures var t := Receive(c, s, payload);
            SameStart(s, t) && t.isSecure == s.isSecure && (s.cmd.data[0] != 0x00 ==> t.flash == s.flash)
  {
  }

  /** The command that a DNLOAD request loads. */
  lemma {:induction false} PacketLoaded(s: Dfu, cmd: Command, r: Request)
    requires |s.cmd.data| == 5 && cmd == s.cmd.(dataSize := r.wLength) && WellFormed(r) && r.packet != []
    ensures var l := LoadCommand(cmd, r.packet);
            && l.code == r.packet[0] && l.dataSize == r.wLength - BytesRead(r)
            && forall i: nat :: i < 5 ==> l.data[i] == Parameter(s, r, i)
  {
  }

  // ----- one request

  /** A pending start command is carried out first; with data to come it only notes the address. */
  lemma {:induction false} PendingStart(c: Config, s: Dfu, r: Request) returns (t: Dfu)
    requires Valid(c, s) && WellFormed(r) && Sound(s) && r.kind == Dnload
    ensures t == FinishExit(c, s.(cmd := s.cmd.(dataSize := r.wLength)))
    ensures t.cmd == s.cmd.(dataSize := r.wLength) && !t.waitForExit && t.isSecure == s.isSecure && t.flash == s.flash
    ensures t.runBootloader == (s.runBootloader && !(r.wLength == 0 && Exits(c, s, r)))
    ensures t.bootKey == (s.bootKey || (r.wLength == 0 && Resets(s, r)))
    ensures t.appStart == if s.waitForExit && r.wLength != 0 && s.cmd.data[1] == 0x01 then WordOf(s.cmd.data[3], s.cmd.data[4]) else s.appStart
    ensures t.mode == s.mode
  {
    var s1 := s.(cmd := s.cmd.(dataSize := r.wLength));
    t := FinishExit(c, s1);
    if s.waitForExit {
      StartCommand(c, s1);
    }
  }

  /** The command that the request brings. */
  lemma {:induction false} NewCommand(c: Config, s: Dfu, r: Request, t: Dfu) returns (u: Dfu)
    requires Valid(c, s) && Valid(c, t) && WellFormed(r) && r.kind == Dnload && r.packet != []
    requires t.cmd == s.cmd.(dataSize := r.wLength) && !t.waitForExit && t.isSecure == s.isSecure && t.flash == s.flash
    ensures u == ProcessCommand(c, t.(cmd := LoadCommand(t.cmd, r.packet))) && u.cmd == LoadCommand(t.cmd, r.packet)
    ensures u.runBootloader == (t.runBootloader && !Exits(c, s, r)) && u.bootKey == (t.bootKey || Resets(s, r))
    ensures u.appStart
            == if !s.isSecure && IsStart(s, r) && r.wLength > BytesRead(r) && Parameter(s, r, 1) == 0x01
               then WordOf(Parameter(s, r, 3), Parameter(s, r, 4)) else t.appStart
    ensures u.waitForExit == (!s.isSecure && IsStart(s, r)) && (u.isSecure ==> s.isSecure)
    ensures u.waitForExit ==> u.flash == s.flash && !u.isSecure
  {
    var v := t.(cmd := LoadCommand(t.cmd, r.packet));
    PacketLoaded(s, t.cmd, r);
    u := ProcessCommand(c, v);
    if !s.isSecure && IsStart(s, r) {
      StartCommand(c, v);
    } else {
      OtherCommand(c, v);
    }
  }

  /** What a request does to the run flag and the boot key, whatever request it is. */
  lemma {:induction false} StartStep(c: Config, s: Dfu, r: Request)
    requires Valid(c, s) && WellFormed(r) && Sound(s)
    ensures var t := Handle(c, s, r);
            t.runBootloader == (s.runBootloader && !Exits(c, s, r)) && t.bootKey == (s.bootKey || Resets(s, r)) && Sound(t)
  {
    if r.kind == Dnload {
      var t := PendingStart(c, s, r);
      if r.wLength == 0 {
        ReceiveKeeps(c, t, r.payload);
      } else if r.packet != [] {
        var u := NewCommand(c, s, r, t);
        PacketLoaded(s, t.cmd, r);
        ReceiveKeeps(c, u, r.payload);
      }
    }
  }

  /** After a start command: it is pending, with its parameters. */
  lemma {:induction false} StartRequest(c: Config, s: Dfu, r: Request)
    requires Valid(c, s) && WellFormed(r) && Sound(s) && !s.isSecure && IsStart(s, r)
    ensures var t := Handle(c, s, r);
            && t.waitForExit && !t.isSecure && t.flash == s.flash && t.cmd.data[1] == Parameter(s, r, 1)
            && (r.wLength > BytesRead(r) && Parameter(s, r, 1) == 0x01 ==> t.appStart == WordOf(Parameter(s, r, 3), Parameter(s, r, 4)))
            && (!s.waitForExit && !(r.wLength > BytesRead(r) && Parameter(s, r, 1) == 0x01) ==> t.appStart == s.appStart)
  {
    var t := PendingStart(c, s, r);
    var u := NewCommand(c, s, r, t);
    PacketLoaded(s, t.cmd, r);
    ReceiveKeeps(c, u, r.payload);
  }

  /** A request without data: a pending start command is carried out. */
  lemma {:induction false} GoRequest(c: Config, s: Dfu, go: Request)
    requires Valid(c, s) && Sound(s) && s.waitForExit && go.kind == Dnload && go.wLength == 0 && WellFormed(go)
    ensures Handle(c, s, go).appStart == s.appStart && !Handle(c, s, go).waitForExit
  {
    var t := PendingStart(c, s, go);
    ReceiveKeeps(c, t, go.payload);
  }

  /**
   The exit sequence, a start command and a DNLOAD request without data, from any unlocked state. The run flag is cleared
   exactly if the command asks for a jump and the flash begins with two erased bytes, although a valid application is meant;
   the boot key is set exactly if it asks for the watchdog; and the jump address is taken only if data follows the command.
   */
  lemma {:induction false} ExitSequence(c: Config, s: Dfu, start: Request, go: Request)
    requires Valid(c, s) && Sound(s) && !s.isSecure && WellFormed(start) && IsStart(s, start)
    requires go.kind == Dnload && go.wLength == 0 && WellFormed(go)
    ensures var t := Handle(c, Handle(c, s, start), go);
            var how := Parameter(s, start, 1);
            && t.runBootloader == (s.runBootloader && !(how != 0x00 && ByteAt(c.d, s.flash, 0) == 0xFF && ByteAt(c.d, s.flash, 1) == 0xFF))
            && t.bootKey == (s.bootKey || how == 0x00)
            && (how == 0x01 && start.wLength > BytesRead(start) ==>
                  t.appStart == WordOf(Parameter(s, start, 3), Parameter(s, start, 4)))
            && (!s.waitForExit && !(how == 0x01 && start.wLength > BytesRead(start)) ==> t.appStart == s.appStart)
  {
    var u := Handle(c, s, start);
    StartStep(c, s, start);
    StartRequest(c, s, start);
    StartStep(c, u, go);
    GoRequest(c, u, go);
  }

  // ----- every run

  /** Request `j` of the run clears the run flag. */
  ghost predicate ExitsAt(c: Config, s: Dfu, rs: seq<Request>, j: nat)
    requires Valid(c, s) && AllWellFormed(rs) && j < |rs|
  {
    Exits(c, HandleAll(c, s, rs[..j]), rs[j])
  }

  ghost predicate ResetsAt(c: Config, s: Dfu, rs: seq<Request>, j: nat)
    requires Valid(c, s) && AllWellFormed(rs) && j < |rs|
  {
    Resets(HandleAll(c, s, rs[..j]), rs[j])
  }

  lemma {:induction false} AtLater(c: Config, s: Dfu, rs: seq<Request>, j: nat)
    requires Valid(c, s) && AllWellFormed(rs) && j < |rs|
    ensures j == 0 ==> (ExitsAt(c, s, rs, j) <==> Exits(c, s, rs[0])) && (ResetsAt(c, s, rs, j) <==> Resets(s, rs[0]))
    ensures j > 0 ==>
              && (ExitsAt(c, s, rs, j) <==> ExitsAt(c, Handle(c, s, rs[0]), rs[1..], j - 1))
              && (ResetsAt(c, s, rs, j) <==> ResetsAt(c, Handle(c, s, rs[0]), rs[1..], j - 1))
  {
    if j == 0 {
      assert rs[..0] == [];
    } else {
      HandleSplit(c, s, rs, j);
    }
  }

  /** Over every run the flag is cleared, and the key set, by exactly such requests. */
  lemma {:induction false} StartRun(c: Config, s: Dfu, rs: seq<Request>)
    requires Valid(c, s) && AllWellFormed(rs) && Sound(s)
    ensures HandleAll(c, s, rs).runBootloader <==> s.runBootloader && forall j: nat :: j < |rs| ==> !ExitsAt(c, s, rs, j)
    ensures !HandleAll(c, s, rs).bootKey <==> !s.bootKey && forall j: nat :: j < |rs| ==> !ResetsAt(c, s, rs, j)
    ensures Sound(HandleAll(c, s, rs))
    decreases |rs|
  {
    if rs == [] {
    } else {
      var t := Handle(c, s, rs[0]);
      StartStep(c, s, rs[0]);
      StartRun(c, t, rs[1..]);
      Shifted(c, s, rs);
    }
  }

  lemma {:induction false} Shifted(c: Config, s: Dfu, rs: seq<Request>)
    requires Valid(c, s) && AllWellFormed(rs) && rs != []
    ensures (forall j: nat :: j < |rs| ==> !ExitsAt(c, s, rs, j))
            <==> !Exits(c, s, rs[0]) && forall j: nat :: j < |rs[1..]| ==> !ExitsAt(c, Handle(c, s, rs[0]), rs[1..], j)
    ensures (forall j: nat :: j < |rs| ==> !ResetsAt(c, s, rs, j))
            <==> !Resets(s, rs[0]) && forall j: nat :: j < |rs[1..]| ==> !ResetsAt(c, Handle(c, s, rs[0]), rs[1..], j)
  {
    var t := Handle(c, s, rs[0]);
    AtLater(c, s, rs, 0);
    forall j: nat | j < |rs[1..]|
      ensures (ExitsAt(c, s, rs, j + 1) <==> ExitsAt(c, t, rs[1..], j)) && (ResetsAt(c, s, rs, j + 1) <==> ResetsAt(c, t, rs[1..], j))
    {
      AtLater(c, s, rs, j + 1);
    }
    forall j: nat | 0 < j < |rs|
      ensures (ExitsAt(c, s, rs, j) <==> ExitsAt(c, t, rs[1..], j - 1)) && (ResetsAt(c, s, rs, j) <==> ResetsAt(c, t, rs[1..], j - 1))
    {
      AtLater(c, s, rs, j);
    }
  }

  lemma {:induction false} SecureStep(c: Config, s: Dfu, r: Request)
    requires Valid(c, s) && WellFormed(r) && Locked(s)
    ensures var t := Handle(c, s, r);
            t.runBootloader == s.runBootloader && t.bootKey == s.bootKey && t.appStart == s.appStart
  {
    StartStep(c, s, r);
    if r.kind == Dnload {
      var t := PendingStart(c, s, r);
      if r.wLength == 0 {
        ReceiveKeeps(c, t, r.payload);
      } else if r.packet != [] {
        var u := NewCommand(c, s, r, t);
        ReceiveKeeps(c, u, r.payload);
      }
    }
  }

  /** A bootloader that is secure to the end was never told to leave. */
  lemma {:induction false} SecureNeverStarts(c: Config, s: Dfu, rs: seq<Request>)
    requires Valid(c, s) && AllWellFormed(rs) && Locked(s) && HandleAll(c, s, rs).isSecure
    ensures var t := HandleAll(c, s, rs);
            t.runBootloader == s.runBootloader && t.bootKey == s.bootKey && t.appStart == s.appStart
    decreases |rs|
  {
    if rs == [] {
    } else {
      var t := Handle(c, s, rs[0]);
      SecureStep(c, s, rs[0]);
      LockedStep(c, s, rs[0]);
      if !t.isSecure {
        StaysUnlocked(c, t, rs[1..]);
      } else {
        SecureNeverStarts(c, t, rs[1..]);
      }
    }
  }
}
