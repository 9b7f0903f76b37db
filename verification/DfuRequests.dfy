/** The control requests of the DFU interface, as steps of a state machine. */
module DfuRequests {
  import opened Flash
  import opened DfuState

  datatype Kind = Dnload | Upload | GetStatus | ClrStatus | GetState | Abort | Other

  /** Whether the host takes all that is sent to it, or disconnects after some words or bytes of it. */
  datatype Host = Stays | Leaves(after: nat)

  /**
   A class request to the DFU interface: its wLength, the first data packet (none if the host
   disconnects before it), the bytes that follow the fillers until the host is done or disconnects,
   and how much of an answer the host takes.
   */
  datatype Request = Request(kind: Kind, wLength: word, packet: seq<byte>, payload: seq<byte>, host: Host)

  /** The first packet is part of the data stage. */
  predicate WellFormed(r: Request)
  {
    |r.packet| <= r.wLength
  }

  /** What the bootloader sends to the host. */
  datatype Output =
    | FlashWord(w: word)
    | EepromByte(b: byte)
    | ResponseByte(b: byte)
    | NonBlankAddress(a: word)
    | StatusReport(status: Status, mode: Mode)
    | StateReport(mode: Mode)

  // ----- DNLOAD

  /** The parameters after `n` bytes of the packet behind the command. */
  function Parameters(data: seq<byte>, packet: seq<byte>, n: nat): (r: seq<byte>)
    requires |data| == 5 && n <= 5 && n < |packet|
    ensures |r| == 5
  {
    packet[1..n + 1] + data[n..]
  }

  /** The command and its parameters, from the first packet. */
  function LoadCommand(cmd: Command, packet: seq<byte>): (r: Command)
    requires |cmd.data| == 5 && 0 < |packet| <= cmd.dataSize
    ensures |r.data| == 5
  {
    var n := if |packet| <= 5 then |packet| - 1 else 5;
    Command(packet[0], Parameters(cmd.data, packet, n), cmd.dataSize - 1 - n)
  }

  /** The words in the bytes that arrive, low byte first. */
  function WordsOf(bytes: seq<byte>): (ws: seq<word>)
    decreases |bytes|
  {
    if |bytes| < 2 then [] else [WordOf(bytes[1], bytes[0])] + WordsOf(bytes[2..])
  }

  /** At most the first `n` elements. */
  function UpTo<T>(s: seq<T>, n: nat): (r: seq<T>)
    ensures |r| <= n && r <= s
  {
    if |s| <= n then s else s[..n]
  }

  function WriteEeprom(e: seq<byte>, a: word, bytes: seq<byte>): (r: seq<byte>)
    requires |e| == 0x1_0000
    ensures |r| == |e|
    decreases |bytes|
  {
    if bytes == [] then e else WriteEeprom(e[a := bytes[0]], Advance16(a, 1), bytes[1..])
  }

  function ReadEeprom(e: seq<byte>, a: word, n: nat): (bytes: seq<byte>)
    requires |e| == 0x1_0000
    decreases n
  {
    if n == 0 then [] else [e[a]] + ReadEeprom(e, Advance16(a, 1), n - 1)
  }

  lemma {:induction false} ReadFirst(e: seq<byte>, a: word, n: nat)
    requires |e| == 0x1_0000 && n > 0
    ensures ReadEeprom(e, a, n) == [e[a]] + ReadEeprom(e, Advance16(a, 1), n - 1)
  {
  }

  /** The firmware download: words into the flash, or bytes into the EEPROM. */
  function Download(c: Config, s: Dfu, payload: seq<byte>): (r: Dfu)
    requires Valid(c, s)
    ensures Valid(c, r)
  {
    var n := ByteCount(s.startAddr, s.endAddr);
    if s.cmd.data[0] == 0x00 then
      var words := UpTo(WordsOf(payload), n / 2);
      var start := Long(s.page64, s.startAddr);
      var r := s.(flash := ApplyAll(c.d, s.flash, ProgramOps(c.d, start, start, 0, n / 2, words)));
      if |words| == n / 2 then r.(startAddr := s.endAddr) else r
    else
      var bytes := UpTo(payload, n);
      s.(eeprom := WriteEeprom(s.eeprom, s.startAddr, bytes), startAddr := Advance16(s.startAddr, |bytes|))
  }

  /** A pending exit command is processed again before anything else. */
  function FinishExit(c: Config, s: Dfu): (r: Dfu)
    requires Valid(c, s)
    ensures Valid(c, r)
  {
    if s.waitForExit then ProcessCommand(c, s).(waitForExit := false) else s
  }

  /** The last part of DNLOAD, in the state that the command left. */
  function Receive(c: Config, s: Dfu, payload: seq<byte>): (r: Dfu)
    requires Valid(c, s)
    ensures Valid(c, r)
  {
    if s.mode != DfuDnloadIdle then s
    else if s.cmd.dataSize == 0 then s.(mode := DfuIdle)
    else Download(c, s, payload)
  }

  function HandleDnload(c: Config, s: Dfu, packet: seq<byte>, payload: seq<byte>): (r: Dfu)
    requires Valid(c, s) && |packet| <= s.cmd.dataSize
    ensures Valid(c, r)
  {
    var t := FinishExit(c, s);
    CommandKept(c, s);
    if t.cmd.dataSize == 0 then Receive(c, t, payload)
    else if packet == [] then t
    else Receive(c, ProcessCommand(c, t.(cmd := LoadCommand(t.cmd, packet))), payload)
  }

  lemma {:induction false} CommandKept(c: Config, s: Dfu)
    requires Valid(c, s)
    ensures ProcessCommand(c, s).cmd == s.cmd
  {
  }

  // ----- UPLOAD

  /** How many of `n` words or bytes the host takes. */
  function Taken(host: Host, n: nat): (k: nat)
    ensures k <= n
  {
    if host.Stays? || n <= host.after then n else host.after
  }

  function HandleUpload(s: Dfu, host: Host): (r: Dfu)
    requires |s.cmd.data| == 5
  {
    var n := ByteCount(s.startAddr, s.endAddr);
    if host == Leaves(0) || s.mode != DfuUploadIdle then s
    else if s.cmd.data[0] == 0x00 then
      if Taken(host, n / 2) < n / 2 then s else s.(startAddr := s.endAddr, mode := DfuIdle)
    else if s.cmd.data[0] == 0x02 then
      var k := Taken(host, n);
      s.(startAddr := Advance16(s.startAddr, k), mode := if k < n then DfuUploadIdle else DfuIdle)
    else s.(mode := DfuIdle)
  }

  function FlashOutput(ws: seq<word>): (out: seq<Output>)
  {
    seq(|ws|, i requires 0 <= i < |ws| => FlashWord(ws[i]))
  }

  function EepromOutput(bytes: seq<byte>): (out: seq<Output>)
  {
    seq(|bytes|, i requires 0 <= i < |bytes| => EepromByte(bytes[i]))
  }

  function UploadOutput(c: Config, s: Dfu, host: Host): (out: seq<Output>)
    requires Valid(c, s)
  {
    var n := ByteCount(s.startAddr, s.endAddr);
    if host == Leaves(0) then []
    else if s.mode != DfuUploadIdle then
      [if s.mode == DfuError && s.cmd.data[0] == 0x01 then NonBlankAddress(s.startAddr) else ResponseByte(s.response)]
    else if s.cmd.data[0] == 0x00 then
      FlashOutput(ReadWords(c.d, s.flash, Long(s.page64, s.startAddr), Taken(host, n / 2)))
    else if s.cmd.data[0] == 0x02 then EepromOutput(ReadEeprom(s.eeprom, s.startAddr, Taken(host, n)))
    else []
  }

  // ----- all requests

  /** The state after a request. */
  function Handle(c: Config, s: Dfu, r: Request): (t: Dfu)
    requires Valid(c, s) && WellFormed(r)
    ensures Valid(c, t)
  {
    var s := s.(cmd := s.cmd.(dataSize := r.wLength));
    match r.kind
    case Dnload => HandleDnload(c, s, r.packet, r.payload)
    case Upload => HandleUpload(s, r.host)
    case ClrStatus => s.(status := Ok)
    case Abort => s.(mode := DfuIdle)
    case GetStatus => s
    case GetState => s
    case Other => s
  }

  /** What the bootloader sends while it handles a request. */
  function Sent(c: Config, s: Dfu, r: Request): (out: seq<Output>)
    requires Valid(c, s)
  {
    match r.kind
    case Upload => UploadOutput(c, s, r.host)
    case GetStatus => if r.host == Leaves(0) then [] else [StatusReport(s.status, s.mode)]
    case GetState => if r.host == Leaves(0) then [] else [StateReport(s.mode)]
    case _ => []
  }

  ghost predicate AllWellFormed(rs: seq<Request>)
  {
    forall i :: 0 <= i < |rs| ==> WellFormed(rs[i])
  }

  function HandleAll(c: Config, s: Dfu, rs: seq<Request>): (t: Dfu)
    requires Valid(c, s) && AllWellFormed(rs)
    ensures Valid(c, t)
    decreases |rs|
  {
    if rs == [] then s else HandleAll(c, Handle(c, s, rs[0]), rs[1..])
  }

  function SentAll(c: Config, s: Dfu, rs: seq<Request>): (out: seq<Output>)
    requires Valid(c, s) && AllWellFormed(rs)
    decreases |rs|
  {
    if rs == [] then [] else Sent(c, s, rs[0]) + SentAll(c, Handle(c, s, rs[0]), rs[1..])
  }
}
