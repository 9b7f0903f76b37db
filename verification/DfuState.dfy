/** The DFU bootloader of BootloaderDFU.c as a state machine over its control requests. */
module DfuState {
  import opened Flash

  /** The four DFU states the bootloader ever takes. */
  datatype Mode = DfuIdle | DfuDnloadIdle | DfuUploadIdle | DfuError

  datatype Status = Ok | ErrWrite | ErrCheckErased | ErrAddress

  const COMMAND_PROG_START: byte := 0x01
  const COMMAND_DISP_DATA: byte := 0x03
  const COMMAND_WRITE: byte := 0x04
  const COMMAND_READ: byte := 0x05
  const COMMAND_CHANGE_BASE_ADDR: byte := 0x06

  /** DFU_Command_t. */
  datatype Command = Command(code: byte, data: seq<byte>, dataSize: word)

  /** Device parameters and the three AVR signature bytes. */
  datatype Config = Config(d: Device, signature: seq<byte>)

  datatype Dfu = Dfu(
    isSecure: bool, runBootloader: bool, waitForExit: bool, mode: Mode, status: Status, cmd: Command, response: byte,
    appStart: word, page64: byte, startAddr: word, endAddr: word, bootKey: bool, flash: State, eeprom: seq<byte>)

  ghost predicate Valid(c: Config, s: Dfu)
  {
    ValidState(c.d, s.flash) && |c.signature| == 3 && |s.cmd.data| == 5 && |s.eeprom| == 0x1_0000
  }

  // ----- addresses

  /** The union of StartAddr and Flash64KBPage. */
  function Long(page64: byte, addr: word): (a: nat)
  {
    0x1_0000 * page64 + addr
  }

  /** (EndAddr - StartAddr) + 1 in 16 bits. */
  function ByteCount(startAddr: word, endAddr: word): (n: word)
  {
    var n := endAddr - startAddr + 1;
    if n < 0 then n + 0x1_0000 else if n == 0x1_0000 then 0 else n
  }

  lemma ByteCountWraps(startAddr: word, endAddr: word)
    ensures ByteCount(startAddr, endAddr) == (endAddr - startAddr + 1) % 0x1_0000
  {
  }

  function Advance16(a: word, n: word): (r: word)
  {
    if a + n < 0x1_0000 then a + n else a + n - 0x1_0000
  }

  // ----- flash operations of the commands

  /** Erasing the application section from `address` on, page by page. */
  function EraseOps(d: Device, address: nat): (ops: seq<Op>)
    requires d.Valid()
    decreases d.bootStart - address
  {
    if address >= d.bootStart then [] else [Erase(address), Write(address)] + EraseOps(d, address + d.PageSize())
  }

  /**
   The download loop: `remaining` words are expected and `words` arrive, fewer if the host disconnects.
   A page is committed when the counter of words in it reaches the page size, or at the last word.
   */
  function ProgramOps(d: Device, address: nat, pageStart: nat, inPage: byte, remaining: nat, words: seq<word>): (ops: seq<Op>)
    requires d.Valid() && |words| <= remaining
    decreases |words|
  {
    if words == [] then []
    else
      var n := if inPage == 0xFF then 0 else inPage + 1;
      [Fill(address, words[0])] +
      (if n == d.pageWords || remaining == 1 then
        [Write(pageStart)] +
        (if remaining == 1 then []
         else [Erase(address + 2)] + ProgramOps(d, address + 2, address + 2, 0, remaining - 1, words[1..]))
       else ProgramOps(d, address + 2, pageStart, n, remaining - 1, words[1..]))
  }

  /** The words the upload loop sends. */
  function ReadWords(d: Device, f: State, address: nat, n: nat): (ws: seq<word>)
    requires ValidState(d, f)
    decreases n
  {
    if n == 0 then [] else [WordAt(d, f, address)] + ReadWords(d, f, address + 2, n - 1)
  }

  /** The blank check from `address` on: the first byte that is not 0xFF, or the end of the section. */
  function FirstNonBlank(d: Device, f: State, address: nat): (a: nat)
    requires ValidState(d, f) && address <= d.bootStart
    ensures address <= a <= d.bootStart
    ensures a < d.bootStart ==> ByteAt(d, f, a) != 0xFF
    ensures forall x :: address <= x < a ==> ByteAt(d, f, x) == 0xFF
    decreases d.bootStart - address
  {
    if address == d.bootStart || ByteAt(d, f, address) != 0xFF then address else FirstNonBlank(d, f, address + 1)
  }

  // ----- the commands

  /** LoadStartEndAddresses. */
  function LoadAddresses(s: Dfu): (r: Dfu)
    requires |s.cmd.data| == 5
  {
    var data := s.cmd.data;
    s.(startAddr := WordOf(data[1], data[2]), endAddr := WordOf(data[3], data[4]))
  }

  /** ProcessMemProgCommand. */
  function MemProg(c: Config, s: Dfu): (r: Dfu)
    requires Valid(c, s)
    ensures Valid(c, r)
  {
    if s.cmd.data[0] == 0x00 then
      var r := LoadAddresses(s);
      r.(mode := DfuDnloadIdle, flash := Apply(c.d, s.flash, Erase(Long(s.page64, r.startAddr))))
    else if s.cmd.data[0] == 0x01 then LoadAddresses(s).(mode := DfuDnloadIdle)
    else s
  }

  /** ProcessMemReadCommand. */
  function MemRead(c: Config, s: Dfu): (r: Dfu)
    requires Valid(c, s)
    ensures Valid(c, r)
  {
    if s.cmd.data[0] == 0x00 || s.cmd.data[0] == 0x02 then LoadAddresses(s).(mode := DfuUploadIdle)
    else if s.cmd.data[0] == 0x01 then
      var a := FirstNonBlank(c.d, s.flash, 0);
      if a < c.d.bootStart then
        s.(page64 := a / 0x1_0000 % 0x100, startAddr := a % 0x1_0000, mode := DfuError, status := ErrCheckErased)
      else s
    else s
  }

  predicate IsErase(cmd: Command)
    requires |cmd.data| == 5
  {
    cmd.code == COMMAND_WRITE && cmd.data[0] == 0x00 && cmd.data[1] == 0xFF
  }

  /** ProcessWriteCommand. */
  function WriteCommand(c: Config, s: Dfu): (r: Dfu)
    requires Valid(c, s)
    ensures Valid(c, r)
  {
    var data := s.cmd.data;
    if data[0] == 0x03 then
      var s := s.(waitForExit := true);
      if s.cmd.dataSize != 0 then
        if data[1] == 0x01 then s.(appStart := WordOf(data[3], data[4])) else s
      else if data[1] == 0x00 then s.(bootKey := true)
      else if WordAt(c.d, s.flash, 0) == BLANK then s.(runBootloader := false)
      else s
    else if data[0] == 0x00 && data[1] == 0xFF then
      s.(flash := ApplyAll(c.d, s.flash, EraseOps(c.d, 0)), isSecure := false)
    else s
  }

  const BOOTLOADER_INFO: seq<byte> := [0x20, 0xDC, 0xFB]

  /** ProcessReadCommand. */
  function ReadCommand(c: Config, s: Dfu): (r: Dfu)
    requires Valid(c, s)
    ensures Valid(c, r)
  {
    var index := s.cmd.data[1];
    var bad := s.(mode := DfuError, status := ErrAddress);
    if s.cmd.data[0] == 0x00 then
      if index < 3 then s.(response := BOOTLOADER_INFO[index]) else bad
    else if s.cmd.data[0] == 0x01 then
      if index == 0x30 then s.(response := 0x58)
      else if index == 0x31 then s.(response := c.signature[0])
      else if index == 0x60 then s.(response := c.signature[1])
      else if index == 0x61 then s.(response := c.signature[2])
      else bad
    else s
  }

  /** ProcessBootloaderCommand. */
  function ProcessCommand(c: Config, s: Dfu): (r: Dfu)
    requires Valid(c, s)
    ensures Valid(c, r)
  {
    if s.isSecure && !IsErase(s.cmd) && s.cmd.code != COMMAND_READ then s.(mode := DfuError, status := ErrWrite)
    else if s.cmd.code == COMMAND_PROG_START then MemProg(c, s)
    else if s.cmd.code == COMMAND_DISP_DATA then MemRead(c, s)
    else if s.cmd.code == COMMAND_WRITE then WriteCommand(c, s)
    else if s.cmd.code == COMMAND_READ then ReadCommand(c, s)
    else if s.cmd.code == COMMAND_CHANGE_BASE_ADDR && s.cmd.data[0] == 0x03 && s.cmd.data[1] == 0x00 then
      s.(page64 := s.cmd.data[2])
    else s
  }
}
