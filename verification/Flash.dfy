/**
 The self-programmed flash of the AVR: pages of 16-bit words and one page buffer.
 Erasing sets a page to 0xFFFF; a page write can only clear bits, and empties the buffer.
 Erasing or writing a page beyond the flash does nothing.
 */
module Flash {
  import opened Basics

  type byte = x: int | 0 <= x < 0x100
  type word = x: int | 0 <= x < 0x1_0000

  const BLANK: word := 0xFFFF

  /** The 16-bit number in two bytes. */
  function WordOf(hi: byte, lo: byte): (w: word)
  {
    0x100 * hi + lo
  }

  lemma WordHalves(hi: byte, lo: byte)
    ensures WordOf(hi, lo) / 0x100 == hi && WordOf(hi, lo) % 0x100 == lo
  {
  }

  /** Device parameters: words per page (SPM_PAGESIZE / 2), number of pages, and BOOT_START_ADDR. */
  datatype Device = Device(pageWords: nat, pages: nat, bootStart: nat)
  {
    ghost predicate Valid()
    {
      0 < pageWords && 0 < pages
    }

    function PageSize(): (bytes: nat)
    {
      2 * pageWords
    }
  }

  datatype State = State(pages: seq<seq<word>>, buffer: seq<word>)

  /** boot_page_erase, boot_page_fill and boot_page_write, with byte addresses. */
  datatype Op = Erase(address: nat) | Fill(address: nat, word: word) | Write(address: nat)

  ghost predicate ValidState(d: Device, f: State)
  {
    && d.Valid() && |f.pages| == d.pages && |f.buffer| == d.pageWords
    && (forall p :: 0 <= p < d.pages ==> |f.pages[p]| == d.pageWords)
  }

  function BlankPage(d: Device): (page: seq<word>)
    ensures |page| == d.pageWords
  {
    seq(d.pageWords, _ => BLANK)
  }

  function BlankFlash(d: Device): (f: State)
    requires d.Valid()
    ensures ValidState(d, f) && f.buffer == BlankPage(d)
  {
    State(seq(d.pages, _ => BlankPage(d)), BlankPage(d))
  }

  /** Number of the page that holds a byte address. */
  function PageOf(d: Device, address: nat): (p: nat)
    requires d.Valid()
    decreases address
  {
    if address < d.PageSize() then 0 else 1 + PageOf(d, address - d.PageSize())
  }

  /** First address of that page: what masking with ~(SPM_PAGESIZE - 1) leaves. */
  function PageStart(d: Device, address: nat): (a: nat)
    requires d.Valid()
    ensures a <= address < a + d.PageSize()
    decreases address
  {
    if address < d.PageSize() then 0 else d.PageSize() + PageStart(d, address - d.PageSize())
  }

  /** Position of a byte address in its page, in words. */
  function OffsetOf(d: Device, address: nat): (i: nat)
    requires d.Valid()
    ensures i < d.pageWords
  {
    (address - PageStart(d, address)) / 2
  }

  lemma OneMorePage(n: nat, size: nat)
    ensures (n + 1) * size == n * size + size
  {
  }

  /** The page starts at the multiple of the page size that its number gives. */
  lemma {:induction false} PageStartIsMultiple(d: Device, address: nat)
    requires d.Valid()
    ensures PageStart(d, address) == PageOf(d, address) * d.PageSize()
    decreases address
  {
    if address < d.PageSize() {
    } else {
      PageStartIsMultiple(d, address - d.PageSize());
      OneMorePage(PageOf(d, address - d.PageSize()), d.PageSize());
    }
  }

  /** The bitwise AND of two words, over their lowest `bits` bits. */
  function BitAnd(a: word, b: word, bits: nat): (r: word)
    ensures r <= a && r <= b
  {
    if bits == 0 then 0 else 2 * BitAnd(a / 2, b / 2, bits - 1) + (a % 2) * (b % 2)
  }

  function BitOf(x: word, i: nat): (bit: nat)
  {
    if i == 0 then x % 2 else BitOf(x / 2, i - 1)
  }

  /** A bit is set if and only if it is set in both words. */
  lemma {:induction false} AndBit(a: word, b: word, bits: nat, i: nat)
    requires i < bits
    ensures BitOf(BitAnd(a, b, bits), i) == BitOf(a, i) * BitOf(b, i)
    decreases i
  {
    var rest, low := BitAnd(a / 2, b / 2, bits - 1), a % 2 * (b % 2);
    LowBit(rest, low);
    if i == 0 {
    } else {
      AndBit(a / 2, b / 2, bits - 1, i - 1);
    }
  }

  lemma LowBit(rest: nat, low: nat)
    requires low <= 1
    ensures (2 * rest + low) / 2 == rest && (2 * rest + low) % 2 == low
  {
  }

  function And(a: seq<word>, b: seq<word>): (r: seq<word>)
    requires |a| == |b|
    ensures |r| == |a|
  {
    seq(|a|, i requires 0 <= i < |a| => BitAnd(a[i], b[i], 16))
  }

  lemma {:induction false} AndOnes(w: word, ones: word, bits: nat)
    requires bits <= 16 && Pow2(bits) == ones + 1 && w <= ones
    ensures BitAnd(ones, w, bits) == w && BitAnd(w, ones, bits) == w
  {
    if bits == 0 {
    } else {
      AndOnes(w / 2, ones / 2, bits - 1);
    }
  }

  /** A word programmed into blank flash, or flash programmed from a blank buffer, comes out as it was. */
  lemma {:induction false} AndBlank(w: word)
    ensures BitAnd(BLANK, w, 16) == w && BitAnd(w, BLANK, 16) == w
  {
    assert Pow2(4) == 16 && Pow2(8) == 0x100 && Pow2(12) == 0x1000 && Pow2(16) == 0x1_0000;
    AndOnes(w, BLANK, 16);
  }

  function Apply(d: Device, f: State, op: Op): (r: State)
    requires ValidState(d, f)
    ensures ValidState(d, r)
  {
    match op
    case Erase(a) => if PageOf(d, a) < d.pages then f.(pages := f.pages[PageOf(d, a) := BlankPage(d)]) else f
    case Fill(a, w) => f.(buffer := f.buffer[OffsetOf(d, a) := w])
    case Write(a) =>
      var p := PageOf(d, a);
      State(if p < d.pages then f.pages[p := And(f.pages[p], f.buffer)] else f.pages, BlankPage(d))
  }

  function ApplyAll(d: Device, f: State, ops: seq<Op>): (r: State)
    requires ValidState(d, f)
    ensures ValidState(d, r)
    decreases |ops|
  {
    if ops == [] then f else ApplyAll(d, Apply(d, f, ops[0]), ops[1..])
  }

  lemma {:induction false} ApplyFirst(d: Device, f: State, op: Op, ops: seq<Op>)
    requires ValidState(d, f)
    ensures ApplyAll(d, f, [op] + ops) == ApplyAll(d, Apply(d, f, op), ops)
  {
    assert ([op] + ops)[1..] == ops;
  }

  lemma {:induction false} ApplyConcat(d: Device, f: State, a: seq<Op>, b: seq<Op>)
    requires ValidState(d, f)
    ensures ApplyAll(d, f, a + b) == ApplyAll(d, ApplyAll(d, f, a), b)
    decreases |a|
  {
    if a == [] {
      assert a + b == b;
    } else {
      assert (a + b)[1..] == a[1..] + b;
      ApplyConcat(d, Apply(d, f, a[0]), a[1..], b);
    }
  }

  /** The word at an even byte address; nothing but ones beyond the flash. */
  function WordAt(d: Device, f: State, address: nat): (w: word)
    requires ValidState(d, f)
  {
    if PageOf(d, address) < d.pages then f.pages[PageOf(d, address)][OffsetOf(d, address)] else BLANK
  }

  function ByteAt(d: Device, f: State, address: nat): (b: byte)
    requires ValidState(d, f)
  {
    if address % 2 == 0 then WordAt(d, f, address) % 0x100 else WordAt(d, f, address - 1) / 0x100
  }

  /** The flash as the bootloaders drive it. */
  class Memory {
    const d: Device
    var pages: seq<seq<word>>
    var buffer: seq<word>

    ghost predicate Valid()
      reads this
    {
      ValidState(d, View())
    }

    ghost function View(): (f: State)
      reads this
    {
      State(pages, buffer)
    }

    constructor (d: Device, pages: seq<seq<word>>, buffer: seq<word>)
      requires ValidState(d, State(pages, buffer))
      ensures Valid() && this.d == d && View() == State(pages, buffer)
    {
      this.d, this.pages, this.buffer := d, pages, buffer;
    }

    method BootPageErase(address: nat)
      requires Valid()
      modifies this
      ensures Valid() && View() == Apply(d, old(View()), Erase(address))
    {
      if PageOf(d, address) < d.pages {
        pages := pages[PageOf(d, address) := BlankPage(d)];
      }
    }

    method BootPageFill(address: nat, word: word)
      requires Valid()
      modifies this
      ensures Valid() && View() == Apply(d, old(View()), Fill(address, word))
    {
      buffer := buffer[OffsetOf(d, address) := word];
    }

    method BootPageWrite(address: nat)
      requires Valid()
      modifies this
      ensures Valid() && View() == Apply(d, old(View()), Write(address))
    {
      var p := PageOf(d, address);
      if p < d.pages {
        pages := pages[p := And(pages[p], buffer)];
      }
      buffer := BlankPage(d);
    }

    method ReadWord(address: nat) returns (w: word)
      requires Valid()
      ensures w == WordAt(d, View(), address)
    {
      w := if PageOf(d, address) < d.pages then pages[PageOf(d, address)][OffsetOf(d, address)] else BLANK;
    }

    method ReadByte(address: nat) returns (b: byte)
      requires Valid()
      ensures b == ByteAt(d, View(), address)
    {
      if address % 2 == 0 {
        var w := ReadWord(address);
        b := w % 0x100;
      } else {
        var w := ReadWord(address - 1);
        b := w / 0x100;
      }
    }
  }
}
