# Verified model of the distributed compression system

A Dafny 4.11 model, with proofs, of the four parts of the system that carry its logic:

1. the Huffman block codec (`huffman/huffman.c`),
2. the Intel HEX loader of the Printer bootloader (`BootloaderPrinter.c`),
3. the DFU bootloader (`BootloaderDFU.c`), on the same flash model,
4. the worker boards that claim their own bus addresses, and the controller's scan (`slave/main.c`, `main/main.c`).

Check everything with `dafny verify dfyconfig.toml`.

Code that changes things in place is a class or a method with loops, proved against a function; what the
code is for is then proved about that function.

| files | contents |
|---|---|
| Bits, BitStream | bits of bytes; the bit stream over an array |
| Basics | powers of two, sequences without repetition |
| HuffmanTree, Optimality, Depth, ShortText | the queue and the tree as values; minimal cost; code lengths |
| Serial, Codes, TextCode, Alphabet, Codec | serial trees, the code table, the code of a text, which alphabets are safe, the block format and the round trip |
| Pool, Huffman, HuffmanCodec | the node and cell pools with their links, and all functions of `huffman.c` on them |
| Flash, FlashWords | the self-programmed flash: pages, page buffer, erase, fill, write |
| HexParser, HexRecord, HexText, HexBase, HexLoad, HexProtect, HexLoader | the parser as a step function, its record invariant, HEX text, base records, what files load, what is protected, the parser class |
| DfuState, DfuRequests | commands and requests as a state machine |
| DfuDownload, DfuAlignment, DfuErase, DfuSecure, DfuRoundTrip, DfuInterrupted, DfuEeprom, DfuStart, DfuReports, DfuBootloader | its properties, and the class that refines it |
| Workers | self-addressing and scan |

## Main results

- `build_tree` makes a tree of minimal weighted path length from every sorted queue (`BuildTreeOptimal`). `build_queue`
  raises counts without moving cells, so that its queues come in every order. A queue gets an optimal tree if and only if
  its tree costs what the sorted queue's tree costs (`OptimalIff`), and all texts over an alphabet get one if and only if
  the alphabet has at most two bytes (`AlwaysOptimalIff`).
- The codes of a text fit their 8 bits if and only if its tree is at most 8 high (`CodesFitIff`), and those of all texts
  over an alphabet if and only if it has at most nine bytes (`AlwaysFitsIff`). Every text below 23 bytes fits, whatever the
  order of its queue (`ShortTextFits`); 62 bytes over any ten are enough to fail (`ShortTextTooDeep`), where a sorted queue
  would be safe below 89.
- Inflating a compressed block gives back the text if and only if no byte of it is 0, 42 (`*`) or 45 (`-`), and the guard of the
  decoding loop, with its 16-bit counters, holds at the start of every code (`RoundTripIff`). Below 65536 bits that means
  two distinct bytes and a last code that starts within `data_size` bytes (`ShortStreamFitsIff`). On arrays and pools:
  `CompressThenInflate`.
- The HEX loader clears its run flag if and only if a complete end-of-file record is followed on its line by a byte that
  brings the sum to zero, in a record that was not given up (`ExitsIff`). The parser stays in its checksum state, so that a
  wrong checksum byte can be followed by a right one; but an end-of-file record with data bytes at or above
  `BOOT_START_ADDR` is given up at the first of them and never ends the run.
- The loader loads every file of a contiguous image, in any split and with any noise, if and only if the image starts on
  the first flash page and reaches the end of that page (`AlwaysLoadsIff`): `PageStartAddress` starts at 0, and the last
  flush happens only when the parser's address, reset to 0 by the end record, lies on another page. Pages without a word
  of the image stay as they were (`LoadCorrect`).
- The loader checks every data byte against `BOOT_START_ADDR`, yet a stream spares the bootloader's pages if and only if it
  never stores a word while the current page is a clean one of that section (`SparesBootIff`). Files of an image do
  (`FileSpares`). Two data words at allowed addresses are enough to erase its first page (`BootPageErased`), and with a
  record without data between them any of its pages is erased and written (`BootPageWritten`).
- A base address record whose data address lies below `BOOT_START_ADDR` is read low byte first, and so is right if and only
  if both bytes are equal; otherwise it is refused, and right only if the base was so before (`BaseRightIff`). Once the
  base is at or above `BOOT_START_ADDR`, no stream ever changes it again, erases a page or fills a word (`BaseStays`).
- A DFU download puts its bytes in place, whatever the flash held, if and only if it starts a page or ends on the page
  it starts on (`AlwaysLandsIff`); then no other page changes, and the bytes come back with a read command and an upload
  (`FlashRoundTrip`, and `ProgramAndReadBack` on the object).
- Over every sequence of requests to a bootloader in secure mode, nothing is programmed or revealed before the
  application section is erased (`SecureRun`, `SecureSession`), and not one byte ever sent depends on what that section
  held (`NoInterference`, `TwinSessions`). The EEPROM is not so kept: the erase leaves it alone, and two bootloaders that
  differ only there send the same over all runs if and only if their EEPROMs are equal (`EepromShowsIff`).
- The erase command leaves the section blank if and only if the page buffer was empty (`EraseBlanksIff`). It is empty over
  every run in which no download is cut off (`RunEmpty`); one that is cut off, wherever it started, leaves there the words
  since its last page write, and the erase writes those to the first page (`CutThenErase`, `EraseLeavesWord`).
- Over every run of requests the run flag is cleared by exactly those that carry out a jump command in an unlocked
  bootloader whose flash begins with two 0xFF bytes, and the boot key is set by exactly the watchdog commands (`StartRun`,
  `ExitSequence`); a bootloader that stays secure is never told to leave (`SecureNeverStarts`).
- A version or signature byte reaches the host with the next upload unless a memory read is pending; a signature byte also
  not in the error state, in which its command is taken for the blank check and an address is sent (`InfoSentIff`).
- Over every run of self-addressing the boards have different addresses without a gap, and the scan finds exactly
  them if and only if no other device answers at the base address or at the k addresses behind it (`ScanExactIff`).

Where code and comments differ the model follows the code: the DFU start command clears `RunBootloader` when the first
flash word is 0xFFFF, although its comment speaks of a valid application; `queue_add_element` keeps a sorted queue sorted,
but `build_queue` does not keep its queue sorted.

## Model

| member | source | states |
|---|---|---|
| Bits.ReverseBitsReverses | huffman/huffman.c:343-349 | bit j of the reversed code is bit n-1-j of the code, for every length up to 8 |
| BitStreams.BitStream.PutBit | huffman/huffman.c:319-332 | the stream as a bit sequence gets the bit OR-ed in at the cursor, the cursor moves by one, bytes before the stream stay |
| BitStreams.BitStream.PutBits | huffman/huffman.c:334-340 | the low bits of the byte, lowest first, are OR-ed in at the cursor; everything else stays |
| BitStreams.BitStream.ReadBit | huffman/huffman.c:441-454 | returns the bit of the stream at the cursor and moves on; nothing is written |
| BitStreams.PutOne | huffman/huffman.c:319-332 | the byte-level OR at bit number b of byte i is the OR at position 8 * i + b of the bit sequence |
| HuffmanTree.InsertKeepsOrder | huffman/huffman.c:76-103 | inserting into a sorted queue keeps it sorted, behind all elements of the same weight |
| HuffmanTree.InsertConserves | huffman/huffman.c:76-103 | insertion adds exactly the new tree's weight and leaves, as a multiset |
| HuffmanTree.MergeConserves | huffman/huffman.c:204-223 | a round of build_tree keeps the total weight and the multiset of leaves |
| HuffmanTree.BuildTreeConserves | huffman/huffman.c:204-223 | the root weighs the whole queue, and the tree has exactly the queue's leaves |
| HuffmanTree.FullTree | huffman/huffman.c:204-223 | a tree over n leaves has 2n - 1 nodes and height below n |
| HuffmanTree.CostIsJoinWeights | huffman/huffman.c:204-223 | the weighted path length is the sum of the weights of all inner nodes |
| HuffmanTree.AddByteCounts | huffman/huffman.c:173-202 | one more byte keeps the queue an exact count of the text, each byte once, and adds 1 to the total |
| HuffmanTree.BuildQueueCounts | huffman/huffman.c:173-202 | the queue holds every byte of the text exactly once with its number of occurrences; the weights sum to the length |
| Optimality.BuildTreeOptimal | huffman/huffman.c:204-223 | from a sorted queue of leaves, no tree over the same weights has a smaller weighted path length |
| Optimality.RoundCost | huffman/huffman.c:204-223 | in any tree the two lightest weights can be brought to the deepest pair of leaves and merged, saving at least their sum |
| Depth.SortedDepthBound | huffman/huffman.c:204-223 | from a sorted queue of positive weights, height h needs total weight at least Fib(h + 2), so below 89 no code is longer than 8 bits |
| Depth.EveryQueueIsReached | huffman/huffman.c:173-202 | every queue of distinct bytes with positive counts, in any order, is what build_queue makes of some text |
| Depth.TenBytesTooDeep | huffman/huffman.c:173-223 | over any ten different bytes there is a text of 62 of them whose tree is 9 high |
| Depth.UnsortedNotOptimal | huffman/huffman.c:173-223 | for any three bytes there is a text for which build_tree's tree costs more than another tree over the same leaves |
| Serial.SerialRoundTrip | huffman/huffman.c:409-431 | a tree without marks, missing children included, parses back from its serial form anywhere in any bytes, up to weights, and exactly its length is read |
| Serial.ParseRoundTrip | huffman/huffman.c:409-431 | what was parsed, serialised again, is the bytes that were read, if none is 0 |
| Serial.SerialMarks | huffman/huffman.c:258-279 | in the serial form of a tree without marks, 42 stands once for every inner node and 45 once for every missing child, and an inner root begins with 42 |
| Serial.SerialLength | huffman/huffman.c:258-279 | the serial form has one byte for every node and every missing child |
| Codes.TableSpellsRoutes | huffman/huffman.c:286-303 | the table has one entry per leaf, left to right, and the entry's code and length spell the path to the leaf |
| Codes.RoutesLead | huffman/huffman.c:286-303 | each path leads from the root to its leaf and is no longer than the tree is high |
| Codes.LongestRoute | huffman/huffman.c:286-303 | in a full tree some path is as long as the tree is high |
| Codes.PrefixFree | huffman/huffman.c:286-303 | no code is the beginning of another |
| Codes.KraftExact | huffman/huffman.c:286-303 | the Kraft sum of the codes is exactly 1 |
| Codes.EmittedBits | huffman/huffman.c:351-369 | put_bits of the reversed code emits the turns of the path in order |
| Codes.WalkDecodes | huffman/huffman.c:456-479 | walking a path's bits returns its leaf's byte and consumes exactly the path |
| TextCode.TextTreeCounts | huffman/huffman.c:173-223 | the leaves of a text's tree are its bytes with their counts, and the root weighs the text's length |
| TextCode.BitCount | huffman/huffman.c:351-369 | the emitted bits number the weighted path length, which is the sum of the inner weights |
| TextCode.RouteBound | huffman/huffman.c:286-303 | no code is longer than the tree is high, whether it holds the zero byte or not |
| TextCode.DeepestRoute | huffman/huffman.c:286-303 | some code is as long as the tree is high, even if the zero byte stands at the bottom and gets none |
| TextCode.CodesFitIff | huffman/huffman.c:286-303 | the codes of a text fit 8 bits if and only if its tree is at most 8 high |
| TextCode.LowTreeFits | huffman/huffman.c:286-303 | so they do with at most 9 distinct bytes, and with a sorted queue below 89 bytes |
| Alphabet.OptimalIff | huffman/huffman.c:204-223 | the tree of a queue is minimal if and only if it costs what the tree of the sorted queue costs |
| Alphabet.AlwaysOptimalIff | huffman/huffman.c:173-223 | every text over an alphabet gets a minimal tree if and only if the alphabet has at most two bytes |
| Alphabet.ShortTextTooDeep | huffman/huffman.c:173-303 | over any ten bytes there is a text of 62 bytes with a code longer than 8 bits |
| ShortText.LightQueueLow | huffman/huffman.c:204-223 | from any queue of counted bytes of total weight below 23, in any order, build_tree makes a tree at most 8 high |
| Alphabet.ShortTextFits | huffman/huffman.c:173-303 | every text of fewer than 23 bytes has codes that fit 8 bits |
| Alphabet.AlwaysFitsIff | huffman/huffman.c:173-303 | every text over an alphabet has codes that fit if and only if the alphabet has at most nine bytes |
| Codec.InflateFrom | huffman/huffman.c:481-495 | decoding writes exactly the bytes up to the first one at which the loop's guard fails |
| Codec.InflateUnmarked | huffman/huffman.c:497-517 | no inflated byte is 0, 42 or 45, whatever the block |
| Codec.RoundTripIff | huffman/huffman.c:497-517 | inflating a compressed block returns the text if and only if it has no byte 0, 42 or 45 and the guard holds at every code |
| Codec.BlockMarks | huffman/huffman.c:373-407 | the block of a text with n distinct bytes, none a mark, has n - 1 bytes 42 in its tree, the first at offset 3, and no byte 45 |
| Codec.LeafBlock | huffman/huffman.c:456-517 | a block whose tree is a single leaf inflates to one question mark for every bit, never to its own byte |
| Codec.ShortStreamFitsIff | huffman/huffman.c:481-495 | below 65536 bits the guard holds at every code if and only if the text has two distinct bytes and its last code starts within data_size bytes |
| Codec.LengthSuffices | huffman/huffman.c:481-495 | the length of the text is always a sufficient data_size for such a text |
| Pools.LinkIn | huffman/huffman.c:76-103 | the two pointer writes make the cells a list with the new cell at its place |
| Pools.CountInPlace | huffman/huffman.c:173-202 | raising a weight in the shared pool changes exactly that queue element |
| Huffman.Memory.TreeAlloc | huffman/huffman.c:51-60 | hands out the next record of the pool, cleared, and changes no other |
| Huffman.Memory.QueueAlloc | huffman/huffman.c:62-69 | hands out the next cell of the pool, unlinked, and changes no other |
| Huffman.Memory.FindPlace | huffman/huffman.c:76-103 | the search stops behind the last element before the first heavier one |
| Huffman.Memory.QueueAddElement | huffman/huffman.c:76-103 | the list in the pool becomes the queue with the tree inserted, using one cell |
| Huffman.Memory.QueuePop2 | huffman/huffman.c:127-137 | returns the first two trees of the queue, none as the second if there is only one, and the list of the rest |
| Huffman.Memory.QueueSize | huffman/huffman.c:139-151 | the length of the list |
| Huffman.Memory.CountByte | huffman/huffman.c:173-202 | one round of build_queue on the pools is one counted byte, with a record and a cell for a new byte only |
| Huffman.Memory.BuildQueue | huffman/huffman.c:173-202 | the list holds the counted queue of the text; one record and one cell per distinct byte |
| Huffman.Memory.MergeTwo | huffman/huffman.c:204-223 | one round of build_tree on the pools, without a 16-bit wrap |
| Huffman.Memory.BuildTree | huffman/huffman.c:204-223 | the root represents the built tree; n - 1 more records and cells are used |
| HuffmanCodec.TreeGetSize | huffman/huffman.c:225-238 | the number of nodes of the tree that the records represent |
| HuffmanCodec.TreeCountLeaves | huffman/huffman.c:240-256 | the number of leaves of the tree that the records represent |
| HuffmanCodec.SerializeTreeNode | huffman/huffman.c:258-279 | writes exactly the serial form of the tree and nothing else |
| HuffmanCodec.BuildEncodingTable | huffman/huffman.c:286-303 | writes the entries of all leaves, in order, behind the ones already there |
| HuffmanCodec.FindEncodedByte | huffman/huffman.c:305-317 | finds the code and length of the byte's path |
| HuffmanCodec.CompressData | huffman/huffman.c:351-369 | the stream has all codes of the text OR-ed in, bytes before it stay, and the returned count is the number of bits, in 16 bits |
| Codec.PoolLimit | huffman/huffman.c:37-39 | both pools hold a tree over n bytes if and only if n is at most 30 |
| HuffmanCodec.BuildTextTree | huffman/huffman.c:373-407 | the two fixed pools suffice for 2n - 1 records and cells, and the root represents the tree of the text |
| HuffmanCodec.HuffmanCompress | huffman/huffman.c:373-407 | the block is header, serial tree and codes of the text, OR-ed into what the buffer held |
| HuffmanCodec.DeserializeTreeNode | huffman/huffman.c:409-431 | builds the parsed tree from one record per node, above all earlier records, and stops where the parse stops |
| HuffmanCodec.DeserializeNextChar | huffman/huffman.c:456-479 | returns the byte and the bit count, in 8 bits, of the walk from the cursor |
| HuffmanCodec.InflateData | huffman/huffman.c:481-495 | writes the decoded bytes and no others |
| HuffmanCodec.HuffmanInflate | huffman/huffman.c:497-517 | the output begins with the inflated bytes of the block and is otherwise unchanged |
| HuffmanCodec.CompressThenInflate | huffman/main.c:35-52 | compressing into a zeroed buffer and inflating, with any data_size within which the last code starts, gives back the text and leaves the rest of the output alone |
| HexParser.HexToDecimal | lufa/Bootloaders/Printer/BootloaderPrinter.c:198-206 | accepts exactly the characters 0 to 9 and A to F |
| HexText.HexChar | lufa/Bootloaders/Printer/BootloaderPrinter.c:198-206 | the upper-case digit of every value decodes to that value |
| HexParser.NoiseTransparent | lufa/Bootloaders/Printer/BootloaderPrinter.c:255-258 | characters other than 0 to 9, A to F and the colon change no flash operation and no later state, anywhere in any stream |
| HexRecord.AlwaysTracks | lufa/Bootloaders/Printer/BootloaderPrinter.c:239-371 | in every reachable mid-record state, phase, checksum, remaining count and type are those of the bytes since the last colon |
| HexRecord.ExitsIff | lufa/Bootloaders/Printer/BootloaderPrinter.c:353-365 | the run flag is cleared if and only if some character completes a byte that follows a complete end-of-file record on its line, not given up, and brings the plain sum of its bytes to zero modulo 256; digits are 0 to 9 and A to F |
| HexRecord.RunsUntilEnd | lufa/Bootloaders/Printer/BootloaderPrinter.c:70-106 | from the start on the bootloader runs until such a record comes |
| HexBase.BaseRightIff | lufa/Bootloaders/Printer/BootloaderPrinter.c:296-346 | after a base address record, from any record start, the base is the one that Intel HEX means if and only if its two bytes are equal, for a data address below the bootloader, or the base was that one before, for any other |
| HexBase.StuckForever | lufa/Bootloaders/Printer/BootloaderPrinter.c:239-306 | from a record start with a base in the bootloader section or above, no stream changes the base, erases a page or fills a word |
| HexBase.BaseStays | lufa/Bootloaders/Printer/BootloaderPrinter.c:239-346 | over every run from the start: once a stream has brought the base there, that holds from the next colon on |
| HexBase.EqualBytesRefused | lufa/Bootloaders/Printer/BootloaderPrinter.c:239-346 | a linear-address record with equal bytes sets such a base, and any such record after it is refused |
| HexText.EndText | lufa/Bootloaders/Printer/BootloaderPrinter.c:353-365 | `:00000001FF` is the record with no data, address 0, type 1 and its checksum |
| HexText.FeedRecords | lufa/Bootloaders/Printer/BootloaderPrinter.c:239-371 | parsing the records of an image, split in any way, does the flash operations of its words in order and nothing else |
| HexLoad.LoadCorrect | lufa/Bootloaders/Printer/BootloaderPrinter.c:239-371 | a file whose image starts on the first page and reaches its end is in the flash afterwards, byte for byte in the order of its records, the rest of its pages is blank, no other page changes, and the run flag is cleared |
| HexLoad.ShortImageLost | lufa/Bootloaders/Printer/BootloaderPrinter.c:214-231 | an image that ends within the first page is never written; its page is left erased |
| HexLoad.LateImageLost | lufa/Bootloaders/Printer/BootloaderPrinter.c:317-336 | the first word of an image that starts behind the first page is lost |
| HexLoad.AlwaysLoadsIff | lufa/Bootloaders/Printer/BootloaderPrinter.c:239-371 | every file of an image range is loaded into every flash if and only if the range starts on the first page and reaches its end |
| HexProtect.SparesBootIff | lufa/Bootloaders/Printer/BootloaderPrinter.c:300-306 | a stream erases and writes no page of the bootloader if and only if it never stores a word while a clean page of that section is current |
| HexProtect.FileSpares | lufa/Bootloaders/Printer/BootloaderPrinter.c:300-306 | a file of an image below the bootloader changes no page of the bootloader section |
| HexProtect.BootPageErased | lufa/Bootloaders/Printer/BootloaderPrinter.c:214-336 | a word at the end of the application section and another one below it erase the first page of the bootloader |
| HexProtect.BootPageWritten | lufa/Bootloaders/Printer/BootloaderPrinter.c:214-370 | a word at 0, no data at the start of any page of the bootloader below 64 KB and a word at 0 again erase that page and write the word to it |
| HexLoader.Loader.constructor | lufa/Bootloaders/Printer/BootloaderPrinter.c:70-106 | the initial parser state |
| HexLoader.Loader.FlushPageIfRequired | lufa/Bootloaders/Printer/BootloaderPrinter.c:214-231 | writes a dirty page exactly when the address has left it, and makes the new page current |
| HexLoader.Loader.StoreDataWord | lufa/Bootloaders/Printer/BootloaderPrinter.c:317-336 | erases a clean page, fills the word in, moves on and flushes |
| HexLoader.Loader.ReadDataByte | lufa/Bootloaders/Printer/BootloaderPrinter.c:296-351 | counts a data byte, refuses the bootloader section, pairs bytes and handles the three record types |
| HexLoader.Loader.ProcessByte | lufa/Bootloaders/Printer/BootloaderPrinter.c:260-371 | a complete byte, phase by phase |
| HexLoader.Loader.ParseIntelHEXByte | lufa/Bootloaders/Printer/BootloaderPrinter.c:239-371 | one character is one step of the parser, on its fields and on the flash |
| HexLoader.Loader.ParseAll | lufa/Bootloaders/Printer/BootloaderPrinter.c:383-397 | a stream of characters is the run of the step function |
| HexLoader.LoadFile | lufa/Bootloaders/Printer/BootloaderPrinter.c:376-404 | a whole file on the parser and the flash object: the flash holds its image, word for word and byte for byte, and is otherwise as LoadCorrect says, and the bootloader is to stop |
| Flash.AndBit | lufa/Bootloaders/DFU/BootloaderDFU.c:360-366 | a page write leaves a bit set if and only if it was set in the page and in the buffer |
| Flash.Memory.BootPageWrite | lufa/Bootloaders/DFU/BootloaderDFU.c:360-366 | a page write ANDs the buffer into one page and empties the buffer |
| DfuState.FirstNonBlank | lufa/Bootloaders/DFU/BootloaderDFU.c:718-744 | the least address of the section whose byte is not 0xFF, or the end of the section |
| DfuDownload.LoopLands | lufa/Bootloaders/DFU/BootloaderDFU.c:322-385 | from any point of the loop on, the rest of the image goes where it belongs, and the rest of the pages it uses is blank |
| DfuDownload.DownloadWord | lufa/Bootloaders/DFU/BootloaderDFU.c:322-385 | every word of the flash after a download that keeps to its pages: image, blank on the pages used, unchanged elsewhere |
| DfuInterrupted.CompleteEmpties | lufa/Bootloaders/DFU/BootloaderDFU.c:356-377 | a complete download, from any address, leaves the page buffer empty |
| DfuInterrupted.CutBuffer | lufa/Bootloaders/DFU/BootloaderDFU.c:332-354 | a download that is cut off leaves in the page buffer just the words since its last page write, each at its offset on its own page, for any start word |
| DfuInterrupted.PendingPlace | lufa/Bootloaders/DFU/BootloaderDFU.c:332-354 | the words that were not written keep their places in the buffer when they lie on two pages |
| DfuInterrupted.RestAligned | lufa/Bootloaders/DFU/BootloaderDFU.c:332-354 | for a download that keeps to its pages these are the words of the page it was filling |
| DfuInterrupted.CutThenErase | lufa/Bootloaders/DFU/BootloaderDFU.c:322-810 | an erase after that leaves the section blank if and only if those of the words whose offset lies in the section are blank |
| DfuInterrupted.EraseLeavesWord | lufa/Bootloaders/DFU/BootloaderDFU.c:322-810 | requests: after a download cut off within its first page, an erase leaves its first word in the flash and a blank check reports it |
| DfuInterrupted.CutShortExists | lufa/Bootloaders/DFU/BootloaderDFU.c:322-354 | there is such a request |
| DfuInterrupted.RunEmpty | lufa/Bootloaders/DFU/BootloaderDFU.c:250-578 | over every run without a cut-off download the page buffer is empty, so that an erase blanks the section |
| DfuAlignment.MisalignedLost | lufa/Bootloaders/DFU/BootloaderDFU.c:322-385 | a download that leaves a page it did not begin loses a word |
| DfuAlignment.AlwaysLandsIff | lufa/Bootloaders/DFU/BootloaderDFU.c:322-385 | a range is always downloaded correctly if and only if it starts a page or ends on its first page |
| DfuErase.EraseWord | lufa/Bootloaders/DFU/BootloaderDFU.c:790-810 | every word after an erase: blank below the bootloader, except the first page, which takes the buffer; unchanged above |
| DfuErase.EraseForgets | lufa/Bootloaders/DFU/BootloaderDFU.c:790-810 | flashes that differ in the application section only are equal after an erase |
| DfuErase.EraseBlanksIff | lufa/Bootloaders/DFU/BootloaderDFU.c:790-810 | the section is blank after an erase if and only if the page buffer was empty |
| DfuErase.BlankCheckReports | lufa/Bootloaders/DFU/BootloaderDFU.c:718-744 | the blank check changes nothing on a blank section, and else reports the least non-blank address in the page and address variables |
| DfuErase.EraseThenCheck | lufa/Bootloaders/DFU/BootloaderDFU.c:718-810 | after an erase with an empty page buffer the blank check reports no error |
| DfuSecure.LockedStep | lufa/Bootloaders/DFU/BootloaderDFU.c:250-578 | any request to a locked bootloader leaves it locked with both memories as they were, or erases the section |
| DfuSecure.SecureRun | lufa/Bootloaders/DFU/BootloaderDFU.c:611-654 | over every run: idle or error state, memories untouched and nothing revealed, up to the request that erases the section |
| DfuSecure.UnlockedIsBlank | lufa/Bootloaders/DFU/BootloaderDFU.c:750-811 | with an empty page buffer at the start, the section is blank when the run stops being locked |
| DfuSecure.SecureOutcome | lufa/Bootloaders/DFU/BootloaderDFU.c:250-578 | a bootloader that is secure at the end of a run was so all the time, with all its guarantees; otherwise they held up to the erase, and the section was blank then |
| DfuSecure.NoInterference | lufa/Bootloaders/DFU/BootloaderDFU.c:250-578 | over every run, before and after unlocking, what is sent does not depend on the section's contents while locked |
| DfuEeprom.EepromSurvives | lufa/Bootloaders/DFU/BootloaderDFU.c:487-811 | a locked bootloader that is told to erase, to read an EEPROM range and to upload sends what the EEPROM held while it was locked |
| DfuEeprom.EepromShowsIff | lufa/Bootloaders/DFU/BootloaderDFU.c:250-811 | two locked bootloaders that differ at most in the EEPROM send the same over all runs if and only if their EEPROMs are equal |
| DfuRoundTrip.DownloadRequest | lufa/Bootloaders/DFU/BootloaderDFU.c:267-419 | a program command with its firmware leaves the flash as the download loop does and touches nothing else |
| DfuRoundTrip.WordsAt | lufa/Bootloaders/DFU/BootloaderDFU.c:354 | word j of a payload is its bytes 2j and 2j + 1, low byte first |
| DfuRoundTrip.UploadRequest | lufa/Bootloaders/DFU/BootloaderDFU.c:420-518 | a read command and an upload send the words the flash holds on the range |
| DfuRoundTrip.FlashRoundTrip | lufa/Bootloaders/DFU/BootloaderDFU.c:322-486 | every payload byte of a download that keeps to its pages is at its byte address, and the upload sends the bytes in pairs, low byte first, across 64 KB pages too; the rest of the pages is blank and no other page changes |
| DfuRoundTrip.EepromUploadResumes | lufa/Bootloaders/DFU/BootloaderDFU.c:487-514 | an EEPROM upload that the host leaves after k bytes goes on there: both parts together are the range, then the state is idle |
| DfuRoundTrip.FlashUploadRepeats | lufa/Bootloaders/DFU/BootloaderDFU.c:443-486 | a flash upload that the host leaves changes nothing, so that the next one sends the whole range again, and only then the state is idle |
| DfuRoundTrip.EepromReadBack | lufa/Bootloaders/DFU/BootloaderDFU.c:386-408 | bytes written to the EEPROM read back, around the end of the address space too |
| DfuRoundTrip.EepromRoundTrip | lufa/Bootloaders/DFU/BootloaderDFU.c:386-513 | the bytes of an EEPROM download come back with a read command and an upload; the flash stays |
| DfuStart.StartStep | lufa/Bootloaders/DFU/BootloaderDFU.c:250-578 | any request clears the run flag and sets the boot key exactly if it carries a start command out, by the command's second parameter and bytes 0 and 1 of the flash |
| DfuStart.ExitSequence | lufa/Bootloaders/DFU/BootloaderDFU.c:750-789 | `04 03 k` and a DNLOAD without data, from any unlocked state: run flag cleared iff k is not 0 and the flash begins with FF FF, boot key set iff k is 0, jump address taken iff k is 1 and data follows |
| DfuStart.StartRun | lufa/Bootloaders/DFU/BootloaderDFU.c:250-789 | over every run flag and key change by exactly such requests, and only an unlocked bootloader ever waits for its exit |
| DfuStart.SecureNeverStarts | lufa/Bootloaders/DFU/BootloaderDFU.c:611-654 | a bootloader that is secure at the end of a run has run flag, boot key and jump address as they were |
| DfuReports.InfoRequest | lufa/Bootloaders/DFU/BootloaderDFU.c:816-859 | `05 w i`, locked or not: the response is the i-th of 20 DC FB, or 58 and the three signature bytes at 30 31 60 61; any other index gives the error state with ErrAddress and keeps the response |
| DfuReports.InfoSentIff | lufa/Bootloaders/DFU/BootloaderDFU.c:420-442 | the next upload sends that byte if and only if no memory read is pending and it is not a signature byte asked for in the error state, where the start address is sent |
| DfuReports.OtherUpload | lufa/Bootloaders/DFU/BootloaderDFU.c:420-518 | an upload without a pending memory read, or to a host that is gone, changes nothing; one with a pending read of no memory sends nothing and ends it |
| DfuReports.BlankAddressSent | lufa/Bootloaders/DFU/BootloaderDFU.c:428-435 | after a blank check that fails, the upload sends the lower 16 bits of the least address that is not blank, and the page variable holds the upper ones |
| DfuReports.PageRequest | lufa/Bootloaders/DFU/BootloaderDFU.c:648-652 | `06 03 00 p` sets the 64 KB page of an unlocked bootloader, and is refused in secure mode |
| DfuReports.PageThenRead | lufa/Bootloaders/DFU/BootloaderDFU.c:443-486 | after it a read command and an upload send the words from 65536 p on |
| DfuReports.Refused | lufa/Bootloaders/DFU/BootloaderDFU.c:611-633 | in secure mode any command but erase and read makes GETSTATUS report ErrWrite and the error state |
| DfuReports.Recovery | lufa/Bootloaders/DFU/BootloaderDFU.c:519-575 | CLRSTATUS and ABORT, in either order, make GETSTATUS and GETSTATE report the OK status and the idle state, and change nothing else |
| DfuReports.MemoryStep | lufa/Bootloaders/DFU/BootloaderDFU.c:250-578 | a request changes the flash only if it is the erase command, a program command in an unlocked bootloader, or brings firmware to a flash download, and the EEPROM only if it brings bytes to an EEPROM download |
| DfuReports.MemoryRun | lufa/Bootloaders/DFU/BootloaderDFU.c:250-578 | over every run without such a request the flash, page buffer included, stays as it was |
| DfuReports.DownloadEnds | lufa/Bootloaders/DFU/BootloaderDFU.c:308-313 | a DNLOAD request without data ends a download and touches no memory |
| DfuBootloader.Bootloader.constructor | lufa/Bootloaders/DFU/BootloaderDFU.c:43-97 | the values the globals start with |
| DfuBootloader.Bootloader.LoadStartEndAddresses | lufa/Bootloaders/DFU/BootloaderDFU.c:659-671 | both addresses, high byte first, and nothing else |
| DfuBootloader.Bootloader.ProcessMemProgCommand | lufa/Bootloaders/DFU/BootloaderDFU.c:676-701 | refines the command function: addresses, first page erased for the flash only, download state |
| DfuBootloader.Bootloader.CheckBlank | lufa/Bootloaders/DFU/BootloaderDFU.c:718-744 | the loop finds the first non-blank byte or the end |
| DfuBootloader.Bootloader.ProcessMemReadCommand | lufa/Bootloaders/DFU/BootloaderDFU.c:707-745 | refines the command function, blank check included |
| DfuBootloader.Bootloader.EraseSection | lufa/Bootloaders/DFU/BootloaderDFU.c:790-806 | the loop does the erase and write of every page below the bootloader, in order |
| DfuBootloader.Bootloader.ProcessWriteCommand | lufa/Bootloaders/DFU/BootloaderDFU.c:750-811 | refines the command function: start, exit and erase, and security is lifted by the erase only |
| DfuBootloader.Bootloader.ProcessReadCommand | lufa/Bootloaders/DFU/BootloaderDFU.c:816-859 | refines the command function, address errors included |
| DfuBootloader.Bootloader.ProcessBootloaderCommand | lufa/Bootloaders/DFU/BootloaderDFU.c:611-654 | the secure-mode check and the dispatch |
| DfuBootloader.Bootloader.ReadCommandPacket | lufa/Bootloaders/DFU/BootloaderDFU.c:291-306 | command and up to five parameters from the packet, older parameters kept behind them, the size counted down |
| DfuBootloader.Bootloader.WriteWords | lufa/Bootloaders/DFU/BootloaderDFU.c:322-385 | the loop does exactly the flash operations of the words that arrive, also when the host disconnects |
| DfuBootloader.Bootloader.WriteEepromBytes | lufa/Bootloaders/DFU/BootloaderDFU.c:386-408 | the bytes that arrive, one by one, with a 16-bit address |
| DfuBootloader.Bootloader.SendFlash | lufa/Bootloaders/DFU/BootloaderDFU.c:443-486 | the words of the range in order, as many as the host takes |
| DfuBootloader.Bootloader.SendEeprom | lufa/Bootloaders/DFU/BootloaderDFU.c:487-510 | the bytes of the range in order, as many as the host takes, the address moved on by them |
| DfuBootloader.Bootloader.ControlRequest | lufa/Bootloaders/DFU/BootloaderDFU.c:250-578 | a request on the globals and the memories is one step of the state machine, with its outputs |
| DfuBootloader.Bootloader.Session | lufa/Bootloaders/DFU/BootloaderDFU.c:250-578 | a sequence of requests is a run of the state machine, on which the run theorems speak |
| DfuBootloader.Bootloader.SecureSession | lufa/Bootloaders/DFU/BootloaderDFU.c:250-654 | a session in secure mode: flash, EEPROM and outputs of the object as SecureOutcome says, and run flag, boot key and jump address as SecureNeverStarts says |
| DfuBootloader.Bootloader.ProgramAndReadBack | lufa/Bootloaders/DFU/BootloaderDFU.c:322-486 | program, read and upload requests on the object: the flash holds the payload bytes at their addresses, the rest of the pages is blank, no other page has changed, and the bytes are returned in pairs |
| DfuBootloader.TwinSessions | lufa/Bootloaders/DFU/BootloaderDFU.c:250-654 | two objects that differ in the application section only answer every session alike |
| Workers.KeepsAddress | slave/main.c:43-62 | a board that is initialised again finds its own address free and keeps it |
| Workers.StepKeeps | slave/main.c:43-62 | one call keeps the addresses different, gap-free and off other devices; no other board changes |
| Workers.RunKeeps | slave/main.c:43-62 | over every run that invariant holds, initialised boards keep their addresses, and exactly the called boards join |
| Workers.RoomNeeded | slave/main.c:43-62 | with fewer free addresses than boards, the last board finds none |
| Workers.ScanReaches | main/main.c:234-245 | the scan reaches every initialised board, whatever other devices there are |
| Workers.ScanExactIff | main/main.c:234-245 | the scan finds the k boards and nothing else if and only if no other device answers at 0x20 or the k addresses behind it |
| Workers.SelfAddressing | slave/main.c:43-62 | from switched-on boards, over every run: one address each, without a gap, and found by the scan |
| Workers.Bus.AutoAddress | slave/main.c:43-62 | the loop ends at the first free address from the board's workerID on, and only that board changes |
| Workers.Bus.ScanI2c | main/main.c:234-245 | the count is the length of the run of answering addresses, which the array lists in order; its other entries stay |
| Workers.Bus.AddressAndScan | main/main.c:234-271 | up to ten boards, any order, any repetition: the scan returns their number and their addresses in order |

## Left out

- HuffmanCompress: demands codes of at most 8 bits, at most 30 distinct bytes and a large enough buffer; otherwise the original shifts by a negative amount or runs over its pools or buffer, which C leaves undefined.
- HuffmanInflate: demands a block whose tree and codes lie within its bytes, for the same reason, and separate input and output arrays; a malformed block is `None` in `Codec.Inflate`.
- InflateData: read-only inputs are passed as sequences where the original passes `const` pointers, and buffers are shorter than 65536 bytes.
- LoadCorrect: images are whole words below 64 KB at base address 0; `BaseRightIff` and `BaseStays` say what records that set another base do.
- ShortTextFits: the bound of 23 bytes is not claimed to be the greatest; `ShortTextTooDeep` needs 62.
- AlwaysLandsIff: the start address is even, a page has at most 255 words (the counter is 8 bits wide), and the page buffer is empty at the start.
- ControlRequest: the USB endpoint, its packets, fillers and suffix are a stream of payload bytes; a disconnect is a stream that ends early in a download, and any number of words or bytes taken in an upload, where the original notices it between packets only.
- Session: watchdog, jump to the application and the main loop are not modelled; `MagicBootKey` is a flag.
- The EEPROM is modelled with all 65536 addresses.
- AutoAddress: demands a free address at or above the board's workerID; boards call it one at a time.
- The counters `allocated_tree_size` and `allocated_queue_size` of `huffman_t`, which are written and never read.
- The parser reset in `EVENT_USB_Device_ConfigurationChanged`: it puts the parser back to waiting for a line, a state from which the record statements start anyway.
- `queue_remove_element`, `queue_clear` and `count_distinct_chars`, which nothing calls; the copies of the codec in `main` and `slave`.
- Job sequencing between controller and workers, FRAM files, USB console, buttons and LEDs.
- The CDC, HID and MassStorage bootloaders, which repeat the flash argument or rest on library code.
