# SkyEye device and debugger models

A Dafny model of the parts of the SkyEye board simulator that transform data step by step: display unpacking, two
Ethernet controllers, four flash and NAND chips, ARM memory banks and the GDB remote stub. Where the source changes
state in place, a class or an array method does too, and its contract equates the new state with a specification
function of the old one; lemmas then prove what the component is for about those functions, over every run.

| file | models |
|---|---|
| `Common.dfy`, `BitFields.dfy` | shared types; bit fields of words held as numbers |
| `LcdUnpack.dfy` | the frame-buffer converter |
| `Rtl8019Ring.dfy`, `Rtl8019Dma.dfy`, `Rtl8019Traffic.dfy`, `Rtl8019Chip.dfy` | the NE2000-style receive ring, remote DMA and transmit, every run of both, and the card itself |
| `NandFlash.dfy`, `NandChip.dfy` | the small-block NAND pin machine |
| `IntelFlash.dfy`, `IntelChip.dfy` | the 28F128J3A write state machine |
| `JedecFlash.dfy`, `JedecChip.dfy` | the SST39LVF160 and Am29 command recognisers and their arrays |
| `ArmMemory.dfy`, `BankLookup.dfy` | word-array banks in both byte orders, image loading, the cached lookup |
| `GdbPacket.dfy`, `GdbConnection.dfy` | packet framing, hex codecs, chunked input |
| `Tracepoints.dfy`, `TraceRecorder.dfy` | tracepoint action trees and recorded frames |
| `Cs8900a.dfy` | the receive mailbox and transmit buffer |

`dafny verify dfyconfig.toml` checks everything.

## Where the code does not do what it is for

Each is kept as the code has it, shown by a lemma, and followed by the exact condition under which the code is right.

- A packet that exactly fills the RTL8019's free space makes the ring look empty (`ExactFillLosesFrames`); the ring is
  a queue exactly when that never happens (`RingIsQueue`).
- Odd-length remote DMA by words or halfwords never ends (`OddWordsNeverEnd`, `WordsFinish`, `OddHalfwordsNeverEnd`,
  `HalfwordsFinish`), and the transmit command that also starts the card sends nothing and reports success
  (`TransmitNeedsRunning`).
- A buffered Intel program indexes its slots modulo 16 words and checks only the latched sector's lock, so a load
  outside the window reaches another word, of a locked sector too (`AliasedLoadReachesLockedSector`,
  `OtherSectorKeptExactly`, `BufferedExactlyInWindow`).
- The NAND RESET command lifts write protection (`ResetLiftsWriteProtect`); without the pin, protection lasts exactly
  until a RESET is latched (`WriteProtectExactly`), and it is what the array shows (`ZeroProgramTellsWp`). A program
  without a pointer command counts its column from where the last sequence left off (`SecondProgramLandsBehind`,
  `BareProgramExactly`).
- The SST39 and Am29 erase from an unaligned start is off by the misalignment (`EraseExact`). The first write that
  leaves its unlock sequences makes an SST39 deaf to every further write, six unmatched writes an Am29, until a read
  (`OneStrayWrite`, `ReachableExactly`). An Am29 read between unlock and last cycle loses program data 0xb0 and 0x30
  (`ProgramsExactly`) and the sector-erase code 0x30 itself (`ErasesExactly`). An SST39 leaves its ID and query
  modes only after a read (`ModesAndBack`). A program overwrites where the real chips can only clear bits
  (`ProgramRaisesBit`); the two agree exactly on erased targets (`ProgramClearsExactly`).
- Big-endian hosts show pixels of 16 and 32 bits differently (`HostsAgree`).
- The bank cache answers from a later bank that an earlier one overlaps (`OverlapMisleads`, `CacheTransparent`).
- GDB payloads with an eighth bit or a `#` do not survive framing (`FrameRoundTrip`).
- A frame lookup by a negative number or one past the end fails but moves the selection (`FailureMovesSelection`,
  `FailureKeepsExactly`), and a lookup by tracepoint from no selection passes over the first frame (`OnlyFrameMissed`,
  `FirstFoundExactly`).
- An empty CS8900A packet blocks the mailbox until two data reads (`EmptyPacketSticks`, `ReleasedExactly`).

## Model

| member | source | states |
|---|---|---|
| LcdUnpack.Convert | src/device/lcd/skyeye_lcd.c:157-230 | the converter ends, calls back exactly w*h times, and call j gets the lookup of what the frame buffer shows at bit (line_width*(y+j/w)+x+j%w)*depth, told from the bytes of the raw word there, for every depth, bit order, swap setting and host; the words it reads are exactly those that hold a requested pixel; invalid arguments give no call |
| LcdUnpack.FieldShown | src/device/lcd/skyeye_lcd.c:186-226 | what the loops compute for a pixel is that colour: from the four bytes of the raw word in memory order, turned round by the word swap on a little-endian host when the flag is 1 and on a big-endian one when it is 0 |
| LcdUnpack.UnpackWord | src/device/lcd/skyeye_lcd.c:200-227 | the byte loop emits the next pixels of the line up to the end of the word or the request, from the carried offsets on |
| LcdUnpack.UnpackByte | src/device/lcd/skyeye_lcd.c:201-212 | the bit loop emits the next pixels of the line up to the end of the byte or the request |
| LcdUnpack.PixelsTileWord | src/device/lcd/skyeye_lcd.c:200-227 | for every depth and order, each bit of a 32-bit word belongs to exactly one pixel |
| LcdUnpack.RightToLeftReverses | src/device/lcd/skyeye_lcd.c:202-217 | right-to-left order is left-to-right order turned round inside each word |
| LcdUnpack.SwapReversesBytes | src/device/lcd/skyeye_lcd.c:187-196 | the word swap turns the four bytes round |
| LcdUnpack.HostsAgree | src/device/lcd/skyeye_lcd.c:186-226 | with swap 0 or 1, big- and little-endian hosts show the same picture for all frame buffers if and only if depth < 16 |
| Rtl8019Ring.StoredReadsBack | src/device/net/dev_net_rtl8019.c:868-882 | a block stored cyclically reads back cyclically, and no byte outside it changes |
| Rtl8019Ring.ReceiveStores | src/device/net/dev_net_rtl8019.c:801-884 | an accepted frame stands round the ring from the old CURR, its header naming the new CURR; no other byte of memory changes |
| Rtl8019Ring.ReceivesExactly | src/device/net/dev_net_rtl8019.c:774-900 | a stopped or looped-back card ignores a packet; one that does not fit raises OVW and nothing else; any other is stored byte by byte at literal addresses (status 1, next page, length with header, packet, zeros up to 60), moves CURR, and raises PRX; interrupts are raised as IMR allows |
| Rtl8019Ring.ReceiveExtendsChain | src/device/net/dev_net_rtl8019.c:790-884 | an accepted frame extends the chain of linked frames, and no byte of the pages from BNRY to CURR changes |
| Rtl8019Ring.ReceiveKeepsRing | src/device/net/dev_net_rtl8019.c:790-824 | an accepted packet joins the queue, with CURR and BNRY telling a full ring from an empty one, if and only if it leaves a free page |
| Rtl8019Ring.ArrivalHolds | src/device/net/dev_net_rtl8019.c:790-884 | an arrival is taken exactly when it fits, and the ring holds the queue after it if and only if it did not fill the ring |
| Rtl8019Ring.HoldsElsewhere | src/device/net/dev_net_rtl8019.c:790-884 | whatever happens outside the ring pages and its two pointers leaves the queue alone |
| Rtl8019Ring.OutsideExactly | src/device/net/dev_net_rtl8019.c:868-882 | an address is outside exactly when no byte of the ring has it |
| Rtl8019Ring.FrontFrame | src/device/net/dev_net_rtl8019.c:826-884 | the oldest unread frame stands whole at BNRY and its header names the next one |
| Rtl8019Ring.ReleaseTakesFirst | src/device/net/dev_net_rtl8019.c:652-654 | moving BNRY along the next-page link frees exactly the oldest packet |
| Rtl8019Traffic.RingIsQueue | src/device/net/dev_net_rtl8019.c:141-900 | over every run of arrivals, link-following releases, commands, transfer, interrupt and transmit configuration registers, remote reads and remote writes outside the ring, at every point the ring holds exactly the accepted unread packets in order, with CURR and BNRY in range, if and only if no arrival fills the free space exactly; arrivals are refused exactly when too large, in loopback or stopped |
| Rtl8019Traffic.ElsewhereStep | src/device/net/dev_net_rtl8019.c:141-348 | commands, register writes and the data port touch neither the ring nor its pointers; only commands change the stop bit and only TCR writes the loopback bits |
| Rtl8019Traffic.RegistersWritten | src/device/net/dev_net_rtl8019.c:660-710 | the transfer, mask and transmit registers take what is written, and ones written to the interrupt status clear those bits |
| Rtl8019Traffic.OldestReadsBack | src/device/net/dev_net_rtl8019.c:183-348 | after any such run the guest sees an empty ring exactly when no packet waits, and otherwise reads at BNRY status 1, the length, byte i of the oldest packet at offset 4+i, and zeros up to 60 |
| Rtl8019Ring.LinksVisitQueue | src/device/net/dev_net_rtl8019.c:821-884 | following next-page links from BNRY visits exactly the unread frames, in order, intact, and ends at CURR |
| Rtl8019Ring.ExactFillLosesFrames | src/device/net/dev_net_rtl8019.c:790-824 | a packet that exactly fills the ring makes CURR equal BNRY, all space counts as free, and the next packet overwrites the oldest unread frame |
| Rtl8019Dma.ByteTransfer | src/device/net/dev_net_rtl8019.c:250-285 | an n-byte remote write stores its first n bytes in place; exactly at byte n it clears command bit 0x10, sets 0x20 and RDC, and interrupts if IMR allows; it ignores the rest |
| Rtl8019Dma.WritePastEnd | src/device/net/dev_net_rtl8019.c:220-268 | a remote write at or past offset 0x4000 stores nothing and raises OVW |
| Rtl8019Dma.WordTransfer | src/device/net/dev_net_rtl8019.c:211-285 | a remote write of even length by words leaves the same card as by bytes |
| Rtl8019Dma.WordsFinish | src/device/net/dev_net_rtl8019.c:211-247 | by words, k words finish an n-byte transfer if and only if n is even and n <= 2k |
| Rtl8019Dma.OddWordsNeverEnd | src/device/net/dev_net_rtl8019.c:228-242 | an odd count never reaches zero by words: the command bit stays and RDC is not raised, whatever is written |
| Rtl8019Dma.ReadTransfer | src/device/net/dev_net_rtl8019.c:321-348 | an n-byte remote read yields the n bytes at its address, ends exactly at byte n, then yields zeros |
| Rtl8019Dma.HalfwordTransfer | src/device/net/dev_net_rtl8019.c:288-348 | a remote read of even length by halfwords leaves the same card and yields the same bytes as by bytes |
| Rtl8019Dma.OddHalfwordsNeverEnd | src/device/net/dev_net_rtl8019.c:288-318 | a remote read of odd length by halfwords yields the bytes from its address on and past its own end, with command bit, status bits and interrupts as they were, for as long as it stays inside the memory |
| Rtl8019Dma.HalfwordsFinish | src/device/net/dev_net_rtl8019.c:288-318 | by halfwords, k reads finish an n-byte transfer, and raise RDC, if and only if n is even and n <= 2k |
| Rtl8019Dma.FrameReadsBack | src/device/net/dev_net_rtl8019.c:183-191 | reading the oldest frame by one remote read, or by two when it wraps, returns its header, the bytes of its packet and the zeros of its padding |
| Rtl8019Dma.RingReads | src/device/net/dev_net_rtl8019.c:183-191 | one or two remote reads from a page return the ring in cyclic order |
| Rtl8019Dma.LoadedIsSent | src/device/net/dev_net_rtl8019.c:158-208 | n bytes written by remote DMA at page TPSR and transmitted with count n are sent as they are, with PTX or COL as the host answers |
| Rtl8019Dma.TransmitNeedsRunning | src/device/net/dev_net_rtl8019.c:158-180 | a transmit command sends the buffer if and only if the card was already running before that write; otherwise it sends nothing and still reports PTX |
| Rtl8019Dma.CommandsExactly | src/device/net/dev_net_rtl8019.c:141-208 | every command byte, bit by bit: what is sent and reported, which offsets and counts are taken over, and that CR takes the byte; a byte without DMA bits is ignored |
| Rtl8019Dma.PortWrites | src/device/net/dev_net_rtl8019.c:211-285 | one byte or word written to the port: bytes stored, offset on, count down modulo 2^32, and the end exactly at zero |
| Rtl8019Dma.PortReads | src/device/net/dev_net_rtl8019.c:288-348 | one byte or halfword read from the port, low byte first, likewise |
| Rtl8019Chip.Copy | src/device/net/dev_net_rtl8019.c:871-881 | the copy replaces exactly its own stretch of memory |
| Rtl8019Chip.StoredStraight | src/device/net/dev_net_rtl8019.c:870-873 | a frame within the ring end is stored by the contiguous branch as specified |
| Rtl8019Chip.StoredWrapped | src/device/net/dev_net_rtl8019.c:874-882 | a frame past the ring end is stored by the two-copy branch as specified |
| Rtl8019Chip.Rtl8019.Store | src/device/net/dev_net_rtl8019.c:868-882 | both copy branches leave the cyclically stored frame |
| Rtl8019Chip.Rtl8019.Input | src/device/net/dev_net_rtl8019.c:774-900 | the imperative receive does what the ring specification says |
| Rtl8019Chip.Rtl8019.Command | src/device/net/dev_net_rtl8019.c:141-208 | write_cr, serving the command bits in turn on the old CR |
| Rtl8019Chip.Rtl8019.PutByte | src/device/net/dev_net_rtl8019.c:250-285 | remote_write_byte with its overflow guard |
| Rtl8019Chip.Rtl8019.PutWord | src/device/net/dev_net_rtl8019.c:211-247 | remote_write_word with its overflow guard |
| Rtl8019Chip.Rtl8019.GetByte | src/device/net/dev_net_rtl8019.c:321-348 | remote_read_byte |
| Rtl8019Chip.Rtl8019.GetHalfword | src/device/net/dev_net_rtl8019.c:288-318 | remote_read_halfword |
| NandFlash.StepEffect | src/device/nandflash/nandflash_smallblock.c:134-299 | the array changes only at a confirmed erase or page program, by exactly that commit |
| NandFlash.BitsRiseOnlyByErase | src/device/nandflash/nandflash_smallblock.c:27-46 | over every pin run, a bit that goes 0 to 1 was erased on the way through ERASE1, three address cycles and ERASE2 with WP high |
| NandFlash.BitsFallOnlyByProgram | src/device/nandflash/nandflash_smallblock.c:47-80 | over every pin run, a bit that goes 1 to 0 was programmed on the way through SEQIN, four address cycles and PAGEPROG |
| NandFlash.OneCommitPerSequence | src/device/nandflash/nandflash_smallblock.c:134-216 | between two commits a new ERASE1 or SEQIN is latched |
| NandFlash.WriteProtectHolds | src/device/nandflash/nandflash_smallblock.c:398-410 | while WP is low and stays low, no run without RESET alters the array |
| NandFlash.WriteProtectExactly | src/device/nandflash/nandflash_smallblock.c:134-216 | over every run that leaves the WP pin alone, WP stays low if and only if no RESET command is latched |
| NandFlash.ZeroProgramTellsWp | src/device/nandflash/nandflash_smallblock.c:60-80 | a program of a zero over a byte with a bit set leaves the array as it was if and only if WP is low |
| NandFlash.ResetLiftsWriteProtect | src/device/nandflash/nandflash_smallblock.c:465-485 | the RESET command raises the WP state without the pin: a program after it goes through |
| NandFlash.ProgramAndsData | src/device/nandflash/nandflash_smallblock.c:47-80 | a whole program sequence ands n bytes into row and column and changes no other byte of the device |
| NandFlash.BareProgramAndsData | src/device/nandflash/nandflash_smallblock.c:163-226 | a program without a pointer command ands its n bytes into the row from the page offset left over plus its column, and nothing else |
| NandFlash.BareProgramExactly | src/device/nandflash/nandflash_smallblock.c:163-226 | for all contents a program without a pointer command clears bits where its column says if and only if no page offset is left over or its data clears nothing |
| NandFlash.SecondProgramLandsBehind | src/device/nandflash/nandflash_smallblock.c:163-226 | a second program of the same column without a pointer command lands one byte behind the first |
| NandFlash.ReadsFollowAddress | src/device/nandflash/nandflash_smallblock.c:81-108 | reads after an address return the bytes from that address on |
| NandFlash.AddressWraps | src/device/nandflash/nandflash_smallblock.c:217-243 | for every column and row the address is 528*row+offset modulo 2^32 |
| NandFlash.SpareAreaRead | src/device/nandflash/nandflash_smallblock.c:81-107 | after READOOB at row r, column c < 16, the n-th byte read is spare byte (c+n)%16 of page r+(c+n)/16, and every fetched address is >= 512 modulo 528 |
| NandFlash.SequentialRead | src/device/nandflash/nandflash_smallblock.c:81-107 | a main-area read runs on byte by byte through the device |
| NandFlash.ProgramThenRead | src/device/nandflash/nandflash_smallblock.c:415-445 | programming n bytes and reading the same address back gives old AND data, in order |
| NandFlash.ReadIdReturnsId | src/device/nandflash/nandflash_smallblock.c:109-133 | READID, one address byte and four reads return the four ID bytes in order, then the chip is idle with its array as it was |
| NandFlash.EraseSetsBlock | src/device/nandflash/nandflash_smallblock.c:27-46 | the host sequence 0x60, three row bytes, 0xd0 sets exactly the 32 pages of 528 bytes of the row's block to 0xff while WP is high, and changes nothing while it is low |
| NandFlash.StatusTellsWp | src/device/nandflash/nandflash_smallblock.c:374-410 | after any run from power-on the status command and a read return 0xc0 while WP is high and 0x40 while it is low, and leave the array alone |
| NandFlash.ReadPastEnd | src/device/nandflash/nandflash_smallblock.c:81-107 | a read past 131072 pages fetches nothing and does not move on |
| NandFlash.ResetIsPowerOn | src/device/nandflash/nandflash_smallblock.c:446-483 | RESET leaves the chip as power-on does, but for its selection and its last address |
| NandFlash.PinsFollow | src/device/nandflash/nandflash_smallblock.c:308-410 | each pin follows its changes, a strobe acts on its edge only, and nothing happens to a chip that is not selected |
| NandChip.AndPage | src/device/nandflash/nandflash_smallblock.c:60-80 | the commit loop ands the page buffer into the page; the new state is the pin specification's |
| NandChip.Chip.DoErase | src/device/nandflash/nandflash_smallblock.c:27-46 | the erase loop, under WP; the new state is the pin specification's |
| NandChip.Chip.DoDataWrite | src/device/nandflash/nandflash_smallblock.c:47-59 | a data cycle into the page buffer; the new state is the pin specification's |
| NandChip.Chip.FinishWrite | src/device/nandflash/nandflash_smallblock.c:60-80 | the commit under WP; the new state is the pin specification's |
| NandChip.Chip.DoRead | src/device/nandflash/nandflash_smallblock.c:81-108 | one fetch and the move of the read position; the new state is the pin specification's |
| NandChip.Chip.DoCmd | src/device/nandflash/nandflash_smallblock.c:134-216 | the command latch; the new state is the pin specification's |
| NandChip.Chip.DoAddr | src/device/nandflash/nandflash_smallblock.c:217-299 | the address latch; the new state is the pin specification's |
| NandChip.Chip.SetWE | src/device/nandflash/nandflash_smallblock.c:351-373 | a write-enable edge latches command, address or data; the new state is the pin specification's |
| NandChip.Chip.SetRE | src/device/nandflash/nandflash_smallblock.c:374-397 | a read-enable edge fetches; the new state is the pin specification's |
| NandChip.Chip.SetWP | src/device/nandflash/nandflash_smallblock.c:398-410 | the write-protect pin; the new state is the pin specification's |
| NandChip.Chip.Reset | src/device/nandflash/nandflash_smallblock.c:465-485 | power-on values; the new state is the pin specification's |
| NandChip.Chip.SendCmd | src/device/nandflash/nandflash_smallblock.c:415-423 | a command byte by pins; the new state is the pin specification's |
| NandChip.Chip.SendAddr | src/device/nandflash/nandflash_smallblock.c:430-437 | an address byte by pins; the new state is the pin specification's |
| NandChip.Chip.SendData | src/device/nandflash/nandflash_smallblock.c:424-429 | a data byte by pins; the new state is the pin specification's |
| NandChip.Chip.ReadData | src/device/nandflash/nandflash_smallblock.c:438-445 | a data byte read by pins; the new state is the pin specification's |
| IntelFlash.WriteQuiet | src/device/flash/dev_flash_intel.c:307-517 | every write leaves all busy and suspended flags clear, so the suspend branches are dead; in buffer mode loaded <= count <= 16 |
| IntelFlash.ResetQuiet | src/device/flash/dev_flash_intel.c:60-92 | after reset the chip is ready, reads array data, has programming enabled, no error and no lock |
| IntelFlash.WriteProgresses | src/device/flash/dev_flash_intel.c:307-517 | from any non-ready state each write reaches ready or lowers the measure |
| IntelFlash.ReturnsToReady | src/device/flash/dev_flash_intel.c:307-517 | from any state the machine is ready within 18 writes, whatever they are |
| IntelFlash.WriteOnlyClearsBits | src/device/flash/dev_flash_intel.c:354-427 | a write that is not a confirmed erase only clears bits |
| IntelFlash.BitsRiseOnlyByErase | src/device/flash/dev_flash_intel.c:428-465 | over every run a bit rises only through a confirmed erase of its unlocked sector |
| IntelFlash.LockedWordSafe | src/device/flash/dev_flash_intel.c:354-512 | over every run with loads inside their windows, a word of a locked sector keeps its value until clear-locks |
| IntelFlash.OtherSectorKeptExactly | src/device/flash/dev_flash_intel.c:330-384 | a word of another sector survives a buffered program for all data if and only if no load lands on its slot inside the window |
| IntelFlash.AliasedLoadReachesLockedSector | src/device/flash/dev_flash_intel.c:330-384 | two loads of one unlocked sector that clear a word of the next, locked sector |
| IntelFlash.BufferedCommits | src/device/flash/dev_flash_intel.c:311-395 | a buffered program ands the last data loaded per slot into the 16 words from the first load on |
| IntelFlash.WordByWordPrograms | src/device/flash/dev_flash_intel.c:396-427 | word programs and their data in turn |
| IntelFlash.BufferedEqualsWordByWord | src/device/flash/dev_flash_intel.c:311-427 | 1 to 16 distinct words inside one window of one unlocked sector: buffered equals word by word |
| IntelFlash.BufferedExactlyInWindow | src/device/flash/dev_flash_intel.c:311-427 | the two agree for all data and memories if and only if the addresses are distinct words of the first one's window |
| IntelFlash.StatusTellsOutcome | src/device/flash/dev_flash_intel.c:161-175 | after a command is carried out the status is 0x80 if and only if it was allowed, and the protection bit is set if and only if a lock refused it |
| IntelFlash.ProgramsWord | src/device/flash/dev_flash_intel.c:396-427 | 0x40 or 0x10 and a data write and the data into that one word if programming is enabled and its sector unlocked; otherwise only the error flags change |
| IntelFlash.ErasesSector | src/device/flash/dev_flash_intel.c:428-465 | 0x20 and 0xd0 set exactly the words of the 256K sector to ones if programming is enabled and it is unlocked; otherwise only the error flags change |
| IntelFlash.LocksSectors | src/device/flash/dev_flash_intel.c:466-512 | 0x60 and 0x01 lock the addressed sector and no other, 0x60 and 0xd0 unlock all, if programming is enabled; the memory stays |
| IntelFlash.BadCountRefused | src/device/flash/dev_flash_intel.c:311-329 | a buffered program of more than 16 words, or past its sector, is refused at the count with both command errors |
| IntelFlash.StatusBits | src/device/flash/dev_flash_intel.c:161-175 | the status register bit by bit |
| IntelFlash.ReadsAfter | src/device/flash/dev_flash_intel.c:127-188 | from ready, for every address, reads after the first write of a command return array words, 0x89 and 0x18 on both chips by turns, the status, the query table, or what they did before, as that command asks; a command carried out makes every read return the status |
| IntelFlash.QueryDescribesChip | src/device/flash/dev_flash_intel.c:523-590 | what the guest reads after the read-query command begins with QRY and gives the size, the sectors and the write buffer that the chip programs and erases by |
| IntelChip.CommitWords | src/device/flash/dev_flash_intel.c:354-384 | the commit loop over 16 words; the whole new state or result is the specification's |
| IntelChip.EraseWords | src/device/flash/dev_flash_intel.c:447-455 | the erase loop over a sector; the whole new state or result is the specification's |
| IntelChip.Chip.InitWsm | src/device/flash/dev_flash_intel.c:207-291 | the first write of a command; the whole new state or result is the specification's |
| IntelChip.Chip.SetCount | src/device/flash/dev_flash_intel.c:311-329 | the word-count write; the whole new state or result is the specification's |
| IntelChip.Chip.LoadSlot | src/device/flash/dev_flash_intel.c:330-349 | a buffer load; the whole new state or result is the specification's |
| IntelChip.Chip.CommitBuffer | src/device/flash/dev_flash_intel.c:350-395 | the confirm write; the whole new state or result is the specification's |
| IntelChip.Chip.ProgramWord | src/device/flash/dev_flash_intel.c:396-427 | the data write of a word program; the whole new state or result is the specification's |
| IntelChip.Chip.EraseSector | src/device/flash/dev_flash_intel.c:428-465 | the confirm write of an erase; the whole new state or result is the specification's |
| IntelChip.Chip.AccessLock | src/device/flash/dev_flash_intel.c:466-512 | set and clear lock bits; the whole new state or result is the specification's |
| IntelChip.Chip.WriteWord | src/device/flash/dev_flash_intel.c:293-517 | a write in any state; the whole new state or result is the specification's |
| IntelChip.Chip.ReadWord | src/device/flash/dev_flash_intel.c:127-188 | reads in all four modes; the whole new state or result is the specification's |
| JedecFlash.HistoryRemembers | src/device/flash/dev_flash_am29.c:196-216 | the six entries hold the writes since the last boundary, unless they overflowed |
| JedecFlash.UnlockedExactly | src/device/flash/dev_flash_sst39lvf160.h:43-55 | over every run the SST39 or Am29 is ready to program (erase) if and only if its last effective writes are exactly the 3-write (5-write) unlock sequence from a boundary on; reads may follow but not interrupt it |
| JedecFlash.SequencesUnlock | src/device/flash/dev_flash_am29.h:65-91 | from a boundary the two sequences always lead there |
| JedecFlash.BoundaryExactly | src/device/flash/dev_flash_am29.c:153-219 | over every run, the six-entry recogniser agrees with one that keeps the whole list of writes since the last boundary and only compares lists: a new sequence starts if and only if that list is empty, and a program (erase) waits if and only if it is its unlock sequence |
| JedecFlash.ReachableExactly | src/device/flash/dev_flash_sst39lvf160.c:270-289 | over every run, some further writes reach a program, and some an erase, if and only if an Am29's six entries are not full, or an SST39's entries start an unlock sequence |
| JedecFlash.StartsArePrefixes | src/device/flash/dev_flash_sst39lvf160.h:43-55 | entries that start an unlock sequence are the prefixes of the program and erase sequences |
| JedecFlash.OneStrayWrite | src/device/flash/dev_flash_sst39lvf160.c:270-280 | one stray write makes an SST39 deaf and leaves an Am29 listening |
| JedecFlash.StuckUntilRead | src/device/flash/dev_flash_sst39lvf160.c:270-289 | a chip that no longer listens stays so for all further writes, a reset command included; with its entries full it does not change at all |
| JedecFlash.NoLateReset | src/device/flash/dev_flash_am29.h:125-133 | the misgrouped unlock-bypass test clears the history at once when the first data is 0x90, never later |
| JedecChip.ChangesOnlyUnlocked | src/device/flash/dev_flash_sst39lvf160.c:218-289 | a write changes the array only if the unlock sequence was just written |
| JedecChip.ProgramsExactly | src/device/flash/dev_flash_am29.c:153-164 | after the unlock and any reads the data is programmed if and only if the part is the SST39, no read came between, or the data is not 0xb0 or 0x30 |
| JedecChip.ErasesExactly | src/device/flash/dev_flash_am29.c:153-194 | after the erase unlock and any reads an erase is carried out if and only if the part is the SST39, no read came between, or the data is not 0xb0 or 0x30; so an Am29 drops the sector-erase code itself after a read |
| JedecChip.ProgramOverwrites | src/device/flash/dev_flash_sst39lvf160.c:228-234 | a program sets its one byte or halfword to the data, whatever was there, and nothing else |
| JedecChip.ProgramClearsExactly | src/device/flash/dev_flash_sst39lvf160.c:228-234 | for all data a program leaves what chips that only clear bits would leave if and only if its target bytes are 0xff |
| JedecChip.ProgramRaisesBit | src/device/flash/dev_flash_am29.c:158-164 | a program that raises a bit without an erase |
| JedecChip.EraseExact | src/device/flash/dev_flash_sst39lvf160.c:237-261 | for all contents an erase sets exactly [start,end) to ones if and only if start is word-aligned |
| JedecChip.EraseCodes | src/device/flash/dev_flash_sst39lvf160.c:237-265 | after the erase unlock, 0x10 sets exactly the chip to ones, 0x30 one sector, 0x50 on the SST39 one block, from the addressed word on; any other code, or a range past the chip, changes nothing |
| JedecChip.SequencesAre | src/device/flash/dev_flash_am29.h:65-120 | the bus writes of the commands, offset by offset, for the three parts |
| JedecChip.EraseInside | src/device/flash/dev_flash_sst39lvf160.c:237-265 | an accepted erase changes no byte outside the chip and only sets bytes to ones |
| JedecChip.EraseWords | src/device/flash/dev_flash_sst39lvf160.c:258-262 | the erase loop of word writes |
| JedecChip.Chip.Write | src/device/flash/dev_flash_am29.c:138-219 | a write: new history, new array and hit, for both parts |
| JedecChip.ModesAndBack | src/device/flash/dev_flash_sst39lvf160.c:139-215 | after the ID or the query entry and any number of reads every read answers with the codes or the table; a write of 0xf0 at any offset, or the three-cycle exit, then brings array data back if and only if the part is an Am29 or a read came before it; otherwise reads answer nothing until one and a second exit |
| JedecChip.ModeAnswersAre | src/device/flash/dev_flash_sst39lvf160.c:139-205 | manufacturer code at offset 0, device code at 1 (2 by bytes), 0 elsewhere; table entries at their offsets (twice them by bytes) |
| JedecChip.Sst39TableDescribesChip | src/device/flash/dev_flash_sst39lvf160.c:155-203 | the SST39 query table gives the chip, sector and block sizes that its erase commands use, and their numbers |
| JedecChip.Sst39Identifies | src/device/flash/dev_flash_sst39lvf160.c:143-160 | the SST39 codes, and the QRY its table begins with |
| JedecChip.Chip.Read | src/device/flash/dev_flash_am29.c:107-135 | array data while nothing is recorded, the ID codes or the query table after their commands, otherwise the caller's value; the count is forgotten |
| ArmMemory.PutByteBits | src/arch/arm/common/armmem.c:518-518 | the masked store changes the byte at its offset and no other |
| ArmMemory.PutHalfBits | src/arch/arm/common/armmem.c:561-561 | the masked store changes its two bytes and no other |
| ArmMemory.Bank.ReadByte | src/arch/arm/common/armmem.c:420-442 | the byte at that address of one flat byte row, in either byte order |
| ArmMemory.Bank.ReadHalfword | src/arch/arm/common/armmem.c:444-465 | the little- or big-endian pair of the aligned address |
| ArmMemory.Bank.ReadWord | src/arch/arm/common/armmem.c:467-485 | the little- or big-endian four bytes of the aligned address |
| ArmMemory.Bank.WriteByte | src/arch/arm/common/armmem.c:487-529 | exactly that byte of the row changes |
| ArmMemory.Bank.WriteHalfword | src/arch/arm/common/armmem.c:531-571 | exactly the two bytes of the aligned address change |
| ArmMemory.Bank.WriteWord | src/arch/arm/common/armmem.c:573-609 | exactly the four bytes of the aligned address change |
| ArmMemory.Fread | src/arch/arm/common/armmem.c:89-100 | the file lands in host byte order |
| ArmMemory.SwapWords | src/arch/arm/common/armmem.c:102-122 | the guest's byte row after the loop is the host's before it |
| ArmMemory.Bank.Load | src/arch/arm/common/armmem.c:89-122 | after loading, byte i of the bank is byte i of the file in either byte order on a host of either byte order, for partial images too; an empty read fails |
| BankLookup.CacheTransparent | src/arch/arm/common/armmem.c:156-174 | over every run of lookups the cached search answers as a fresh one if and only if no bank before the terminator that has an address of its own shares an address with an earlier bank |
| BankLookup.OverlapMisleads | src/arch/arm/common/armmem.c:156-174 | two overlapping banks and two lookups, the second answered by the wrong bank |
| BankLookup.DisjointSeparate | src/arch/arm/common/armmem.c:156-174 | disjoint banks meet that condition |
| BankLookup.FreshEveryTime | src/arch/arm/common/armmem.c:156-174 | under it every call answers as a fresh search from any pointer an earlier search can have left |
| BankLookup.SearchOwner | src/arch/arm/common/armmem.c:170-173 | a search returns the first bank before the terminator that holds the address |
| BankLookup.SearchFinds | src/arch/arm/common/armmem.c:170-173 | the same in plain numbers: the first bank before the terminator with addr <= a < addr+len |
| BankLookup.BankTable.BankPtr | src/arch/arm/common/armmem.c:156-174 | one lookup: result and kept pointer |
| GdbPacket.Encapsulate | src/utils/debugger/gdbserver.c:214-225 | the framing loop |
| GdbPacket.PutPkt | src/utils/debugger/gdbserver.c:201-254 | the frame is sent once more than the answers before the first plus; success if and only if a plus comes |
| GdbPacket.ParseFrame | src/utils/debugger/gdbserver.c:334-370 | a frame is taken whole or rejected whole by its checksum |
| GdbPacket.FrameReceived | src/utils/debugger/gdbserver.c:334-380 | over seven-bit characters, after any $-free junk and any number of bad-checksum frames the payload comes back, with one minus per bad frame and then a plus |
| GdbPacket.FrameRoundTrip | src/utils/debugger/gdbserver.c:201-380 | getpkt on putpkt's bytes returns the payload if and only if it is 7-bit and without a hash |
| GdbPacket.OnTheWire | src/utils/debugger/gdbserver.c:201-380 | the frame of OK, and what is made of junk, a bad frame and a good one in capitals |
| GdbPacket.SumIsTotal | src/utils/debugger/gdbserver.c:214-225 | the check value is the sum of the payload bytes modulo 256 |
| GdbPacket.DigitsAre | src/utils/debugger/gdbserver.c:174-197 | the hex digits, written in lower case and read in both |
| GdbPacket.EncodedAt | src/utils/debugger/gdbserver.c:398-411 | byte i is encoded as two digits, high one first |
| GdbPacket.MPacketIs | src/utils/debugger/gdbserver.c:486-505 | a memory-write packet, character by character |
| GdbPacket.HexRoundTrip | src/utils/debugger/gdbserver.c:398-422 | hex decoding inverts hex encoding |
| GdbPacket.EncodedClean | src/utils/debugger/gdbserver.c:398-411 | encoded data is 7-bit and free of the frame end |
| GdbPacket.ConvertIntToAscii | src/utils/debugger/gdbserver.c:398-411 | the encoding loop |
| GdbPacket.ConvertAsciiToInt | src/utils/debugger/gdbserver.c:413-422 | the decoding loop |
| GdbPacket.DecodeMPacket | src/utils/debugger/gdbserver.c:486-505 | address modulo 2^64, length modulo 2^32 and decoded data of any M packet |
| GdbPacket.MPacketRoundTrip | src/utils/debugger/gdbserver.c:486-505 | decoding an M packet returns its address, length and data |
| GdbConnection.Connection.ReadChar | src/utils/debugger/gdbserver.c:298-322 | the next character masked to seven bits, whatever the chunks |
| GdbConnection.Connection.SkipToDollar | src/utils/debugger/gdbserver.c:337-346 | discards up to the frame start without changing what the line parses to |
| GdbConnection.Connection.ReadPayload | src/utils/debugger/gdbserver.c:348-358 | the characters up to the frame end and their sum |
| GdbConnection.Connection.GetPkt | src/utils/debugger/gdbserver.c:327-380 | result, payload, acknowledgements and unread rest are those of the pure parse of the line, however the input is chunked |
| GdbConnection.ReceivePacket | src/utils/debugger/gdbserver.c:298-380 | from raw chunks to payload: any bytes first that are heard, with the eighth bit dropped, as $-free junk and bad frames, then the frame of a clean payload: that payload comes back, with one minus per bad frame and a plus, and the rest of the line is left |
| GdbConnection.LineDelivers | src/utils/debugger/gdbserver.c:298-380 | the same of the pure parse of the raw line; a raw 0xa4 is heard as $ |
| GdbConnection.JunkHeard | src/utils/debugger/gdbserver.c:298-346 | raw bytes are junk if and only if none of them is 0x24 or 0xa4 |
| Tracepoints.HandleShape | src/utils/debugger/gdb_tracepoint.c:563-649 | what one call does between passes and inside a pass of pre, while-stepping, post |
| Tracepoints.PassRecords | src/utils/debugger/gdb_tracepoint.c:563-649 | an accepted pass records one frame a call for exactly s calls, the first with the leading actions, the others with the stepped and trailing ones, and ends enabled with the step count restored |
| Tracepoints.HandleSpends | src/utils/debugger/gdb_tracepoint.c:605-649 | a call records a frame if and only if frames remain, and spends one |
| Tracepoints.RunKeeps | src/utils/debugger/gdb_tracepoint.c:346-372 | over every instruction trace with any other tracepoints, frames recorded plus frames left is constant, and frame numbers are 0, 1, 2 and on in list order |
| Tracepoints.FramesBounded | src/utils/debugger/gdb_tracepoint.c:605-649 | a tracepoint of p passes and s steps records at most p*s frames in any run, and has p*s less those recorded left |
| Tracepoints.TickHandles | src/utils/main/skyeye.c:183-192 | one instruction handles exactly the tracepoints enabled at its address and those stepping, keeps the frames there were, and adds a numbered frame for each that records |
| Tracepoints.EnabledRecords | src/utils/main/skyeye.c:183-192 | in every run, an instruction at an enabled tracepoint with passes left records a frame with what its leading, stepped and trailing actions collect |
| TraceRecorder.Recorder.AddFrame | src/utils/debugger/gdb_tracepoint.c:346-372 | a frame numbered by its place at the end of the list |
| TraceRecorder.Recorder.DoActionList | src/utils/debugger/gdb_tracepoint.c:563-603 | the recursive walk over siblings and children |
| TraceRecorder.Recorder.HandleTracepoint | src/utils/debugger/gdb_tracepoint.c:605-649 | both branches of the handler |
| TraceRecorder.Recorder.CheckTracepoints | src/utils/main/skyeye.c:183-192 | all triggered tracepoints in turn |
| TraceRecorder.Recorder.SelectByNumber | src/utils/debugger/gdb_tracepoint.c:426-453 | found if and only if 0 <= number < frames; a negative number and the number one past the end fail but move the selection to the first frame, larger ones keep it |
| TraceRecorder.Recorder.SelectByTracepoint | src/utils/debugger/gdb_tracepoint.c:455-480 | the first later frame of that tracepoint; with nothing selected the first frame is selected and passed over; a failed lookup otherwise keeps the selection |
| TraceRecorder.FirstFoundExactly | src/utils/debugger/gdb_tracepoint.c:455-480 | from no selection the first frame of a tracepoint is found if and only if the list is empty or its first frame belongs to another |
| TraceRecorder.OnlyFrameMissed | src/utils/debugger/gdb_tracepoint.c:455-480 | a one-frame list whose frame is not found |
| TraceRecorder.FailureKeepsExactly | src/utils/debugger/gdb_tracepoint.c:426-453 | a failed lookup by number leaves every selection alone if and only if the number is above the frame count or there are no frames |
| TraceRecorder.FailureMovesSelection | src/utils/debugger/gdb_tracepoint.c:426-453 | two frames, the second selected: the numbers -1 and 2 fail and select the first |
| Cs8900a.MailboxDrains | src/device/net/dev_net_cs8900a.c:161-175 | after a packet of L >= 1 bytes, in every run whose reads are status, length and ceil(L/2) data words with any arrivals between, the words come in order, the event bit clears exactly at the last read, and no arrival gets in before |
| Cs8900a.MailboxWords | src/device/net/dev_net_cs8900a.c:480-517 | those words are RxOK, the length and the packet's bytes in order |
| Cs8900a.ReceivesExactly | src/device/net/dev_net_cs8900a.c:480-517 | a held mailbox ignores a packet; a free one takes it word by word, sets bit 8 of status and event, and starts over |
| Cs8900a.ReadPastEnd | src/device/net/dev_net_cs8900a.c:161-175 | a data read past the last word returns 0 and starts the mailbox over |
| Cs8900a.EmptyPacketSticks | src/device/net/dev_net_cs8900a.c:161-175 | an empty packet is not released by its status and length but by two data reads |
| Cs8900a.ReleasedExactly | src/device/net/dev_net_cs8900a.c:161-175 | status, length and data reads release the mailbox if and only if the packet is not empty |
| Cs8900a.TransmitsFrames | src/device/net/dev_net_cs8900a.c:147-158 | with tx_length fixed, the data writes go out cut every max(1, ceil(tx_length/2)) words, and the buffer holds the rest |
| Cs8900a.FramesCount | src/device/net/dev_net_cs8900a.c:147-158 | one frame for each full group of writes |
| Cs8900a.FrameWritten | src/device/net/dev_net_cs8900a.c:147-158 | one data write: the word stored, and at the frame's last word the buffer sent low byte first, with the event telling that the host took it |
| Cs8900a.Chip.Input | src/device/net/dev_net_cs8900a.c:480-517 | the imperative receive |
| Cs8900a.Chip.ReadHeader | src/device/net/dev_net_cs8900a.c:398-407 | the status and length reads |
| Cs8900a.Chip.ReadFrame | src/device/net/dev_net_cs8900a.c:161-175 | a data read |
| Cs8900a.Chip.WriteFrame | src/device/net/dev_net_cs8900a.c:147-158 | a data write, with the frame it completes |
| Cs8900a.Output | src/device/net/dev_net_cs8900a.c:154-157 | the bytes of the words handed to the host |

## Left out

- Host I/O: sockets, tun/tap, select, file mapping and dumps; the wire, the file and the host's answers are parameters.
- Timing and interrupt delivery: `set_time`, `check_timeout`, pending-interrupt polling; the RTL8019's raised interrupts are only counted, the CS8900A's not at all.
- Address decoding of the register files (`*_read_byte`, `*_write_halfword` switches), MAC address, EEPROM and product ID registers; registers are fields set by the caller.
- The NAND branches for hosts without shared memory mapping: they overwrite instead of and-ing.
- Guest programming that makes the source index outside its buffers is a precondition: RTL8019 ring registers outside the card's memory, a transmit or remote read past its end, a word write at offset 2^32-1, a NAND page offset past the page buffer (a READOOB pointer with column 16 and up), a NAND erase or program commit past the mapped file (`NandChip.Chip.CommitFits`), a CS8900A tx_length over 1024.
- Rtl8019Traffic.RingIsQueue: guest writes to CURR, PSTART and PSTOP and remote writes into the ring's own pages are not part of a run, and BNRY moves only along a frame's link.
- Rtl8019Chip.Rtl8019.Command: the source reads CR, the byte-pair registers and offsets as separate bytes; the pairs are single numbers here.
- IntelChip.Chip.ReadWord: addresses are counted from the chip's base; the source's read-ID branch for lock bits cannot be reached.
- IntelFlash.LockedWordSafe: loads stay inside their window; what a load outside does is stated by OtherSectorKeptExactly.
- JedecChip.Chip.Read: the ID codes and query tables of the Am29 types are parameters.
- JedecChip.Chip.Write: the eight Am29 types (src/device/flash/dev_flash_am29.c:538-566) are set up for bytes or for halfwords, never both, so a chip has one history; its writes of other widths are refused without effect by the source and left out.
- NandFlash.WriteProtectHolds: runs that latch RESET are excluded, because RESET raises the WP state; WriteProtectExactly says so.
- ArmMemory.Bank.Load: bank lengths are whole words, and the bank of an access is the one its address selects.
- GdbConnection.Connection.GetPkt: what an invalid check digit, or the line closing inside one, does is undefined in the source, and nothing is promised then; payload and frame buffers are unbounded.
- GdbPacket.PutPkt: writes succeed, payloads fit the 2000-byte buffer, and the acknowledgement bytes are those that reach the raw read.
- GdbPacket.DecodeMPacket: address and length digits are hex and present, as the source needs.
- Tracepoints.HandleShape: one top-level while-stepping action with plain collects; DoActionList covers any tree without unassigned actions, at which the source loops for ever.
- TraceRecorder.Recorder.AddFrame: the lists are sequences, so pointers between frames and records are not captured; the machine's registers and memory are a parameter, and reading a recorded frame back (`trace_read`) is left out.
- Cs8900a.MailboxDrains: guest writes to the RxEvent register are left out; the host is little-endian.
- LcdUnpack.Convert: the three nested loops are three methods, one for each loop.
- IntelChip.Chip.InitWsm: the scalar members of the Intel and RTL8019 devices are one field holding a record.
- ARM exceptions, MMU, the instruction interpreter, `decode_DP_playload`, breakpoints, option parsing and all windowing: only easy or unrelated members.
