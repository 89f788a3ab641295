# SkyEye-Starlet device models in Dafny

A model of the stateful parts of the SkyEye-Starlet emulator, with the properties its devices rely on:
the large-block NAND chip and the Starlet controller above it, the guest-heap allocator and the request
life cycle of the IPC client, the Intel 28F128J3A flash, the RTL8019 receive ring, the banked memory, the
LCD pixel unpacker and the GDB packet layer.

`dafny verify dfyconfig.toml` verifies the whole project.

How it is built:

- Each device is a value (a datatype) with step functions, and a class with the source's own fields whose
  methods are proved to perform exactly those steps in place. The laws are then lemmas about the step
  functions and hold for every run of the class.
- Bytes, halfwords and words are bounded naturals; C's truncation is written out as `%`, its bitwise
  operators are defined and characterised bit by bit in `Bits.dfy`.
- What ends the emulator or leaves an array in C (an unknown NAND command, a data write past the page
  buffer, an access outside the image, a byte write outside every bank) is excluded by a `...Defined`
  predicate that follows the guards of the code; a NAND device is a whole number of erase blocks. The other
  exclusions are under "Left out".

| file | models |
|---|---|
| `Bits.dfy`, `Arith.dfy` | bits of naturals, byte copies, division facts |
| `SectionCode.dfy`, `SectionRepair.dfy` | the 512-byte section code, and what it locates and detects |
| `NandChip.dfy`, `NandRuns.dfy`, `NandOperations.dfy` | the NAND chip at its pins, what holds over every run of pin events, and whole erase and read operations |
| `StarletNand.dfy`, `StarletRegisters.dfy` | the controller, its registers over whole scripts, and erase and status orders |
| `StarletPrograms.dfy`, `StarletBytes.dfy`, `StarletCodes.dfy` | whole program and read scripts through it, byte by byte, and with section codes |
| `GuestHeap.dfy`, `GuestHeapLaws.dfy` | `MemMgr` and its laws against a cell bitmap |
| `IpcRequests.dfy` | requests that own heap blocks |
| `IntelFlash.dfy`, `IntelFlashSequences.dfy`, `IntelFlashRuns.dfy` | the flash write state machine, what each command sequence leaves, and what holds over every run |
| `ReceiveRing.dfy`, `ReceiveRingFifo.dfy` | the receive ring and the queue it refines |
| `MemBanks.dfy`, `MemBanksFlat.dfy` | banks, lookup cache, aliases, and the flat byte memory they refine |
| `LcdUnpack.dfy` | pixels of 1 to 32 bits from frame-buffer words |
| `GdbPackets.dfy`, `GdbPacketsLaws.dfy` | packet framing, and what sender and receiver achieve together |

Findings about the code, each with the exact condition under which the expected property does hold:

- On every heap with a free cell `malloc(0)` returns an address that the next request returns again, and no other
  size does (`MallocSharesIffZero`, `MallocZeroFailsIffFull`).
- With dump type 1 the erase length still counts pages of 0x840 bytes, so the end of each block survives an
  erase (`PaddedDumpErase`).
- A buffered program of distinct words ends like the word programs exactly when the loads outside the 16 words that
  start at the first load would not have changed their words, and the last load of each buffer slot leaves in the
  word it lands on what the load of that word would have left (`SameIffLandsWell`); if every load changes its word,
  exactly when all lie in those 16 words (`SameIffWindowed`). It changes a word of another sector exactly
  when those 16 words reach the next sector and the last load of some slot below the start's clears a bit there
  (`OtherSectorIffSpills`); the lock of that sector does not help (`StrayLoadHitsLockedSector`).
- In identification mode a read depends on the parity of the word address alone: the branch that would return a lock bit
  is never reached, since its guard comes after both parities (`IdentificationHidesLocks`).
- A packet that takes exactly the free pages is stored, but CURR then meets BNRY: the driver finds nothing to fetch
  and a next packet can overwrite the oldest one. Both happen exactly when the packet leaves no page
  (`SeenIffPageLeft`, `SafeIffPageLeft`); 1600 bytes do it in a seven-page ring (`LargePacketFillsRing`).
- The one-entry bank cache can disagree with the plain search, exactly when a bank that is not hidden overlaps
  an earlier one (`CacheAgreesIffUnambiguous`, `CacheCanDisagree`).
- A GDB frame cut off after `#` is delivered exactly when its text sums to 0, and one cut off after a digit exactly
  when it sums to sixteen times that digit (`CutAfterHash`, `CutAfterOneDigit`, `EmptyCutFrame`). Two hex digits are
  really required exactly for texts whose sum has two non-zero digits, since any other character counts as 0
  (`DigitsNeededIff`).

## Model

| member | source | states |
|---|---|---|
| `SectionCode.Parity` | device/nandflash/dev_nandflash_starlet.c:29-39 | the result is 1 exactly when the byte has an odd number of 1-bits |
| `SectionCode.ColumnXors` | device/nandflash/dev_nandflash_starlet.c:48-53 | each of the 18 column bytes is the XOR of the data bytes whose index has that bit at that value |
| `SectionCode.FoldRows` | device/nandflash/dev_nandflash_starlet.c:55-61 | after masking, every entry has the parity of the data bits whose 12-bit position has bit k equal to v |
| `SectionCode.TakeParities` | device/nandflash/dev_nandflash_starlet.c:63-66 | each entry becomes that parity itself |
| `SectionCode.PackHalves` | device/nandflash/dev_nandflash_starlet.c:68-72 | the shifted "or" assembles the two 12-bit halves of the bit-level definition |
| `SectionCode.CalcEcc` | device/nandflash/dev_nandflash_starlet.c:41-78 | the four bytes are the little-endian halves of the bit-level definition of the code |
| `SectionCode.ColumnParity` | device/nandflash/dev_nandflash_starlet.c:49-53 | the parity of a column byte is the parity of the data bits selected by a byte-index bit |
| `SectionCode.RowParity` | device/nandflash/dev_nandflash_starlet.c:55-61 | the parity of the masked XOR of all bytes is the parity of the data bits selected by a bit-index bit |
| `SectionCode.Linear` | device/nandflash/dev_nandflash_starlet.c:41-78 | the code is linear: flipping any set of data bits changes each code bit by the parity of the flips it covers |
| `SectionCode.HalvesDiffer` | device/nandflash/dev_nandflash_starlet.c:68-77 | the XOR of the halves is 0xfff or 0 by the total data parity, for every input |
| `SectionCode.SingleErrorLocated` | device/nandflash/dev_nandflash_starlet.c:41-78 | two sections that differ in one bit at position p have a1 halves that differ by p and a0 halves that differ by 0xfff - p |
| `SectionCode.DoubleErrorDetected` | device/nandflash/dev_nandflash_starlet.c:41-78 | two flipped bits change both halves equally, by the XOR of the positions, which is not 0 |
| `SectionRepair.SecDed` | device/nandflash/dev_nandflash_starlet.c:41-78 | over the 4096 data bits and the 24 stored code bits together: no flip is clean, any single flip is located wherever it is, and any two flips are reported as uncorrectable |
| `NandChip.NandDevice.constructor` | device/nandflash/nandflash_largeblock.c:475-528 | a new device has the page stride of its dump type, the given size and image, page 0 and the state after power-on |
| `NandChip.NandDevice.EraseBlock` | device/nandflash/nandflash_largeblock.c:28-37 | with WP high the erase length from the block's base becomes 0xff; nothing else changes |
| `NandChip.NandDevice.CommitWrite` | device/nandflash/nandflash_largeblock.c:49-57 | with WP high the page is ANDed with the write buffer; nothing else changes |
| `NandChip.NandDevice.LatchData` | device/nandflash/nandflash_largeblock.c:39-47 | a data byte goes to the column and moves it, unless WP is low |
| `NandChip.NandDevice.DriveData` | device/nandflash/nandflash_largeblock.c:59-81 | a read drives the addressed byte and moves on across page ends, up to the device end |
| `NandChip.NandDevice.DriveId` | device/nandflash/nandflash_largeblock.c:83-109 | four identification bytes in turn |
| `NandChip.NandDevice.LatchCommand` | device/nandflash/nandflash_largeblock.c:111-198 | the effect of each of the command bytes on phase, address, buffer and image |
| `NandChip.NandDevice.LatchAddress` | device/nandflash/nandflash_largeblock.c:200-268 | the effect of an address byte in each phase |
| `NandChip.NandDevice.WriteEnable` | device/nandflash/nandflash_largeblock.c:321-347 | latching happens on the rising edge of WE with CE low, by the io status |
| `NandChip.NandDevice.ReadEnable` | device/nandflash/nandflash_largeblock.c:349-375 | driving happens on the falling edge of RE with CE low, by the io status |
| `NandChip.NandDevice.Pin` | device/nandflash/nandflash_largeblock.c:280-389 | any pin event in place is the step of the state machine |
| `NandChip.NandDevice.ReadData` | device/nandflash/nandflash_largeblock.c:424-431 | one read cycle returns the byte the step function drives |
| `NandChip.NandDevice.Cycle` | device/nandflash/nandflash_largeblock.c:396-422 | a bus cycle in place is the run of its pin events |
| `NandChip.NandDevice.SwitchOn` | device/nandflash/nandflash_largeblock.c:433-452 | power-on state, image untouched |
| `NandChip.NandDevice.ResetChip` | device/nandflash/nandflash_largeblock.c:454-473 | reset state, CE, page number and image untouched |
| `NandRuns.TracksRun` | device/nandflash/nandflash_largeblock.c:111-268 | along every run the chip's command state is determined by the history of latched commands and addresses |
| `NandRuns.PhaseByPositions` | device/nandflash/nandflash_largeblock.c:111-268 | the operation open after a history is the one opened at some position k, with as many addresses as were latched since, exactly when nothing after k closes it: only addresses, data, 0x30 and a 0x10 that it does not take leave it open |
| `NandRuns.ImageChangesOnlyOnConfirm` | device/nandflash/nandflash_largeblock.c:111-198 | in every run from power-on the image changes exactly when, with WP high, 0x10 is latched after an open 0x80 with five addresses or an open 0x85 with two, or 0xd0 after an open 0x60 with three, and by exactly that program or erase |
| `NandRuns.RunErodes` | device/nandflash/nandflash_largeblock.c:28-57 | in every run without an effective 0xd0 each image byte only loses 1-bits |
| `NandRuns.ProtectedImageConstant` | device/nandflash/nandflash_largeblock.c:377-389 | with WP low and neither WP raised nor a reset, the image is constant over every run |
| `NandRuns.CommandCycle` | device/nandflash/nandflash_largeblock.c:396-404 | the five pin events of a command cycle latch exactly that command |
| `NandRuns.AddressCycle` | device/nandflash/nandflash_largeblock.c:414-422 | the five pin events of an address cycle latch exactly that address byte |
| `NandRuns.RowCycles` | device/nandflash/nandflash_largeblock.c:222-256 | three row bytes assemble little-endian into the page number, without wrap-around |
| `NandOperations.ReadsAreFlat` | device/nandflash/nandflash_largeblock.c:59-81 | n reads from any position inside the device return the consecutive device bytes across page ends, for both dump types; past the device end the pins keep the last byte |
| `NandOperations.ReadFrom` | device/nandflash/nandflash_largeblock.c:59-81 | the run of pin events of 0x00, a column below 0x840, a row and 0x30, followed by n reads, returns the n device bytes from that row and column on; for dump type 0 that is the stretch of the image starting there |
| `NandOperations.EraseSetsItsBlock` | device/nandflash/nandflash_largeblock.c:28-37 | for dump type 0, the run of pin events of 0x60, three row bytes and 0xd0 sets exactly the 64 pages of that row's block to 0xff and nothing else |
| `NandOperations.PaddedDumpErase` | device/nandflash/nandflash_largeblock.c:28-37 | for dump type 1 a byte of the block, padding included, is erased exactly when its page is below 52, or is 52 and the byte is in the data area; bytes outside the block are kept |
| `NandOperations.StatusTellsProtection` | device/nandflash/nandflash_largeblock.c:349-389 | in every run from power-on, every read after 0x70 returns 0xc0, or 0x40 while WP is low |
| `NandOperations.IdentificationReads` | device/nandflash/nandflash_largeblock.c:83-109 | the four reads after 0x90 and an address byte return 0xad, 0xdc, 0x80, 0x95, and a fifth one 0x95 again |
| `NandOperations.DeselectedIgnores` | device/nandflash/nandflash_largeblock.c:270-389 | while CE is high any sequence of pin events changes the levels of the pins and nothing else, and the pins read 0 |
| `NandOperations.PowerOnIgnores` | device/nandflash/nandflash_largeblock.c:433-452 | the same from power-on until CE falls |
| `NandOperations.DeselectEndsRead` | device/nandflash/nandflash_largeblock.c:289-297 | raising CE ends a read: selected again, the chip keeps its position and drives no further byte |
| `NandOperations.ResetForgets` | device/nandflash/nandflash_largeblock.c:454-473 | after 0xff WP is high, the page buffer is blank, reads give 0 and confirm commands change nothing |
| `NandOperations.ResetToColumn0` | device/nandflash/nandflash_largeblock.c:454-473 | 0xff and then 0x30 read from column 0 of the row addressed last |
| `StarletNand.StarletController.constructor` | device/nandflash/dev_nandflash_starlet.c:104-118 | cleared registers and buffer, CE low |
| `StarletNand.StarletController.HostToGuest` | arch/arm/mach/skyeye_mach_starlet.c:303-311 | the bytes are copied over guest memory at the address, nothing else changes |
| `StarletNand.StarletController.GuestToHost` | arch/arm/mach/skyeye_mach_starlet.c:267-275 | the guest bytes are copied into the buffer, nothing else changes |
| `StarletNand.StarletController.Issue` | device/nandflash/dev_nandflash_starlet.c:234-237 | the chip receives the command cycle and one address cycle per set mask bit, in order |
| `StarletNand.StarletController.Receive` | device/nandflash/dev_nandflash_starlet.c:239-276 | the bytes read reach guest memory, data and spare area apart, and a full page with the code flag stores four section codes |
| `StarletNand.StarletController.Transmit` | device/nandflash/dev_nandflash_starlet.c:277-307 | the chip receives the guest's bytes, data before spare area, in order, and the code flag stores four section codes of them; `StarletBytes` says which byte ends in which column |
| `StarletNand.StarletController.StoreEcc` | device/nandflash/dev_nandflash_starlet.c:298-302 | the codes of the four sections are stored four bytes apart, at the code register with bit 6 flipped |
| `StarletNand.StarletController.WriteWord` | device/nandflash/dev_nandflash_starlet.c:179-341 | a register write, an order included, is the step of the controller; it reports a hit exactly for the six registers |
| `StarletNand.StarletController.ReadWord` | device/nandflash/dev_nandflash_starlet.c:138-163 | each of the six registers reads as its value in the controller's state, any other address is no hit |
| `StarletRegisters.ReadsLastWritten` | device/nandflash/dev_nandflash_starlet.c:138-341 | after every script of register writes, orders included, a register reads as the value last written to it and the status as ready |
| `StarletRegisters.AddressesStayLatched` | device/nandflash/dev_nandflash_starlet.c:311-325 | along every script the six address bytes are the little-endian bytes of the two address registers |
| `StarletRegisters.CodesAddress` | device/nandflash/dev_nandflash_starlet.c:269 | the codes go 0x40 above the code register where its bit 6 is clear, 0x40 below it where it is set |
| `StarletRegisters.IgnoredWords` | device/nandflash/dev_nandflash_starlet.c:195-202 | any number of command words 0 and 0x7fffffff leave controller, chip and guest memory unchanged |
| `StarletRegisters.TopBitsIgnored` | device/nandflash/dev_nandflash_starlet.c:203-206 | the three top bits of a command word do not matter to the order it decodes to |
| `StarletRegisters.EraseByScript` | device/nandflash/dev_nandflash_starlet.c:234-237 | row register, 0x60 with the three row bytes and 0xd0: exactly the erase length from the base of the row's block becomes 0xff, guest memory is unchanged |
| `StarletRegisters.EraseThenProgram` | device/nandflash/dev_nandflash_starlet.c:234-308 | whatever the block held, after erasing it and programming one whole page that page holds the guest's data and spare bytes, the rest of the block is 0xff and the rest of the image as before |
| `StarletRegisters.StatusToldToGuest` | device/nandflash/dev_nandflash_starlet.c:234-245 | 0x70 with one byte to read leaves 0xc0, or 0x40 under write protection, at the data address and no other guest byte changed |
| `StarletPrograms.OrderWordDecodes` | device/nandflash/dev_nandflash_starlet.c:203-206 | mask, command, flags and size packed into an order word are the ones decoded |
| `StarletPrograms.LoadBytes` | device/nandflash/nandflash_largeblock.c:39-47 | n data cycles overlay n bytes in the page buffer from the column on |
| `StarletPrograms.OpenPage` | device/nandflash/dev_nandflash_starlet.c:234-237 | 0x80 with five address bytes and data opens the page with the data over 0xff |
| `StarletPrograms.LoadPart` | device/nandflash/nandflash_largeblock.c:141-147 | 0x85 with a column and data overlays one more part and keeps the rest |
| `StarletPrograms.ProgramPage` | device/nandflash/nandflash_largeblock.c:182-192 | a whole script, any number of parts and 0x10, ANDs the overlaid page into its row; every other image byte and guest memory are unchanged |
| `StarletPrograms.ReadsInPage` | device/nandflash/nandflash_largeblock.c:59-81 | reads that stay in one page return its bytes, for both dump types |
| `StarletPrograms.ReadBack` | device/nandflash/dev_nandflash_starlet.c:238-249 | 0x00 with five address bytes and 0x30 deliver the image bytes of the page to guest memory |
| `StarletPrograms.ProgramThenRead` | device/nandflash/dev_nandflash_starlet.c:234-308 | programming an erased page in any number of parts and reading any stretch of it back delivers exactly the data overlaid in order, 0xff elsewhere, and no other byte of the image moves |
| `StarletBytes.ProgramBits` | device/nandflash/dev_nandflash_starlet.c:277-308 | whatever the page held, after a program in parts bit k of column c is set exactly when it was set and the guest byte that the last part covering c took for it has it set (0xff if no part covers it): byte c - column of the source, or of the code register past the data area; no other image byte changes |
| `StarletBytes.ProgramBytes` | device/nandflash/dev_nandflash_starlet.c:277-308 | on an erased page each column is that guest byte itself |
| `StarletBytes.WholePage` | device/nandflash/dev_nandflash_starlet.c:281-283 | one order of 0x840 bytes on an erased page: the page is guest[src..src + 0x800] followed by guest[ecc..ecc + 0x40] |
| `StarletBytes.OnePart` | device/nandflash/dev_nandflash_starlet.c:279-280 | one order of at most 0x800 bytes: guest[src..src + n] from the column on, 0xff before and behind |
| `StarletBytes.ReadBytes` | device/nandflash/dev_nandflash_starlet.c:240-246 | a read of at most 0x800 bytes puts the stretch of the page at the destination and changes no other guest byte |
| `StarletBytes.ReadPageBytes` | device/nandflash/dev_nandflash_starlet.c:246-248 | a read of 0x840 bytes puts byte k of the data area at dst + k and byte k of the spare area at ecc + k, the latter over the former, and changes no other guest byte |
| `StarletBytes.RoundTripBytes` | device/nandflash/dev_nandflash_starlet.c:234-308 | program in parts and read back: each byte that reaches the guest is the guest byte the last part covering its column was made from |
| `StarletCodes.OpenWithCodes` | device/nandflash/dev_nandflash_starlet.c:291-307 | a flagged 0x80 opens the page with the data area and leaves the codes of its four sections in guest memory |
| `StarletCodes.ProgramWithCodes` | device/nandflash/dev_nandflash_starlet.c:277-308 | a whole program with a flagged first part: the codes are in guest memory before later parts are taken from it, and the image receives the data area with those parts over it |
| `StarletCodes.ReadWithCodes` | device/nandflash/dev_nandflash_starlet.c:246-271 | a flagged read of any page leaves in guest memory the codes of its four sections as they are in the image, and its spare area at the code register where the codes stay clear of it |
| `StarletCodes.ProgramProtected` | device/nandflash/dev_nandflash_starlet.c:277-308 | a flagged program of an erased page with parts for the spare area and then the codes it left in guest memory puts in place a page whose spare area carries the codes of its sections, and moves no other byte |
| `StarletCodes.FlipsToldToGuest` | device/nandflash/dev_nandflash_starlet.c:234-308 | the closed loop: such a page is programmed, bits of the image change in data or spare area, and the page is read with the code flag; then guest memory alone tells, for every section with at most two flips, none, which data or code bit, or two |
| `GuestHeap.MemMgr.constructor` | ipc/ipc.py:175-178 | one free block of all cells |
| `GuestHeap.OpenHeap` | ipc/ipc.py:170-178 | a heap is opened exactly when both bounds are multiples of the block size, else the matching error |
| `GuestHeap.MemMgr.Malloc` | ipc/ipc.py:179-192 | the list edited in place is the specified split, and the result the specified address or error |
| `GuestHeap.MemMgr.Free` | ipc/ipc.py:193-219 | the list edited in place is the specified merge, and each error leaves it unchanged |
| `GuestHeap.MemMgr.Check` | ipc/ipc.py:220-229 | the two totals add up to the list, the first one counts the used cells, and success means that they add up to the heap |
| `GuestHeap.FirstFit` | ipc/ipc.py:182-190 | the first free block of at least n cells, or none |
| `GuestHeapLaws.CellsLive` | ipc/ipc.py:169-219 | a cell of the bitmap is used exactly when a live allocation covers it |
| `GuestHeapLaws.MallocIsFirstFit` | ipc/ipc.py:179-192 | malloc fails exactly when no run of enough consecutive free cells exists, and otherwise returns the lowest address at which one starts |
| `GuestHeapLaws.MallocKeeps` | ipc/ipc.py:179-192 | malloc of at least one byte keeps block sizes positive, their sum and no two free neighbours, and adds one live block |
| `GuestHeapLaws.FreeIsExact` | ipc/ipc.py:193-219 | free succeeds exactly on the start of a live block and removes exactly that block; a failed free changes nothing |
| `GuestHeapLaws.Canonical` | ipc/ipc.py:209-216 | the block list is determined by the live blocks |
| `GuestHeapLaws.MallocFree` | ipc/ipc.py:179-219 | malloc and then free of its result restores the identical block list |
| `GuestHeapLaws.MallocSharesIffZero` | ipc/ipc.py:179-192 | on every heap the address of a successful malloc can be returned by the next malloc of at least one byte if and only if the first size is 0 |
| `GuestHeapLaws.MallocZeroFailsIffFull` | ipc/ipc.py:180-192 | malloc(0) fails if and only if no cell is free |
| `GuestHeapLaws.RunKeepsAllocations` | ipc/ipc.py:169-219 | after every sequence of malloc and free the live allocations are aligned, inside the heap, pairwise disjoint and as large as requested |
| `GuestHeapLaws.FreshHeap` | ipc/ipc.py:170-178 | a new heap is well-formed and holds no allocation |
| `GuestHeapLaws.FreshHeapHoldsAll` | ipc/ipc.py:170-192 | on a new heap the bytes between the bounds can be had in one block at the start, and not one byte more |
| `GuestHeapLaws.UsedCellsCounted` | ipc/ipc.py:220-229 | what the check counts as in use is the number of used cells of the bitmap |
| `GuestHeapLaws.FreeErrors` | ipc/ipc.py:193-219 | which error a rejected address gets: not aligned, before or after the heap, start of a free block, or no start of a block |
| `IpcRequests.IPCRequest.CopyBuffers` | ipc/ipc.py:266-278 | one buffer per copied argument is allocated in order and added to those recorded, up to the first failure |
| `IpcRequests.IPCRequest.Prepare` | ipc/ipc.py:280-410 | the buffers of the request's kind, then the message, whose address is returned and recorded; earlier buffers stay recorded; `SubmitOwnsItsKind` says which blocks these are |
| `IpcRequests.IPCRequest.Free` | ipc/ipc.py:293-300 | the recorded buffers, and the message if there is one, are freed and forgotten |
| `IpcRequests.SkyeyeIPC.Async` | ipc/ipc.py:427-430 | the request is recorded under its message address and owns, in order, a live block for each thing its kind copies, and no other block is new |
| `IpcRequests.SkyeyeIPC.IpcReply` | ipc/ipc.py:435-442 | the request releases what it owns, is done and forgotten; an unknown address changes nothing |
| `IpcRequests.SubmitKeeps` | ipc/ipc.py:427-430 | a submission adds one request under a new address; what it owns was free before, and without it the live blocks are the old ones |
| `IpcRequests.SubmitOwnsItsKind` | ipc/ipc.py:266-410 | after a successful submission the request owns, in order and distinct, a new live block of at least its length for each argument with data, for an opened path with its terminator, for a vector table of 8 bytes an entry, and for the 32-byte message; no other live block is new |
| `IpcRequests.FailedSubmitLeaves` | ipc/ipc.py:266-286 | a submission that runs out of memory records no request and leaves live exactly the blocks it got before the size that could not be had, each large enough |
| `IpcRequests.ReplyReleases` | ipc/ipc.py:288-300 | a reply to an outstanding request succeeds and releases exactly the blocks that request owns |
| `IpcRequests.SubmitThenReply` | ipc/ipc.py:427-442 | a request answered at once leaves heap and requests identical |
| `IpcRequests.SessionKeepsOwnership` | ipc/ipc.py:412-442 | for every interleaving of submissions, replies and caller buffers the keys of outstanding requests are distinct live addresses, and each block has one owner |
| `IntelFlash.FlashDevice.constructor` | device/flash/dev_flash_intel.c:57-89 | the reset state over the given memory |
| `IntelFlash.FlashDevice.ResetDevice` | device/flash/dev_flash_intel.c:57-89 | locks, modes, flags and counters are reset, memory is kept |
| `IntelFlash.FlashDevice.StartCommand` | device/flash/dev_flash_intel.c:207-292 | the mode, read mode, buffer and suspend flags each command byte leads to |
| `IntelFlash.FlashDevice.CommitPages` | device/flash/dev_flash_intel.c:370-383 | the 16 words from the first load on are ANDed with their buffer entries, every other word is kept |
| `IntelFlash.FlashDevice.ProgramStep` | device/flash/dev_flash_intel.c:396-427 | a word program ANDs its word, or records the error of a locked, suspended or unpowered device |
| `IntelFlash.FlashDevice.EraseStep` | device/flash/dev_flash_intel.c:428-465 | a confirmed erase sets its sector to ones, or records the error; `IntelFlashSequences.EraseSequence` and `EraseLocked` say what is then in memory and status |
| `IntelFlash.FlashDevice.Write` | device/flash/dev_flash_intel.c:293-520 | a word write in place is the step of the state machine, in every mode |
| `IntelFlash.FlashDevice.Read` | device/flash/dev_flash_intel.c:127-188 | array mode returns the word, identification mode the manufacturer or device code by the parity of the word address, status mode the status byte for both chips |
| `IntelFlashSequences.EraseSequence` | device/flash/dev_flash_intel.c:428-465 | 0x20 and 0xd0 at an address of an unlocked sector: word j becomes 0xffffffff if it lies in that sector and is kept otherwise, locks are kept |
| `IntelFlashSequences.EraseLocked` | device/flash/dev_flash_intel.c:428-465 | in a locked sector memory and locks are kept and the status of both chips reads 0xa2 |
| `IntelFlashSequences.EraseUnconfirmed` | device/flash/dev_flash_intel.c:428-465 | anything but 0xd0 after 0x20 leaves the device as it was |
| `IntelFlashSequences.ProgramSequence` | device/flash/dev_flash_intel.c:396-427 | 0x40 or 0x10 and a word in an unlocked sector: each bit of that word stays set exactly when it was and the data has it set, every other word is kept, the status reads 0x80 |
| `IntelFlashSequences.ProgramLocked` | device/flash/dev_flash_intel.c:396-427 | in a locked sector memory and locks are kept and the status reads 0x92 |
| `IntelFlashSequences.LockSequence` | device/flash/dev_flash_intel.c:466-512 | 0x60 and 0x01 set exactly the lock bit of the addressed sector and keep memory |
| `IntelFlashSequences.UnlockSequence` | device/flash/dev_flash_intel.c:466-512 | 0x60 and 0xd0 clear all 128 lock bits and keep memory |
| `IntelFlashSequences.LockUnconfirmed` | device/flash/dev_flash_intel.c:466-512 | anything else after 0x60 leaves the device as it was |
| `IntelFlashSequences.CountTaken` | device/flash/dev_flash_intel.c:311-341 | after 0xe8 a count is taken exactly when it is at most 16 and stays in the sector; otherwise the sequence ends with status 0xb0 |
| `IntelFlashSequences.ReadCommands` | device/flash/dev_flash_intel.c:207-232 | what a read shows after 0xff, 0x50, 0x70 and 0x90: the memory, the status without errors, the identification codes |
| `IntelFlashSequences.IdentificationHidesLocks` | device/flash/dev_flash_intel.c:146-160 | in identification mode reads of word addresses of equal parity give the same word whatever the lock bits |
| `IntelFlashSequences.ErrorsStick` | device/flash/dev_flash_intel.c:207-512 | along every run an error bit once set stays set until a reset or a 0x50 in the ready mode |
| `IntelFlashSequences.ErrorsCleared` | device/flash/dev_flash_intel.c:233-240 | 0x50 in the ready mode clears every recorded error, and keeps memory and locks |
| `IntelFlashSequences.ResetShows` | device/flash/dev_flash_intel.c:57-89 | after a reset reads show the memory as it was, no sector is locked and no error is recorded |
| `IntelFlashRuns.StatusReadsReady` | device/flash/dev_flash_intel.c:161-176 | after a reset and every run of writes and resets no busy or suspend flag is set, and the ready bit of both chips reads 1 |
| `IntelFlashRuns.WriteDecreases` | device/flash/dev_flash_intel.c:307-517 | outside the ready mode each write lowers a measure of mode, count and loaded words |
| `IntelFlashRuns.EighteenWritesReachReady` | device/flash/dev_flash_intel.c:307-517 | from every reachable state any 18 consecutive word writes pass through the ready mode |
| `IntelFlashRuns.RunErodes` | device/flash/dev_flash_intel.c:307-512 | in every run without a successful block erase no memory bit goes from 0 to 1 |
| `IntelFlashRuns.LockedSectorKept` | device/flash/dev_flash_intel.c:307-512 | in every run whose buffer loads stay within 16 words of the first load, a locked sector keeps its contents and its lock until locks are cleared |
| `IntelFlashRuns.BufferedEqualsWordByWord` | device/flash/dev_flash_intel.c:311-427 | a buffered program of distinct words in that window leaves the same memory as programming them one at a time: loaded words ANDed, all others unchanged |
| `IntelFlashRuns.SameIffLandsWell` | device/flash/dev_flash_intel.c:342-384 | for any loads of distinct words, the buffered program and the word programs end with the same memory if and only if the loads outside the 16 words from the first would not have changed their words and the last load of each slot leaves in the word it lands on what that word's own load would have left |
| `IntelFlashRuns.SameIffWindowed` | device/flash/dev_flash_intel.c:342-384 | for loads of distinct words that each change their word, the buffered program and the word programs end with the same memory if and only if every load lies within 16 words of the first |
| `IntelFlashRuns.OtherSectorIffSpills` | device/flash/dev_flash_intel.c:342-384 | a buffered program changes a word of another sector if and only if the 16 words from the first load reach the next sector and the last load of some slot below the start's clears a bit of the word it falls on |
| `IntelFlashRuns.StrayLoadHitsLockedSector` | device/flash/dev_flash_intel.c:354-384 | a load outside the window lets a buffered program change a word of a locked sector |
| `ReceiveRing.NicDevice.constructor` | device/net/dev_net_rtl8019.c:386-412 | register and memory values after reset |
| `ReceiveRing.NicDevice.Store` | device/net/dev_net_rtl8019.c:868-882 | header and packet are copied to CURR in one stretch, or in two around PSTOP |
| `ReceiveRing.NicDevice.Input` | device/net/dev_net_rtl8019.c:773-900 | a packet is ignored, refused with the overflow flag, or stored with CURR, RSR and ISR updated; `ReceiveRingFifo.NotTaken` and `ArrivesWhole` say when and with which bytes |
| `ReceiveRingFifo.StoredReads` | device/net/dev_net_rtl8019.c:868-882 | reading cyclically from the old CURR gives header and padded packet, and no other byte of the ring is overwritten |
| `ReceiveRingFifo.NotTaken` | device/net/dev_net_rtl8019.c:786-820 | with CR bit 0 or TCR bit 1 or 2 set nothing changes; a packet that needs more than the free pages changes nothing but sets ISR bit 4 |
| `ReceiveRingFifo.ArrivesWhole` | device/net/dev_net_rtl8019.c:802-893 | otherwise the ring holds from the old CURR on 1, the new CURR, max(length, 60) + 4 low byte first, the bytes that arrived and zeros up to 60; CURR moves on by the pages taken, bit 0 of ISR and RSR is set, nothing else changes |
| `ReceiveRingFifo.FreeIsRest` | device/net/dev_net_rtl8019.c:790-795 | the free pages computed from CURR and BNRY are the pages the unread packets leave |
| `ReceiveRingFifo.ReceiveAppends` | device/net/dev_net_rtl8019.c:790-884 | an accepted packet that leaves a page is appended to the unread packets, none of which is overwritten |
| `ReceiveRingFifo.AcceptedIsStored` | device/net/dev_net_rtl8019.c:868-884 | every accepted packet, also one that takes all free pages, is linked behind the unread ones and leaves them as they were |
| `ReceiveRingFifo.SeenIffPageLeft` | device/net/dev_net_rtl8019.c:790-819 | after an accepted packet the driver finds something to fetch if and only if the packet took fewer pages than were free; otherwise all pages count as free |
| `ReceiveRingFifo.SafeIffPageLeft` | device/net/dev_net_rtl8019.c:790-884 | after an accepted packet the unread packets survive every next arrival if and only if the packet took fewer pages than were free |
| `ReceiveRingFifo.LargePacketFillsRing` | device/net/dev_net_rtl8019.c:790-819 | 1600 bytes take all of an empty seven-page ring: stored, not fetched, and open to be overwritten |
| `ReceiveRingFifo.TakeRemovesOldest` | device/net/dev_net_rtl8019.c:826-830 | following the link from BNRY stays in the ring, delivers the oldest packet whole and leaves the others |
| `ReceiveRingFifo.RingIsFifo` | device/net/dev_net_rtl8019.c:773-884 | in every run of arrivals and fetches in which the queue never fills exactly, the registers stay in the ring and the links from BNRY to CURR list the accepted packets not yet fetched, in order |
| `MemBanks.Memory.BankPtr` | arch/arm/common/armmem.c:155-173 | the cached bank if it holds the address, else the first match, which becomes the cached one |
| `MemBanks.Memory.RealRead` | arch/arm/common/armmem.c:413-478 | the byte, halfword or word at a real address, by endianness |
| `MemBanks.Memory.RealWrite` | arch/arm/common/armmem.c:480-602 | exactly that byte, halfword or word of the word array changes |
| `MemBanks.Memory.Read` | arch/arm/common/armmem.c:197-262 | a read goes to the bank of the address, for an alias to the same offset from its destination (`MemBanksFlat.AliasAccess`), and gives 0 outside every bank, whatever the cache holds |
| `MemBanks.Memory.Write` | arch/arm/common/armmem.c:264-344 | a write changes the bank of the address, for an alias at the same offset from its destination (`MemBanksFlat.AliasAccess`), whatever the cache holds |
| `MemBanksFlat.CacheAgreesIffUnambiguous` | arch/arm/common/armmem.c:155-173 | the cached lookup equals the plain first-match search after every call history if and only if each bank that overlaps an earlier one is hidden by earlier ones |
| `MemBanksFlat.CacheCanDisagree` | arch/arm/common/armmem.c:155-173 | a table of two overlapping banks and a lookup after which cache and search return different banks |
| `MemBanksFlat.ConfiguredCacheAgrees` | arch/arm/common/armmem.c:155-173 | on disjoint banks cached lookup and plain search agree after every call history |
| `MemBanksFlat.AliasAccess` | arch/arm/common/armmem.c:604-630 | every load and store at an address of an alias bank is the one at address - bank start + destination |
| `MemBanksFlat.RealAccess` | arch/arm/common/armmem.c:413-602 | a word load or store in a real bank is at index (address - bank start) / 4 of that bank's array and touches no other word of any bank |
| `MemBanksFlat.LoadIsFlat` | arch/arm/common/armmem.c:413-478 | an aligned load is the value of the consecutive bytes of one flat memory, in either endianness |
| `MemBanksFlat.StoreIsFlat` | arch/arm/common/armmem.c:480-602 | an aligned store changes exactly its bytes of the flat memory, through aliases too |
| `MemBanksFlat.BanksAreFlat` | arch/arm/common/armmem.c:197-630 | every sequence of aligned byte, halfword and word accesses to disjoint real banks and aliases gets the answers of one flat byte memory |
| `MemBanksFlat.LoadImage` | arch/arm/common/armmem.c:101-121 | after the byte-order loop, byte i of the bank in the machine's endianness is byte i of the file |
| `MemBanksFlat.ImageReadsBack` | arch/arm/common/armmem.c:101-121 | a real bank filled by that loop loads, byte by byte, as the file, in either endianness |
| `LcdUnpack.UnpackByte` | device/lcd/skyeye_lcd.c:202-211 | the inner loop emits the pixels of one byte in order and stops at its end or at the end of the row |
| `LcdUnpack.UnpackWord` | device/lcd/skyeye_lcd.c:197-227 | the middle loop emits the pixels of one word, entered at any byte and bit, for each depth |
| `LcdUnpack.UnpackLine` | device/lcd/skyeye_lcd.c:180-228 | one line emits exactly its requested pixels in order, reading only words that hold one of them |
| `LcdUnpack.Unpack` | device/lcd/skyeye_lcd.c:157-230 | w * h pixels for a rectangle of positive size inside a frame of positive size and supported depth, else none; an accepted one emits its lines in order, reading only words that hold a requested pixel |
| `LcdUnpack.FieldBits` | device/lcd/skyeye_lcd.c:197-226 | the bits of a pixel are consecutive bits of the word, at a place given by depth, bit order and offset |
| `LcdUnpack.SwappedBits` | device/lcd/skyeye_lcd.c:186-196 | the word swap reverses the bytes and keeps the bits within each |
| `LcdUnpack.PixelBits` | device/lcd/skyeye_lcd.c:157-230 | w * h pixels in row-major order, bit t of pixel (dx, dy) being one fixed bit of the word that holds bit address (line width * dy + dx) * depth |
| `LcdUnpack.HalfPixel` | device/lcd/skyeye_lcd.c:213-220 | at 16 bits a pixel is the low or high half of word n / 2, by its parity and the bit order |
| `LcdUnpack.BytePixel` | device/lcd/skyeye_lcd.c:201-212 | at 8 bits it is a byte of word n / 4, counted from the low end unless exactly one of bit order and swap is reversed |
| `LcdUnpack.BitPixel` | device/lcd/skyeye_lcd.c:201-212 | at 1 bit in plain order it is a bit of byte n / 8, high bit first |
| `GdbPackets.ConvertIntToAscii` | utils/debugger/gdbserver.c:401-414 | two digits per byte, high digit first, and a final NUL |
| `GdbPackets.ConvertAsciiToInt` | utils/debugger/gdbserver.c:416-425 | one byte per two digits, invalid digits counting as 0 |
| `GdbPackets.Connection.ReadChar` | utils/debugger/gdbserver.c:301-325 | the next seven-bit character of the input however the socket delivers it, or -1 at its end |
| `GdbPackets.Connection.GetPkt` | utils/debugger/gdbserver.c:330-383 | result, buffer, answers and remaining input are those of the stream-level receiver |
| `GdbPackets.Connection.PutPkt` | utils/debugger/gdbserver.c:204-257 | the frame is sent once for each byte up to the first '+', which ends it with success; the end of the input ends it with failure |
| `GdbPackets.Enclose` | utils/debugger/gdbserver.c:214-228 | the packet between '$' and '#', then two digits of its sum modulo 256 |
| `GdbPacketsLaws.TextReadsBack` | utils/debugger/gdbserver.c:401-425 | decoding the hex text of any bytes gives them back |
| `GdbPacketsLaws.TextComesBack` | utils/debugger/gdbserver.c:401-425 | encoding what was decoded gives the text back if and only if its digits are lower-case hex |
| `GdbPacketsLaws.DigitAlphabets` | utils/debugger/gdbserver.c:176-199 | digits are written as "0123456789abcdef", read in either case, and any other character counts as 0 |
| `GdbPacketsLaws.TextOrder` | utils/debugger/gdbserver.c:401-414 | characters 2i and 2i + 1 of the text are the high and the low digit of byte i |
| `GdbPacketsLaws.ReadOrder` | utils/debugger/gdbserver.c:416-425 | byte i is sixteen times the digit at 2i plus the digit at 2i + 1 |
| `GdbPacketsLaws.FrameOrder` | utils/debugger/gdbserver.c:214-228 | '$', the packet, '#', and the high and low digit of the characters' total modulo 256 |
| `GdbPacketsLaws.SentOncePerByte` | utils/debugger/gdbserver.c:230-257 | with k bytes before the first '+' exactly k + 1 copies of the frame are sent and 1 is returned; with no '+' one copy more than there are bytes, and -1 |
| `GdbPacketsLaws.GetUndoesPut` | utils/debugger/gdbserver.c:204-383 | noise without '$', any number of bad-checksum frames and a sent frame: the payload is returned, with one '-' per bad frame and a final '+' |
| `GdbPacketsLaws.DeliveredIffFramed` | utils/debugger/gdbserver.c:330-383 | a packet is returned if and only if the input is bad frames followed by one whose checksum agrees, and then it is that frame's text |
| `GdbPacketsLaws.DeliversOnlyFrames` | utils/debugger/gdbserver.c:330-383 | every input on which a packet is returned splits into such frames |
| `GdbPacketsLaws.CutAfterHash` | utils/debugger/gdbserver.c:363-367 | a frame cut off by the end of the input after '#' is delivered if and only if its text sums to 0 |
| `GdbPacketsLaws.CutAfterOneDigit` | utils/debugger/gdbserver.c:363-367 | a frame cut off after one character is delivered if and only if its text sums to sixteen times that digit |
| `GdbPacketsLaws.EmptyCutFrame` | utils/debugger/gdbserver.c:330-383 | "$#" and the end of the input is delivered as an empty packet and acknowledged |
| `GdbPacketsLaws.DigitsNeededIff` | utils/debugger/gdbserver.c:176-188 | a text is taken only with two hex digits behind it if and only if both digits of its sum are non-zero |
| `GdbPacketsLaws.DamageIsBad` | utils/debugger/gdbserver.c:351-373 | a frame with one damaged payload character is always refused |
| `GdbPacketsLaws.Retransmission` | utils/debugger/gdbserver.c:204-383 | when any number of copies arrive damaged before a clean one, the packet is delivered once, and a sender given these answers sends exactly one frame per copy and reports success |

## Left out

- NandChip.NandDevice.Pin: an unknown command (the code exits), a data byte past the page buffer and a program or erase outside the image are excluded.
- NandOperations.EraseSetsItsBlock: dump type 0 only, because the property is false for dump type 1, whose exact effect `NandOperations.PaddedDumpErase` states.
- NandOperations.ReadsAreFlat: the image holds every page of the device at the stride of its dump type.
- StarletNand.StarletController.WriteWord: orders with a data size on which the code exits, and guest ranges outside guest memory, are excluded; the interrupt raised after an order is not modelled.
- StarletPrograms.ProgramThenRead: stated for parts without the code flag; a flagged first part is covered by `StarletCodes.ProgramWithCodes`, flagged later parts are not.
- StarletCodes.FlipsToldToGuest: the code register is a multiple of 0x40, since otherwise codes and spare area may overlap in guest memory; flips of the four unused bits of each half are not flips of the code.
- StarletNand.StarletController.HostToGuest: guest memory is one byte array, not the banked memory.
- GuestHeapLaws.RunKeepsAllocations: sizes of at least 1, because malloc(0) breaks the property (`GuestHeapLaws.MallocSharesIffZero`).
- GuestHeap.MemMgr.constructor: aligned bounds, the errors being those of `GuestHeap.OpenHeap`; an end below the start, which gives a heap of negative size, is excluded.
- GuestHeap.OpenHeap: an end below the start is excluded.
- IpcRequests.IPCRequest.Free: removing the request from the table of outstanding ones is stated by `IpcRequests.SkyeyeIPC.IpcReply`.
- GuestHeap.MemMgr.Check: the printed statistics are not modelled.
- IpcRequests.SkyeyeIPC.IpcReply: the result word read from guest memory is not modelled, and a reply is one step, so a reply inside another reply's memory read is not covered.
- IpcRequests.SessionKeepsOwnership: empty buffers are excluded, as they are malloc(0).
- IpcRequests.SubmitOwnsItsKind: arguments with empty data and empty vectors are excluded, as they are malloc(0).
- IpcRequests.IPCRequest.CopyBuffers: buffer objects are represented by their addresses; their finalisers and the contents written to them are not modelled.
- IpcRequests.SkyeyeIPC.Async: the request owns nothing yet; submitting one that is still outstanding, which records it twice and loses its first message block, is excluded.
- IntelFlash.FlashDevice.Read: the query mode returns values from a fixed table and is not modelled.
- IntelFlashSequences.ProgramSequence: from a device with no recorded error, so that the status word is a constant; recorded errors stay recorded (`IntelFlashSequences.ErrorsStick`).
- IntelFlash.FlashDevice.Write: the flash occupies the start of its own word array, and accesses, a commit's 16 words included, lie inside it; the memory banks behind it are not modelled again.
- ReceiveRingFifo.RingIsFifo: runs in which the ring fills exactly are excluded, because the property is false for them (`ReceiveRingFifo.SafeIffPageLeft`).
- ReceiveRing.NicDevice.Input: the packet is a parameter and interrupts are not modelled; remote DMA, by which the driver reads, appears only as the move of BNRY along a link.
- MemBanks.Memory.Write: a byte write outside every bank ends the emulator and is excluded.
- MemBanks.Memory.Read: I/O banks and the vector remap are not modelled.
- LcdUnpack.Unpack: pixel values are returned before the colour lookup and the callback; missing frame buffers or callbacks and overflow of C's 32-bit products are not modelled; words are little-endian on the host.
- LcdUnpack.HalfPixel: without word swap; `LcdUnpack.PixelBits` covers every depth, bit order and swap.
- LcdUnpack.BitPixel: without word swap and from left to right; `LcdUnpack.PixelBits` covers the rest.
- GdbPackets.Connection.PutPkt: a failing or partial socket write is not modelled.
- GdbPackets.Connection.GetPkt: the size of the caller's buffer is not modelled, and neither is a failing write of the acknowledgement.
- Host I/O (dump files, mapped images, sockets, tun/tap, serial lines, windows, timers): inputs or outside the model.
- The ARM instruction loop, MMU, TLB and dynamic translator are not part of this model.
- nandflash_smallblock.c, dev_flash_am29.c, dev_flash_sst39lvf160.c: easier variants of the machines modelled here.
- Register tables, configuration parsing, energy profiling, ELF loading, device registration and ipc/dumppt.py: plumbing without further properties.
