/** Whole chip operations as runs of pin events: what the erase and read sequences do. */
module NandOperations {
  import opened Bits
  import opened NandChip
  import opened NandRuns

  // ----- Command, addresses, confirmation -----

  function AddressEvents(bs: seq<byte>): seq<Event> {
    if bs == [] then [] else AddrCycle(bs[0]) + AddressEvents(bs[1..])
  }

  /** The pin events of a command, its address bytes and a second command. */
  function Operation(cmd: byte, bs: seq<byte>, confirm: byte): seq<Event> {
    CmdCycle(cmd) + (AddressEvents(bs) + CmdCycle(confirm))
  }

  function SendAddresses(c: Chip, bs: seq<byte>): Chip
    decreases |bs|
  {
    if bs == [] then c else SendAddresses(SendAddr(c, bs[0]), bs[1..])
  }

  lemma {:induction false} AddressesRun(c: Chip, bs: seq<byte>)
    requires c.ce == LOW
    ensures RunDefined(c, AddressEvents(bs)) && Run(c, AddressEvents(bs)) == SendAddresses(c, bs)
    ensures SendAddresses(c, bs).ce == LOW
    decreases |bs|
  {
    if bs != [] {
      AddressCycle(c, bs[0]);
      AddressesRun(SendAddr(c, bs[0]), bs[1..]);
      RunConcat(c, AddrCycle(bs[0]), AddressEvents(bs[1..]));
    }
  }

  lemma {:induction false} OperationRuns(c: Chip, cmd: byte, bs: seq<byte>, confirm: byte)
    requires c.ce == LOW && CmdDefined(AtCommand(c, cmd))
    requires CmdDefined(AtCommand(SendAddresses(SendCmd(c, cmd), bs), confirm))
    ensures RunDefined(c, Operation(cmd, bs, confirm))
    ensures Run(c, Operation(cmd, bs, confirm)) == SendCmd(SendAddresses(SendCmd(c, cmd), bs), confirm)
  {
    var d := SendCmd(c, cmd);
    CommandCycle(c, cmd);
    AddressesRun(d, bs);
    CommandCycle(SendAddresses(d, bs), confirm);
    RunConcat(d, AddressEvents(bs), CmdCycle(confirm));
    RunConcat(c, CmdCycle(cmd), AddressEvents(bs) + CmdCycle(confirm));
  }

  lemma {:induction false} ThreeAddresses(c: Chip, a: byte, b: byte, d: byte)
    ensures SendAddresses(c, [a, b, d]) == SendAddr(SendAddr(SendAddr(c, a), b), d)
  {
    assert [a, b, d][1..] == [b, d] && [b, d][1..] == [d] && [d][1..] == [];
    assert SendAddresses(c, [a, b, d]) == SendAddresses(SendAddr(c, a), [b, d])
        == SendAddresses(SendAddr(SendAddr(c, a), b), [d]);
  }

  // ----- Erasing -----

  /** 0x60, three row bytes, 0xd0. */
  function EraseEvents(a: byte, b: byte, d: byte): seq<Event> { Operation(ERASE1, [a, b, d], ERASE2) }

  /** The erase fills from the base of the row's block, whatever the page stride. */
  lemma {:induction false} EraseFills(c: Chip, a: byte, b: byte, d: byte, base: nat)
    requires c.Valid() && c.ce == LOW && c.wp == HIGH
    requires base == RowOf(a, b, d) / BLOCK * BLOCK * c.fmt && base + ERASE <= |c.image| && base < WRAP
    ensures RunDefined(c, EraseEvents(a, b, d)) && Run(c, EraseEvents(a, b, d)).image == Fill(c.image, base, ERASE)
  {
    ErasedState(c, a, b, d, base);
    ThreeAddresses(SendCmd(c, ERASE1), a, b, d);
    OperationRuns(c, ERASE1, [a, b, d], ERASE2);
  }

  /** The same as states after whole bus cycles. */
  lemma {:induction false} ErasedState(c: Chip, a: byte, b: byte, d: byte, base: nat)
    requires c.Valid() && c.wp == HIGH
    requires base == RowOf(a, b, d) / BLOCK * BLOCK * c.fmt && base + ERASE <= |c.image| && base < WRAP
    ensures var e := SendAddr(SendAddr(SendAddr(SendCmd(c, ERASE1), a), b), d);
            && CmdDefined(AtCommand(e, ERASE2)) && e.ce == c.ce && e.image == c.image
            && SendCmd(e, ERASE2).image == Fill(c.image, base, ERASE)
  {
    var e := SendCmd(c, ERASE1);
    RowCycles(e, a, b, d);
    SmallMod(base);
    var s := AtCommand(SendAddr(SendAddr(SendAddr(e, a), b), d), ERASE2);
    assert s.pagenum == RowOf(a, b, d) && EraseConfirmed(s) && s.EraseBase() == base;
  }

  /** 0x60, three row bytes and 0xd0 set exactly the 64 pages of the row's block to 0xff. */
  lemma {:induction false} EraseSetsItsBlock(c: Chip, a: byte, b: byte, d: byte)
    requires c.Valid() && c.ce == LOW && c.wp == HIGH && c.fmt == 0x840
    requires RowOf(a, b, d) * PAGE < c.device
    ensures RunDefined(c, EraseEvents(a, b, d))
    ensures var after := Run(c, EraseEvents(a, b, d)).image;
            var block := RowOf(a, b, d) / BLOCK;
            && |after| == |c.image|
            && forall i :: 0 <= i < |after| ==>
                 after[i] == if block * BLOCK * PAGE <= i < (block + 1) * BLOCK * PAGE then 0xff else c.image[i]
  {
    BlockInside(RowOf(a, b, d), c.device);
    BlockSpan(RowOf(a, b, d) / BLOCK);
    EraseFills(c, a, b, d, RowOf(a, b, d) / BLOCK * ERASE);
  }

  lemma {:induction false} BlockSpan(block: nat)
    ensures block * BLOCK * PAGE == block * ERASE && (block + 1) * BLOCK * PAGE == block * ERASE + ERASE
  {
  }

  lemma {:induction false} BlockInside(row: nat, device: nat)
    requires row * PAGE < device && device % ERASE == 0
    ensures row / BLOCK * ERASE + ERASE <= device
  {
    var q := device / ERASE;
    assert device == q * ERASE;
    assert row / BLOCK * ERASE <= row * PAGE;
    assert row / BLOCK < q;
  }

  /** With the padded dump type the page stride is 0xa00 but the erase length is still 64 * 0x840. Byte k of page
      `page` of the block, padding included, is erased exactly when it lies below that length, which leaves the
      spare area of page 52 and all of pages 53 to 63 as they were; bytes outside the block are kept. */
  lemma {:induction false} PaddedDumpErase(c: Chip, a: byte, b: byte, d: byte, base: nat)
    requires c.Valid() && c.ce == LOW && c.wp == HIGH && c.fmt == 0xa00
    requires base == RowOf(a, b, d) / BLOCK * BLOCK * 0xa00 && base + BLOCK * 0xa00 <= |c.image| < WRAP
    ensures RunDefined(c, EraseEvents(a, b, d)) && PaddedErased(c.image, Run(c, EraseEvents(a, b, d)).image, base)
  {
    EraseFills(c, a, b, d, base);
    forall page: nat, k: nat | page < BLOCK && k < 0xa00
      ensures KeptOrErased(c.image, Fill(c.image, base, ERASE), base, page, k)
    {
      PaddedPosition(page, k);
    }
  }

  predicate KeptOrErased(image: seq<byte>, after: seq<byte>, base: nat, page: nat, k: nat) {
    var i := base + page * 0xa00 + k;
    && i < |after| == |image|
    && after[i] == if page < 52 || (page == 52 && k < 0x800) then 0xff else image[i]
  }

  ghost predicate PaddedErased(image: seq<byte>, after: seq<byte>, base: nat) {
    && |after| == |image|
    && (forall page: nat, k: nat :: page < BLOCK && k < 0xa00 ==> KeptOrErased(image, after, base, page, k))
    && (forall j :: 0 <= j < |after| && !(base <= j < base + BLOCK * 0xa00) ==> after[j] == image[j])
  }

  lemma {:induction false} PaddedPosition(page: nat, k: nat)
    requires page < BLOCK && k < 0xa00
    ensures page * 0xa00 + k < BLOCK * 0xa00 && ERASE <= BLOCK * 0xa00
    ensures page * 0xa00 + k < ERASE <==> page < 52 || (page == 52 && k < 0x800)
  {
  }

  // ----- Reading -----

  /** The device byte the next read takes, counting 0x840 bytes a page. */
  function Position(c: Chip): nat { c.pagenum * PAGE + c.pageoffset }

  /** The image holds every page of the device at the stride of its dump type. */
  predicate Backed(c: Chip) { c.device / PAGE * c.fmt <= |c.image| < WRAP }

  predicate Reading(c: Chip) {
    && c.Valid() && Backed(c)
    && c.ce == LOW && c.re == HIGH && c.iostatus == IoDataRead
    && c.pageoffset < PAGE
    && Position(c) <= c.device
  }

  /** Where device byte q lies in the image. */
  function ImageIndex(c: Chip, q: nat): nat { q / PAGE * c.fmt + q % PAGE }

  lemma {:induction false} IndexInside(c: Chip, q: nat)
    requires c.Valid() && Backed(c) && q < c.device
    ensures q / PAGE * c.fmt + PAGE <= |c.image| && ImageIndex(c, q) < |c.image|
  {
    WholePages(c.device, q);
    if c.fmt == 0x840 {
      assert (q / PAGE + 1) * 0x840 <= c.device / PAGE * 0x840;
    } else {
      assert (q / PAGE + 1) * 0xa00 <= c.device / PAGE * 0xa00;
    }
  }

  lemma {:induction false} WholePages(device: nat, q: nat)
    requires device % ERASE == 0 && q < device
    ensures q / PAGE + 1 <= device / PAGE
  {
    var m := device / ERASE;
    assert device == PAGE * (m * BLOCK);
    assert device / PAGE == m * BLOCK;
  }

  lemma {:induction false} PositionSplits(c: Chip)
    requires c.pageoffset < PAGE
    ensures Position(c) / PAGE == c.pagenum && Position(c) % PAGE == c.pageoffset
  {
  }

  lemma {:induction false} ReadStep(c: Chip)
    requires Reading(c)
    ensures Defined(c, SetRE(LOW))
    ensures Position(c) < c.device ==> ImageIndex(c, Position(c)) < |c.image|
    ensures var e := ReadOnce(c);
            && Reading(e) && e.image == c.image && e.device == c.device && e.fmt == c.fmt && e.iopin == ByteRead(c)
            && (if Position(c) < c.device
                then ByteRead(c) == c.image[ImageIndex(c, Position(c))] && Position(e) == Position(c) + 1
                else ByteRead(c) == c.iopin && Position(e) == Position(c))
  {
    if Position(c) < c.device {
      ReadInside(c);
    } else {
      SmallMod(Position(c));
    }
  }

  lemma {:induction false} ReadInside(c: Chip)
    requires Reading(c) && Position(c) < c.device
    ensures Defined(c, SetRE(LOW)) && ImageIndex(c, Position(c)) < |c.image|
    ensures ByteRead(c) == c.image[ImageIndex(c, Position(c))]
    ensures var e := ReadOnce(c);
            && Reading(e) && e.image == c.image && e.device == c.device && e.fmt == c.fmt && e.iopin == ByteRead(c)
            && Position(e) == Position(c) + 1
  {
    InsideFacts(c);
  }

  lemma {:induction false} InsideFacts(c: Chip)
    requires Reading(c) && Position(c) < c.device
    ensures InDevice(c) && c.ProgramBase() + c.pageoffset == ImageIndex(c, Position(c)) < |c.image|
    ensures c.pagenum + 1 < WRAP
  {
    PositionSplits(c);
    SmallMod(Position(c));
    IndexInside(c, Position(c));
    SmallMod(c.pagenum * c.fmt);
  }

  /** Byte k of the device counted from position q, the last byte of the device once past its end. */
  function DeviceByte(c: Chip, q: nat, k: nat): byte
    requires c.Valid() && Backed(c) && q < c.device
  {
    var at := if q + k < c.device then q + k else c.device - 1;
    IndexInside(c, at);
    c.image[ImageIndex(c, at)]
  }

  /** The byte the k-th read from c should return. */
  function FlatByte(c: Chip, k: nat): byte
    requires Reading(c) && Position(c) < c.device
  {
    DeviceByte(c, Position(c), k)
  }

  /** With the contiguous dump type the bytes are consecutive in the image. */
  lemma {:induction false} Contiguous(c: Chip, q: nat)
    requires c.fmt == 0x840
    ensures ImageIndex(c, q) == q
  {
  }

  /** e is what c has become after k reads. */
  predicate FlatState(c: Chip, e: Chip, k: nat) {
    && Reading(c) && Position(c) < c.device
    && Reading(e) && e.image == c.image && e.device == c.device && e.fmt == c.fmt
    && Position(e) == (if Position(c) + k < c.device then Position(c) + k else c.device)
    && (Position(e) == c.device ==> e.iopin == FlatByte(c, k))
  }

  lemma {:induction false} FlatStep(c: Chip, e: Chip, k: nat)
    requires FlatState(c, e, k)
    ensures Defined(e, SetRE(LOW)) && ByteRead(e) == FlatByte(c, k)
    ensures FlatState(c, ReadOnce(e), k + 1)
  {
    ReadStep(e);
  }

  /** n reads from a position inside the device return the n consecutive device bytes, across page
      ends; past the device end the pins keep the last byte. */
  lemma {:induction false} ReadsAreFlat(c: Chip, n: nat)
    requires Reading(c) && Position(c) < c.device
    ensures ReadsDefined(c, n) && FlatState(c, AfterReads(c, n), n)
    ensures forall k: nat :: k < n ==> BytesRead(c, n)[k] == FlatByte(c, k)
    decreases n
  {
    if n > 0 {
      ReadsAreFlat(c, n - 1);
      FlatStep(c, AfterReads(c, n - 1), n - 1);
    }
  }

  /** 0x00, two column and three row bytes, 0x30. */
  function SeekEvents(col: half, row: nat): seq<Event>
    requires row < 0x100_0000
  {
    Operation(READ0, [col % 256, col / 256, row % 256, row / 256 % 256, row / 0x1_0000 % 256], READ0B)
  }

  lemma {:induction false} FiveBytes(c: Chip, bs: seq<byte>)
    requires |bs| == 5
    ensures SendAddresses(c, bs) == SendAddresses(SendAddr(SendAddr(c, bs[0]), bs[1]), [bs[2], bs[3], bs[4]])
  {
    assert bs[1..][1..] == [bs[2], bs[3], bs[4]];
    assert SendAddresses(c, bs) == SendAddresses(SendAddr(c, bs[0]), bs[1..]);
  }

  /** The seek leaves the chip reading at the row and column addressed. */
  lemma {:induction false} SeekReaches(c: Chip, col: half, row: nat)
    requires c.Valid() && Backed(c) && c.ce == LOW && c.re == HIGH && col < PAGE && row < 0x100_0000
    requires row * PAGE + col < c.device
    ensures RunDefined(c, SeekEvents(col, row))
    ensures var e := Run(c, SeekEvents(col, row));
            && Reading(e) && Position(e) == row * PAGE + col
            && e.image == c.image && e.device == c.device && e.fmt == c.fmt
  {
    var d := SendCmd(c, READ0);
    var bs: seq<byte> := [col % 256, col / 256, row % 256, row / 256 % 256, row / 0x1_0000 % 256];
    FiveBytes(d, bs);
    ColumnCycles(d, col);
    ThreeAddresses(AtColumn(d, col), bs[2], bs[3], bs[4]);
    RowCycles(AtColumn(d, col), bs[2], bs[3], bs[4]);
    RowDigits(row);
    OperationRuns(c, READ0, bs, READ0B);
  }

  /** The whole read: after 0x00, a column, a row and 0x30, n reads return the n device bytes from there on. */
  lemma {:induction false} ReadFrom(c: Chip, col: half, row: nat, n: nat)
    requires c.Valid() && Backed(c) && c.ce == LOW && c.re == HIGH && col < PAGE && row < 0x100_0000
    requires row * PAGE + col < c.device
    ensures RunDefined(c, SeekEvents(col, row)) && ReadsDefined(Run(c, SeekEvents(col, row)), n)
    ensures forall k: nat :: k < n ==>
              BytesRead(Run(c, SeekEvents(col, row)), n)[k] == DeviceByte(c, row * PAGE + col, k)
    ensures c.fmt == 0x840 && row * PAGE + col + n <= c.device ==>
              BytesRead(Run(c, SeekEvents(col, row)), n) == c.image[row * PAGE + col..row * PAGE + col + n]
  {
    SeekReaches(c, col, row);
    ReadOn(c, Run(c, SeekEvents(col, row)), row * PAGE + col, n);
    if c.fmt == 0x840 && row * PAGE + col + n <= c.device {
      SameSlice(c, row * PAGE + col, BytesRead(Run(c, SeekEvents(col, row)), n));
    }
  }

  /** With the contiguous dump type the device bytes are a stretch of the image. */
  lemma {:induction false} SameSlice(c: Chip, q: nat, bytes: seq<byte>)
    requires c.Valid() && Backed(c) && c.fmt == 0x840 && q < c.device && q + |bytes| <= c.device
    requires forall k: nat :: k < |bytes| ==> bytes[k] == DeviceByte(c, q, k)
    ensures bytes == c.image[q..q + |bytes|]
  {
    forall k: nat | k < |bytes| ensures bytes[k] == c.image[q + k] {
      Contiguous(c, q + k);
    }
  }

  lemma {:induction false} ReadOn(c: Chip, e: Chip, q: nat, n: nat)
    requires c.Valid() && Backed(c) && q < c.device && Reading(e) && Position(e) == q
    requires e.image == c.image && e.device == c.device && e.fmt == c.fmt
    ensures ReadsDefined(e, n) && forall k: nat :: k < n ==> BytesRead(e, n)[k] == DeviceByte(c, q, k)
  {
    ReadsAreFlat(e, n);
    forall k: nat | k < n ensures BytesRead(e, n)[k] == DeviceByte(c, q, k) {
      SameByte(c, e, q, k);
    }
  }

  lemma {:induction false} SameByte(c: Chip, e: Chip, q: nat, k: nat)
    requires c.Valid() && Backed(c) && q < c.device && e.Valid() && Backed(e)
    requires e.image == c.image && e.device == c.device && e.fmt == c.fmt
    ensures DeviceByte(e, q, k) == DeviceByte(c, q, k)
  {
  }

  // ----- Status, identification, selection -----

  /** After 0x70 every read returns the status: 0xc0, with the top bit clear while WP is low, since power-on. */
  lemma {:induction false} StatusReads(c: Chip, n: nat)
    requires c.ce == LOW && c.re == HIGH
    ensures RunDefined(c, CmdCycle(0x70)) && ReadsDefined(Run(c, CmdCycle(0x70)), n)
    ensures var e := AfterReads(Run(c, CmdCycle(0x70)), n);
            e.iostatus == IoStatusRead && e.status == c.status && e.ce == LOW && e.re == HIGH && e.image == c.image
    ensures forall k: nat :: k < n ==> BytesRead(Run(c, CmdCycle(0x70)), n)[k] == c.status
    decreases n
  {
    CommandCycle(c, 0x70);
    if n > 0 { StatusReads(c, n - 1); }
  }

  /** The status register is decided by WP alone. */
  predicate StatusIs(c: Chip) { c.status == if c.wp == LOW then 0x40 else 0xc0 }

  lemma {:induction false} StatusKept(c: Chip, es: seq<Event>)
    requires RunDefined(c, es) && StatusIs(c)
    ensures StatusIs(Run(c, es))
    decreases |es|
  {
    if es != [] {
      StatusStep(c, es[0]);
      StatusKept(Step(c, es[0]), es[1..]);
    }
  }

  lemma {:induction false} StatusStep(c: Chip, e: Event)
    requires Defined(c, e) && StatusIs(c)
    ensures StatusIs(Step(c, e))
  {
  }

  /** In every run from power-on the status read is 0xc0 with WP high and 0x40 with WP low. */
  lemma {:induction false} StatusTellsProtection(c: Chip, es: seq<Event>, n: nat)
    requires RunDefined(PowerOn(c), es)
    requires var s := Run(PowerOn(c), es); s.ce == LOW && s.re == HIGH
    ensures var s := Run(PowerOn(c), es);
            && RunDefined(s, CmdCycle(0x70)) && ReadsDefined(Run(s, CmdCycle(0x70)), n)
            && forall k: nat :: k < n ==>
                 BytesRead(Run(s, CmdCycle(0x70)), n)[k] == if s.wp == LOW then 0x40 else 0xc0
  {
    StatusKept(PowerOn(c), es);
    StatusReads(Run(PowerOn(c), es), n);
  }

  /** 0x90 and one address byte: the next four reads return the identification of the part, any further one its last
      byte again. */
  lemma {:induction false} IdentificationReads(c: Chip, a: byte)
    requires c.ce == LOW && c.re == HIGH
    ensures var es := CmdCycle(0x90) + AddrCycle(a);
            && RunDefined(c, es) && ReadsDefined(Run(c, es), 4) && BytesRead(Run(c, es), 4) == [0xad, 0xdc, 0x80, 0x95]
            && Defined(AfterReads(Run(c, es), 4), SetRE(LOW)) && ByteRead(AfterReads(Run(c, es), 4)) == 0x95
  {
    var e := IdentificationOpens(c, a, 0x90);
    FourReads(e);
  }

  lemma {:induction false} IdentificationOpens(c: Chip, a: byte, cmd: byte) returns (e: Chip)
    requires c.ce == LOW && c.re == HIGH && cmd == READID
    ensures var es := CmdCycle(cmd) + AddrCycle(a); RunDefined(c, es) && e == Run(c, es)
    ensures e.iostatus == IoIdRead && e.cmdstatus == ReadId1 && e.ce == LOW && e.re == HIGH
  {
    CommandCycle(c, cmd);
    var d := SendCmd(c, cmd);
    AddressCycle(d, a);
    RunConcat(c, CmdCycle(cmd), AddrCycle(a));
    e := SendAddr(d, a);
  }

  lemma {:induction false} FourReads(c: Chip)
    requires c.iostatus == IoIdRead && c.cmdstatus == ReadId1 && c.ce == LOW && c.re == HIGH
    ensures ReadsDefined(c, 4) && BytesRead(c, 4) == [0xad, 0xdc, 0x80, 0x95]
    ensures AfterReads(c, 4) == c.(iopin := 0x95, cmdstatus := NoStatus, iostatus := IoNone)
  {
    var c1 := c.(iopin := 0xad, cmdstatus := ReadId2);
    var c2 := c.(iopin := 0xdc, cmdstatus := ReadId3);
    var c3 := c.(iopin := 0x80, cmdstatus := ReadId4);
    assert ReadsDefined(c, 0) && AfterReads(c, 0) == c && BytesRead(c, 0) == [];
    assert ReadsDefined(c, 1) && AfterReads(c, 1) == c1 && BytesRead(c, 1) == [] + [0xad];
    assert ReadsDefined(c, 2) && AfterReads(c, 2) == c2 && BytesRead(c, 2) == [0xad] + [0xdc];
    assert ReadsDefined(c, 3) && AfterReads(c, 3) == c3 && BytesRead(c, 3) == [0xad, 0xdc] + [0x80];
    assert BytesRead(c, 4) == [0xad, 0xdc, 0x80] + [0x95];
  }

  /** Everything but the pins themselves. */
  function Inside(c: Chip): Chip {
    c.(cle := LOW, ale := LOW, ce := LOW, we := LOW, re := LOW, wp := LOW, status := 0)
  }

  /** A chip that is not selected ignores its bus: pin events change the levels of the pins and nothing else, and a
      read of its pins gives 0. */
  lemma {:induction false} DeselectedIgnores(c: Chip, es: seq<Event>)
    requires c.ce == HIGH
    requires forall e :: e in es ==> e.SetCLE? || e.SetALE? || e.SetWE? || e.SetRE? || e.SetWP? || e.WriteIO?
    ensures RunDefined(c, es) && Run(c, es).ce == HIGH && Inside(Run(c, es)) == Inside(c) && ReadIO(Run(c, es)) == 0
    decreases |es|
  {
    if es != [] {
      assert es[0] in es;
      DeselectedIgnores(Step(c, es[0]), es[1..]);
    }
  }

  /** After a reset command the chip waits for a command with WP high, its page buffer blank and nothing open: every
      read returns 0 and confirm commands change nothing. */
  lemma {:induction false} ResetForgets(c: Chip, b: byte)
    requires c.ce == LOW && (b == 0x10 || b == 0xd0)
    ensures RunDefined(c, CmdCycle(0xff))
    ensures var e := Run(c, CmdCycle(0xff));
            && e.wp == HIGH && e.status == 0xc0 && e.buffer == seq(PAGE, _ => 0xff) && e.image == c.image
            && Defined(e, SetRE(LOW)) && ByteRead(e) == 0
            && RunDefined(e, CmdCycle(b)) && Run(e, CmdCycle(b)).image == c.image
  {
    CommandCycle(c, 0xff);
    var e := SendCmd(c, 0xff);
    CommandCycle(e, b);
  }

  /** Power-on leaves the chip deselected: until CE falls its bus is ignored. */
  lemma {:induction false} PowerOnIgnores(c: Chip, es: seq<Event>)
    requires forall e :: e in es ==> e.SetCLE? || e.SetALE? || e.SetWE? || e.SetRE? || e.SetWP? || e.WriteIO?
    ensures RunDefined(PowerOn(c), es) && Run(PowerOn(c), es).image == c.image
    ensures Inside(Run(PowerOn(c), es)) == Inside(PowerOn(c)) && ReadIO(Run(PowerOn(c), es)) == 0
  {
    DeselectedIgnores(PowerOn(c), es);
  }

  /** Raising CE ends a read: selected again, the chip drives no further byte until another 0x30. */
  lemma {:induction false} DeselectEndsRead(c: Chip, n: nat)
    requires c.iostatus == IoDataRead && c.ce == LOW && c.re == HIGH
    ensures var es := [SetCE(HIGH), SetCE(LOW)];
            && RunDefined(c, es) && ReadsDefined(Run(c, es), n)
            && AfterReads(Run(c, es), n) == c.(iostatus := IoNone)
            && forall k: nat :: k < n ==> BytesRead(Run(c, es), n)[k] == c.iopin
    decreases n
  {
    var es := [SetCE(HIGH), SetCE(LOW)];
    assert es[1..] == [SetCE(LOW)] && es[1..][1..] == [];
    assert Run(c, es) == Run(Step(c, SetCE(HIGH)), [SetCE(LOW)]) == c.(iostatus := IoNone);
    if n > 0 { DeselectEndsRead(c, n - 1); }
  }

  /** A read confirmed right after a reset starts at column 0 of the row addressed last. */
  lemma {:induction false} ResetToColumn0(c: Chip)
    requires c.ce == LOW && c.pagenum * 0x840 < c.device < WRAP && c.pagenum * c.fmt < |c.image| < WRAP
    ensures var es := CmdCycle(0xff) + CmdCycle(0x30);
            && RunDefined(c, es) && Defined(Run(c, es), SetRE(LOW))
            && ByteRead(Run(c, es)) == c.image[c.pagenum * c.fmt]
  {
    CommandCycle(c, 0xff);
    var d := SendCmd(c, 0xff);
    CommandCycle(d, 0x30);
    RunConcat(c, CmdCycle(0xff), CmdCycle(0x30));
    SmallMod(c.pagenum * 0x840);
    SmallMod(c.pagenum * c.fmt);
    var e := SendCmd(d, 0x30);
    assert e.re == HIGH && e.iostatus == IoDataRead && e.pageoffset == 0 && e.pagenum == c.pagenum;
  }
}
