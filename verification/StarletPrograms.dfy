/** Programming a page through the controller and reading it back: the two layers together. */
module StarletPrograms {
  import opened Bits
  import opened NandChip
  import opened NandRuns
  import opened StarletNand

  // ----- Bus cycles of an order -----

  lemma {:induction false} Masks()
    ensures BitOf(31, 0) && BitOf(31, 1) && BitOf(31, 2) && BitOf(31, 3) && BitOf(31, 4) && !BitOf(31, 5)
    ensures BitOf(3, 0) && BitOf(3, 1) && !BitOf(3, 2) && !BitOf(3, 3) && !BitOf(3, 4) && !BitOf(3, 5)
  {
    assert BitOf(31, 3) == BitOf(7, 1) && BitOf(31, 4) == BitOf(7, 2) && BitOf(31, 5) == BitOf(7, 3);
    assert BitOf(3, 4) == BitOf(0, 2) && BitOf(3, 5) == BitOf(0, 3);
    ZeroBits(2);
    ZeroBits(3);
  }

  /** The address cycles for mask bits i.., as steps of the chip. */
  function SendMasked(c: Chip, address: seq<byte>, mask: nat, i: nat): Chip
    requires |address| == 6 && i <= 6
    decreases 6 - i
  {
    if i == 6 then c
    else SendMasked(if BitOf(mask, i) then SendAddr(c, address[i]) else c, address, mask, i + 1)
  }

  lemma {:induction false} AddressCycles(c: Chip, address: seq<byte>, mask: nat, i: nat)
    requires |address| == 6 && i <= 6 && c.ce == LOW
    ensures RunDefined(c, AddrEvents(address, mask, i))
    ensures Run(c, AddrEvents(address, mask, i)) == SendMasked(c, address, mask, i)
    decreases 6 - i
  {
    if i < 6 {
      if BitOf(mask, i) {
        AddressCycle(c, address[i]);
        RunConcat(c, AddrCycle(address[i]), AddrEvents(address, mask, i + 1));
        AddressCycles(SendAddr(c, address[i]), address, mask, i + 1);
      } else {
        assert AddrEvents(address, mask, i) == AddrEvents(address, mask, i + 1);
        AddressCycles(c, address, mask, i + 1);
      }
    }
  }

  lemma {:induction false} IssueCycles(t: Ctrl, o: Order)
    requires |t.address| == 6 && t.chip.ce == LOW && CmdDefined(AtCommand(t.chip, o.command))
    ensures RunDefined(t.chip, IssueEvents(t, o))
    ensures Run(t.chip, IssueEvents(t, o)) == SendMasked(SendCmd(t.chip, o.command), t.address, o.bitmask, 0)
  {
    CommandCycle(t.chip, o.command);
    AddressCycles(SendCmd(t.chip, o.command), t.address, o.bitmask, 0);
    RunConcat(t.chip, CmdCycle(o.command), AddrEvents(t.address, o.bitmask, 0));
  }

  lemma {:induction false} FiveAddresses(c: Chip, a: seq<byte>)
    requires |a| == 6
    ensures SendMasked(c, a, 31, 0)
         == SendAddr(SendAddr(SendAddr(SendAddr(SendAddr(c, a[0]), a[1]), a[2]), a[3]), a[4])
  {
    Masks();
    var c1 := SendAddr(c, a[0]);
    var c2 := SendAddr(c1, a[1]);
    var c3 := SendAddr(c2, a[2]);
    var c4 := SendAddr(c3, a[3]);
    assert SendMasked(c, a, 31, 0) == SendMasked(c1, a, 31, 1) == SendMasked(c2, a, 31, 2)
        == SendMasked(c3, a, 31, 3) == SendMasked(c4, a, 31, 4)
        == SendMasked(SendAddr(c4, a[4]), a, 31, 5) == SendMasked(SendAddr(c4, a[4]), a, 31, 6);
  }

  lemma {:induction false} TwoAddresses(c: Chip, a: seq<byte>)
    requires |a| == 6
    ensures SendMasked(c, a, 3, 0) == SendAddr(SendAddr(c, a[0]), a[1])
  {
    Masks();
    var c1 := SendAddr(c, a[0]);
    var c2 := SendAddr(c1, a[1]);
    assert SendMasked(c, a, 3, 0) == SendMasked(c1, a, 3, 1) == SendMasked(c2, a, 3, 2)
        == SendMasked(c2, a, 3, 3) == SendMasked(c2, a, 3, 4) == SendMasked(c2, a, 3, 5) == SendMasked(c2, a, 3, 6);
  }

  lemma {:induction false} NoAddresses(c: Chip, a: seq<byte>, i: nat)
    requires |a| == 6 && i <= 6
    ensures SendMasked(c, a, 0, i) == c
    decreases 6 - i
  {
    if i < 6 { ZeroBits(i); NoAddresses(c, a, i + 1); }
  }

  /** Data cycles load the page buffer from the current offset. */
  lemma {:induction false} LoadBytes(c: Chip, bytes: seq<byte>, i: nat, n: nat)
    requires i <= n <= |bytes|
    requires c.ce == LOW && c.wp == HIGH && c.iostatus == IoDataWrite && |c.buffer| == PAGE
    requires c.pageoffset + (n - i) <= PAGE
    ensures RunDefined(c, DataEvents(bytes, i, n))
    ensures var e := Run(c, DataEvents(bytes, i, n));
            e == c.(buffer := Put(c.buffer, c.pageoffset, bytes[i..n]), pageoffset := c.pageoffset + (n - i),
                    iopin := e.iopin, we := e.we)
    decreases n - i
  {
    if i == n {
      assert Put(c.buffer, c.pageoffset, bytes[i..n]) == c.buffer;
    } else {
      var d := LoadByte(c, bytes[i]);
      RunConcat(c, DataCycle(bytes[i]), DataEvents(bytes, i + 1, n));
      LoadBytes(d, bytes, i + 1, n);
      PutFirst(c.buffer, c.pageoffset, bytes[i..n]);
      assert bytes[i..n][1..] == bytes[i + 1..n];
    }
  }

  lemma {:induction false} LoadByte(c: Chip, b: byte) returns (d: Chip)
    requires c.ce == LOW && c.wp == HIGH && c.iostatus == IoDataWrite && c.pageoffset < PAGE == |c.buffer|
    ensures RunDefined(c, DataCycle(b)) && d == Run(c, DataCycle(b))
    ensures d == c.(buffer := c.buffer[c.pageoffset := b], pageoffset := c.pageoffset + 1, iopin := b, we := HIGH)
  {
    WriteCycle(c, b);
    SmallHalf(c.pageoffset + 1);
    d := SendData(c, b);
  }

  lemma {:induction false} SmallHalf(x: nat)
    requires x < 0x1_0000
    ensures x % 0x1_0000 == x
  {
  }

  lemma {:induction false} PutFirst(mem: seq<byte>, at: nat, bytes: seq<byte>)
    requires bytes != [] && at + |bytes| <= |mem|
    ensures Put(mem[at := bytes[0]], at + 1, bytes[1..]) == Put(mem, at, bytes)
  {
  }

  // ----- Register scripts -----

  /** A command word with the start bit, as the guest writes it. */
  function OrderWord(mask: nat, command: byte, flags: nat, size: nat): word
    requires mask < 32 && flags < 16 && size < BUFFER
  {
    0x8000_0000 + mask * 0x100_0000 + command * 0x1_0000 + flags * 0x1000 + size
  }

  lemma {:induction false} OrderWordDecodes(mask: nat, command: byte, flags: nat, size: nat)
    requires mask < 32 && flags < 16 && size < BUFFER
    ensures !Ignored(OrderWord(mask, command, flags, size))
    ensures DecodeOrder(OrderWord(mask, command, flags, size))
         == Order(mask, command, flags / 2 % 2 == 1, flags / 4 % 2 == 1, flags % 2 == 1, size)
  {
    var w := OrderWord(mask, command, flags, size);
    assert w / 0x1000 == 0x8_0000 + mask * 0x1000 + command * 0x10 + flags && w % 0x1000 == size;
    assert w / 0x1_0000 == 0x8000 + mask * 0x100 + command;
    assert w / 0x100_0000 == 0x80 + mask;
    assert (0x8_0000 + mask * 0x1000 + command * 0x10 + flags) % 16 == flags;
    assert (0x8000 + mask * 0x100 + command) % 256 == command;
    assert (0x80 + mask) % 32 == mask;
  }

  // The flags of an order: transfer to the chip, from it, and section codes.
  const WRITE := 4
  const READ := 2
  const READ_CODES := 3
  const WRITE_CODES := 5

  type count = n: nat | n < BUFFER

  /** One piece of a page: `size` guest bytes from `src` for column `col`. */
  datatype Part = Part(col: half, src: word, size: count)

  predicate PartFits(t: Ctrl, p: Part) {
    SizeAccepted(p.size) && p.col + p.size <= PAGE && Reachable(t.(data := p.src), p.size)
  }

  function PartBytes(t: Ctrl, p: Part): (r: seq<byte>)
    requires PartFits(t, p)
    ensures |r| == p.size
  {
    Payload(t.(data := p.src), p.size)
  }

  function Overlay(t: Ctrl, page: seq<byte>, parts: seq<Part>): (r: seq<byte>)
    requires |page| == PAGE && forall p :: p in parts ==> PartFits(t, p)
    ensures |r| == PAGE
    decreases |parts|
  {
    if parts == [] then page
    else Overlay(t, Put(page, parts[0].col, PartBytes(t, parts[0])), parts[1..])
  }

  function OpenScript(row: nat, p: Part, flags: nat): seq<(nat, word)>
    requires row < 0x100_0000 && flags < 16
  {
    [(NFADDR0, p.col), (NFADDR1, row), (NF_DATA, p.src)] + [(NFCMD, OrderWord(31, SEQIN, flags, p.size))]
  }

  function PartScript(p: Part): seq<(nat, word)> {
    [(NFADDR0, p.col), (NF_DATA, p.src)] + [(NFCMD, OrderWord(3, RANDIN, WRITE, p.size))]
  }

  function MoreScript(parts: seq<Part>): seq<(nat, word)> {
    if parts == [] then [(NFCMD, OrderWord(0, PAGEPROG, 0, 0))]
    else PartScript(parts[0]) + MoreScript(parts[1..])
  }

  /** 0x80 with row, column and data, any number of 0x85 parts, then 0x10. */
  function ProgramScript(row: nat, first: Part, more: seq<Part>): seq<(nat, word)>
    requires row < 0x100_0000
  {
    OpenScript(row, first, WRITE) + MoreScript(more)
  }

  /** 0x00 with row and column, then 0x30 reading n bytes to guest address dst. */
  function ReadScript(row: nat, col: half, dst: word, n: count, flags: nat): seq<(nat, word)>
    requires row < 0x100_0000 && flags < 16
  {
    SeekScript(row, col) + FetchScript(dst, n, flags)
  }

  function SeekScript(row: nat, col: half): seq<(nat, word)>
    requires row < 0x100_0000
  {
    [(NFADDR0, col), (NFADDR1, row)] + [(NFCMD, OrderWord(31, READ0, 0, 0))]
  }

  function FetchScript(dst: word, n: count, flags: nat): seq<(nat, word)>
    requires flags < 16
  {
    [(NF_DATA, dst)] + [(NFCMD, OrderWord(0, READ0B, flags, n))]
  }

  lemma {:induction false} ScriptConcat(t: Ctrl, a: seq<(nat, word)>, b: seq<(nat, word)>)
    requires ScriptDefined(t, a) && ScriptDefined(Script(t, a), b)
    ensures ScriptDefined(t, a + b) && Script(t, a + b) == Script(Script(t, a), b)
    decreases |a|
  {
    if a == [] {
      assert a + b == b;
    } else {
      assert (a + b)[1..] == a[1..] + b;
      ScriptConcat(WriteReg(t, a[0].0, a[0].1), a[1..], b);
    }
  }

  lemma {:induction false} Script1(t: Ctrl, w: (nat, word))
    requires WriteDefined(t, w.0, w.1)
    ensures ScriptDefined(t, [w]) && Script(t, [w]) == WriteReg(t, w.0, w.1)
  {
    assert [w][1..] == [];
  }

  lemma {:induction false} Script2(t: Ctrl, a: (nat, word), b: (nat, word), u: Ctrl, v: Ctrl)
    requires WriteDefined(t, a.0, a.1) && u == WriteReg(t, a.0, a.1)
    requires WriteDefined(u, b.0, b.1) && v == WriteReg(u, b.0, b.1)
    ensures ScriptDefined(t, [a, b]) && Script(t, [a, b]) == v
  {
    assert [a, b][1..] == [b];
    Script1(u, b);
  }

  lemma {:induction false} Script3(t: Ctrl, a: (nat, word), b: (nat, word), d: (nat, word))
    requires WriteDefined(t, a.0, a.1)
    requires WriteDefined(WriteReg(t, a.0, a.1), b.0, b.1)
    requires WriteDefined(WriteReg(WriteReg(t, a.0, a.1), b.0, b.1), d.0, d.1)
    ensures ScriptDefined(t, [a, b, d])
    ensures Script(t, [a, b, d]) == WriteReg(WriteReg(WriteReg(t, a.0, a.1), b.0, b.1), d.0, d.1)
  {
    var t2 := WriteReg(WriteReg(t, a.0, a.1), b.0, b.1);
    Script1(t2, d);
    assert [a, b, d][1..] == [b, d] && [b, d][1..] == [d];
    assert ScriptDefined(WriteReg(t, a.0, a.1), [b, d]) && Script(WriteReg(t, a.0, a.1), [b, d]) == Script(t2, [d]);
  }

  /** An order has the flags of its word. */
  predicate HasFlags(o: Order, flags: nat) {
    flags < 16 && o.read == (flags / 2 % 2 == 1) && o.write == (flags / 4 % 2 == 1) && o.ecc == (flags % 2 == 1)
  }

  /** A script that ends with an order. */
  lemma {:induction false} ScriptOrder(t: Ctrl, s: seq<(nat, word)>, u: Ctrl, o: Order, flags: nat, v: Ctrl)
    requires ScriptDefined(t, s) && Script(t, s) == u && OrderDefined(u, o) && v == DoOrder(u, o)
    requires o.bitmask < 32 && o.size < BUFFER && HasFlags(o, flags)
    ensures var w := (NFCMD, OrderWord(o.bitmask, o.command, flags, o.size));
            ScriptDefined(t, s + [w]) && Script(t, s + [w]) == v
  {
    OrderWordDecodes(o.bitmask, o.command, flags, o.size);
    var w := (NFCMD, OrderWord(o.bitmask, o.command, flags, o.size));
    Script1(u, w);
    ScriptConcat(t, s, [w]);
  }

  // ----- Programming -----

  predicate Ready(t: Ctrl) {
    t.Valid() && t.chip.ce == LOW && t.chip.wp == HIGH && t.chip.re == HIGH
  }

  predicate PageInside(c: Chip, row: nat) {
    && row < 0x100_0000 && (row + 1) * PAGE <= c.device
    && row * c.fmt < WRAP && row * c.fmt + PAGE <= |c.image|
  }

  /** A program operation on `row` is open and the page buffer holds `page`. */
  predicate Loading(t: Ctrl, row: nat, page: seq<byte>) {
    && Ready(t) && ProgramConfirmed(t.chip)
    && t.chip.iostatus == IoDataWrite && t.chip.pagenum == row && t.chip.buffer == page
  }

  /** Nothing a later part or the confirmation depends on differs. */
  predicate SameBacking(t: Ctrl, u: Ctrl) {
    && u.guest == t.guest && u.ecc == t.ecc
    && u.chip.image == t.chip.image && u.chip.fmt == t.chip.fmt && u.chip.device == t.chip.device
  }

  /** The data phase of a program order whose address phase is complete. */
  lemma {:induction false} DataPhase(t: Ctrl, o: Order, row: nat, page: seq<byte>)
    requires Loading(t, row, page) && o.write && !o.read && !o.ecc
    requires SizeAccepted(o.size) && Reachable(t, o.size) && t.chip.pageoffset + o.size <= PAGE
    ensures WritePhaseDefined(t, o)
    ensures Loading(WritePhase(t, o), row, Put(page, t.chip.pageoffset, Payload(t, o.size)))
    ensures SameBacking(t, WritePhase(t, o))
  {
    var bytes := Payload(t, o.size);
    LoadBytes(t.chip, bytes, 0, o.size);
    assert bytes[0..o.size] == bytes;
  }

  lemma {:induction false} OrderLoads(t: Ctrl, o: Order, row: nat, page: seq<byte>)
    requires |t.address| == 6 && |t.buf| == BUFFER
    requires o.write && !o.read && !o.ecc && SizeAccepted(o.size) && Reachable(t, o.size)
    requires RunDefined(t.chip, IssueEvents(t, o))
    requires var t1 := t.(chip := Run(t.chip, IssueEvents(t, o)));
             Loading(t1, row, page) && t1.chip.pageoffset + o.size <= PAGE && SameBacking(t, t1)
    ensures OrderDefined(t, o)
    ensures var t1 := t.(chip := Run(t.chip, IssueEvents(t, o)));
            Loading(DoOrder(t, o), row, Put(page, t1.chip.pageoffset, Payload(t, o.size)))
            && SameBacking(t, DoOrder(t, o))
  {
    var t1 := t.(chip := Run(t.chip, IssueEvents(t, o)));
    DataPhase(t1, o, row, page);
    if o.size == 0 {
      assert Put(page, t1.chip.pageoffset, Payload(t, 0)) == page;
    }
  }

  lemma {:induction false} OpenCycles(t: Ctrl, col: half, row: nat, o: Order)
    requires Ready(t) && row < 0x100_0000 && o.command == SEQIN && o.bitmask == 31
    requires t.address[..5] == [col % 256, col / 256, row % 256, row / 256 % 256, row / 0x1_0000 % 256]
    ensures RunDefined(t.chip, IssueEvents(t, o))
    ensures var t1 := t.(chip := Run(t.chip, IssueEvents(t, o)));
            Loading(t1, row, Blank()) && t1.chip.pageoffset == col && SameBacking(t, t1)
  {
    IssueCycles(t, o);
    FullAddress(SendCmd(t.chip, SEQIN), t.address, col, row);
  }

  /** Five address bytes carry a column and a row. */
  lemma {:induction false} FullAddress(c: Chip, a: seq<byte>, col: half, row: nat)
    requires c.cmdstatus == Addr1 && c.cmd != RANDIN && |a| == 6 && row < 0x100_0000
    requires a[..5] == [col % 256, col / 256, row % 256, row / 256 % 256, row / 0x1_0000 % 256]
    ensures SendMasked(c, a, 31, 0)
         == RowDone(AtColumn(c, col).(pagenum := row, iopin := row / 0x1_0000 % 256, we := HIGH, ale := LOW))
  {
    assert a[0] == a[..5][0] && a[1] == a[..5][1] && a[2] == a[..5][2] && a[3] == a[..5][3] && a[4] == a[..5][4];
    FiveAddresses(c, a);
    ColumnCycles(c, col);
    RowCycles(AtColumn(c, col), a[2], a[3], a[4]);
    RowDigits(row);
  }

  lemma {:induction false} OpenOrder(t: Ctrl, col: half, row: nat, o: Order) returns (v: Ctrl)
    requires Ready(t) && row < 0x100_0000 && o.command == SEQIN && o.bitmask == 31
    requires t.address[..5] == [col % 256, col / 256, row % 256, row / 256 % 256, row / 0x1_0000 % 256]
    requires col + o.size <= PAGE && o.write && !o.read && !o.ecc && SizeAccepted(o.size) && Reachable(t, o.size)
    ensures OrderDefined(t, o) && v == DoOrder(t, o)
    ensures Loading(v, row, Put(Blank(), col, Payload(t, o.size))) && SameBacking(t, v)
  {
    OpenCycles(t, col, row, o);
    OrderLoads(t, o, row, Blank());
    v := DoOrder(t, o);
  }

  /** The order at the end of a script. */
  lemma {:induction false} OpenAfter(t0: Ctrl, s: seq<(nat, word)>, t: Ctrl, col: half, row: nat, n: count)
    returns (v: Ctrl)
    requires ScriptDefined(t0, s) && Script(t0, s) == t
    requires Ready(t) && row < 0x100_0000 && col + n <= PAGE && SizeAccepted(n) && Reachable(t, n)
    requires t.address[..5] == [col % 256, col / 256, row % 256, row / 256 % 256, row / 0x1_0000 % 256]
    ensures var all := s + [(NFCMD, OrderWord(31, SEQIN, WRITE, n))]; ScriptDefined(t0, all) && v == Script(t0, all)
    ensures Loading(v, row, Put(Blank(), col, Payload(t, n))) && SameBacking(t, v)
  {
    var o := Order(31, SEQIN, false, true, false, n);
    v := OpenOrder(t, col, row, o);
    ScriptOrder(t0, s, t, o, WRITE, v);
  }

  /** Column, row and source registers set for an order that opens a page. */
  lemma {:induction false} OpenRegisters(t: Ctrl, row: nat, p: Part) returns (u: Ctrl)
    requires Ready(t) && row < 0x100_0000 && PartFits(t, p)
    ensures var s := [(NFADDR0, p.col), (NFADDR1, row), (NF_DATA, p.src)]; ScriptDefined(t, s) && Script(t, s) == u
    ensures Ready(u) && SameBacking(t, u) && Reachable(u, p.size) && Payload(u, p.size) == PartBytes(t, p)
    ensures u.address[..5] == [p.col % 256, p.col / 256, row % 256, row / 256 % 256, row / 0x1_0000 % 256]
  {
    Script3(t, (NFADDR0, p.col), (NFADDR1, row), (NF_DATA, p.src));
    u := WriteReg(WriteReg(WriteReg(t, NFADDR0, p.col), NFADDR1, row), NF_DATA, p.src);
    assert u.data == p.src && u.chip == t.chip && u.guest == t.guest && u.ecc == t.ecc;
  }

  lemma {:induction false} OpenPage(t: Ctrl, row: nat, p: Part)
    requires Ready(t) && row < 0x100_0000 && PartFits(t, p)
    ensures ScriptDefined(t, OpenScript(row, p, WRITE))
    ensures Loading(Script(t, OpenScript(row, p, WRITE)), row, Put(Blank(), p.col, PartBytes(t, p)))
    ensures SameBacking(t, Script(t, OpenScript(row, p, WRITE)))
  {
    var u := OpenRegisters(t, row, p);
    var v := OpenAfter(t, [(NFADDR0, p.col), (NFADDR1, row), (NF_DATA, p.src)], u, p.col, row, p.size);
  }

  lemma {:induction false} PartCycles(t: Ctrl, col: half, row: nat, page: seq<byte>, o: Order)
    requires Loading(t, row, page) && o.command == RANDIN && o.bitmask == 3
    requires t.address[..2] == [col % 256, col / 256]
    ensures RunDefined(t.chip, IssueEvents(t, o))
    ensures var t1 := t.(chip := Run(t.chip, IssueEvents(t, o)));
            Loading(t1, row, page) && t1.chip.pageoffset == col && SameBacking(t, t1)
  {
    IssueCycles(t, o);
    var a, c := t.address, SendCmd(t.chip, RANDIN);
    assert a[0] == a[..2][0] && a[1] == a[..2][1];
    TwoAddresses(c, a);
    ColumnCycles(c, col);
  }

  lemma {:induction false} PartOrder(t: Ctrl, col: half, row: nat, page: seq<byte>, o: Order) returns (v: Ctrl)
    requires Loading(t, row, page) && o.command == RANDIN && o.bitmask == 3
    requires t.address[..2] == [col % 256, col / 256] && col + o.size <= PAGE
    requires o.write && !o.read && !o.ecc && SizeAccepted(o.size) && Reachable(t, o.size)
    ensures OrderDefined(t, o) && v == DoOrder(t, o)
    ensures Loading(v, row, Put(page, col, Payload(t, o.size))) && SameBacking(t, v)
  {
    PartCycles(t, col, row, page, o);
    OrderLoads(t, o, row, page);
    v := DoOrder(t, o);
  }

  lemma {:induction false} PartAfter(t0: Ctrl, s: seq<(nat, word)>, t: Ctrl, col: half, row: nat, page: seq<byte>,
                                     n: count)
    returns (v: Ctrl)
    requires ScriptDefined(t0, s) && Script(t0, s) == t
    requires Loading(t, row, page) && col + n <= PAGE && SizeAccepted(n) && Reachable(t, n)
    requires t.address[..2] == [col % 256, col / 256]
    ensures var all := s + [(NFCMD, OrderWord(3, RANDIN, WRITE, n))]; ScriptDefined(t0, all) && v == Script(t0, all)
    ensures Loading(v, row, Put(page, col, Payload(t, n))) && SameBacking(t, v)
  {
    var o := Order(3, RANDIN, false, true, false, n);
    v := PartOrder(t, col, row, page, o);
    ScriptOrder(t0, s, t, o, WRITE, v);
  }

  /** Column and source registers set for an order that adds a part. */
  lemma {:induction false} PartRegisters(t: Ctrl, row: nat, page: seq<byte>, p: Part) returns (u: Ctrl)
    requires Loading(t, row, page) && PartFits(t, p)
    ensures var s := [(NFADDR0, p.col), (NF_DATA, p.src)]; ScriptDefined(t, s) && Script(t, s) == u
    ensures Loading(u, row, page) && SameBacking(t, u) && Reachable(u, p.size) && Payload(u, p.size) == PartBytes(t, p)
    ensures u.address[..2] == [p.col % 256, p.col / 256]
  {
    var v := WriteReg(t, NFADDR0, p.col);
    u := WriteReg(v, NF_DATA, p.src);
    Script2(t, (NFADDR0, p.col), (NF_DATA, p.src), v, u);
  }

  lemma {:induction false} LoadPart(t: Ctrl, row: nat, page: seq<byte>, p: Part)
    requires Loading(t, row, page) && PartFits(t, p)
    ensures ScriptDefined(t, PartScript(p))
    ensures Loading(Script(t, PartScript(p)), row, Put(page, p.col, PartBytes(t, p)))
    ensures SameBacking(t, Script(t, PartScript(p)))
  {
    var u := PartRegisters(t, row, page, p);
    var v := PartAfter(t, [(NFADDR0, p.col), (NF_DATA, p.src)], u, p.col, row, page, p.size);
  }

  lemma {:induction false} Confirm(t: Ctrl, row: nat, page: seq<byte>)
    requires Loading(t, row, page) && PageInside(t.chip, row)
    ensures ScriptDefined(t, MoreScript([]))
    ensures var u := Script(t, MoreScript([]));
            && Ready(u) && u.guest == t.guest && u.ecc == t.ecc
            && u.chip.fmt == t.chip.fmt && u.chip.device == t.chip.device
            && u.chip.image == AndAt(t.chip.image, row * t.chip.fmt, page)
  {
    OrderWordDecodes(0, PAGEPROG, 0, 0);
    var o := DecodeOrder(OrderWord(0, PAGEPROG, 0, 0));
    SmallMod(row * t.chip.fmt);
    IssueCycles(t, o);
    NoAddresses(SendCmd(t.chip, PAGEPROG), t.address, 0);
    Script1(t, (NFCMD, OrderWord(0, PAGEPROG, 0, 0)));
  }

  lemma {:induction false} LoadAndConfirm(t: Ctrl, row: nat, page: seq<byte>, parts: seq<Part>)
    requires Loading(t, row, page) && PageInside(t.chip, row)
    requires forall p :: p in parts ==> PartFits(t, p)
    ensures ScriptDefined(t, MoreScript(parts))
    ensures var u := Script(t, MoreScript(parts));
            && Ready(u) && u.guest == t.guest && u.ecc == t.ecc
            && u.chip.fmt == t.chip.fmt && u.chip.device == t.chip.device
            && u.chip.image == AndAt(t.chip.image, row * t.chip.fmt, Overlay(t, page, parts))
    decreases |parts|
  {
    if parts == [] {
      Confirm(t, row, page);
    } else {
      LoadPart(t, row, page, parts[0]);
      var t1 := Script(t, PartScript(parts[0]));
      var page1 := Put(page, parts[0].col, PartBytes(t, parts[0]));
      OverlaySame(t, t1, page1, parts[1..]);
      LoadAndConfirm(t1, row, page1, parts[1..]);
      ScriptConcat(t, PartScript(parts[0]), MoreScript(parts[1..]));
    }
  }

  lemma {:induction false} OverlaySame(t: Ctrl, u: Ctrl, page: seq<byte>, parts: seq<Part>)
    requires SameBacking(t, u) && |page| == PAGE && forall p :: p in parts ==> PartFits(t, p)
    ensures forall p :: p in parts ==> PartFits(u, p)
    ensures Overlay(u, page, parts) == Overlay(t, page, parts)
    decreases |parts|
  {
    if parts != [] {
      OverlaySame(t, u, Put(page, parts[0].col, PartBytes(t, parts[0])), parts[1..]);
    }
  }

  /** What a whole program script leaves in the image: the page ANDed with the overlaid data. */
  lemma {:induction false} ProgramPage(t: Ctrl, row: nat, first: Part, more: seq<Part>) returns (u: Ctrl)
    requires Ready(t) && PageInside(t.chip, row)
    requires PartFits(t, first) && forall p :: p in more ==> PartFits(t, p)
    ensures ScriptDefined(t, ProgramScript(row, first, more)) && u == Script(t, ProgramScript(row, first, more))
    ensures Ready(u) && u.guest == t.guest && u.ecc == t.ecc
    ensures u.chip.fmt == t.chip.fmt && u.chip.device == t.chip.device
    ensures u.chip.image == AndAt(t.chip.image, row * t.chip.fmt, Overlay(t, Blank(), [first] + more))
  {
    OpenPage(t, row, first);
    var t1 := Script(t, OpenScript(row, first, WRITE));
    var page := Put(Blank(), first.col, PartBytes(t, first));
    OverlaySame(t, t1, page, more);
    LoadAndConfirm(t1, row, page, more);
    assert ([first] + more)[1..] == more;
    ScriptConcat(t, OpenScript(row, first, WRITE), MoreScript(more));
    u := Script(t1, MoreScript(more));
  }

  /** On an erased page the AND is the data itself. */
  lemma {:induction false} AndOnBlank(image: seq<byte>, base: nat, page: seq<byte>)
    requires |page| == PAGE && base + PAGE <= |image| && image[base..base + PAGE] == Blank()
    ensures AndAt(image, base, page) == Put(image, base, page)
  {
    forall i | base <= i < base + PAGE ensures And(image[i], page[i - base]) == page[i - base] {
      assert image[i] == image[base..base + PAGE][i - base] == 0xff;
      ByteOnes(page[i - base]);
    }
  }

  // ----- Reading back -----

  predicate ReadingPage(c: Chip, row: nat) {
    c.Valid() && c.ce == LOW && c.re == HIGH && c.iostatus == IoDataRead && PageInside(c, row)
  }

  lemma {:induction false} PageReadStep(c: Chip, row: nat)
    requires ReadingPage(c, row) && c.pagenum == row && c.pageoffset < PAGE
    ensures Defined(c, SetRE(LOW)) && ByteRead(c) == c.image[row * c.fmt + c.pageoffset]
    ensures var d := ReadOnce(c);
            && ReadingPage(d, row) && d.image == c.image && d.fmt == c.fmt
            && (c.pageoffset + 1 < PAGE ==> d.pagenum == row && d.pageoffset == c.pageoffset + 1)
  {
    SmallMod(row * c.fmt);
    SmallMod(row * PAGE + c.pageoffset);
    SmallHalf(c.pageoffset + 1);
  }

  lemma {:induction false} ReadsStay(c: Chip, row: nat, n: nat)
    requires ReadingPage(c, row) && c.pagenum == row && c.pageoffset + n <= PAGE
    ensures ReadsDefined(c, n)
    ensures var e := AfterReads(c, n);
            && ReadingPage(e, row) && e.image == c.image && e.fmt == c.fmt
            && (c.pageoffset + n < PAGE ==> e.pagenum == row && e.pageoffset == c.pageoffset + n)
    decreases n
  {
    if n > 0 {
      ReadsStay(c, row, n - 1);
      PageReadStep(AfterReads(c, n - 1), row);
    }
  }

  /** Read i, counted from 0, returns b. */
  predicate Yields(c: Chip, i: nat, b: byte) {
    ReadsDefined(c, i) && Defined(AfterReads(c, i), SetRE(LOW)) && ByteRead(AfterReads(c, i)) == b
  }

  lemma {:induction false} NthRead(c: Chip, row: nat, i: nat)
    requires ReadingPage(c, row) && c.pagenum == row && c.pageoffset + i < PAGE
    ensures Yields(c, i, c.image[row * c.fmt + c.pageoffset + i])
  {
    ReadsStay(c, row, i);
    PageReadStep(AfterReads(c, i), row);
  }

  lemma {:induction false} BytesNext(c: Chip, n: nat, b: byte)
    requires ReadsDefined(c, n) && Yields(c, n, b)
    ensures ReadsDefined(c, n + 1) && BytesRead(c, n + 1) == BytesRead(c, n) + [b]
  {
  }

  /** n reads that stay inside one page return the consecutive image bytes. */
  lemma {:induction false} ReadsInPage(c: Chip, row: nat, n: nat)
    requires ReadingPage(c, row) && c.pagenum == row && c.pageoffset + n <= PAGE
    ensures ReadsDefined(c, n)
    ensures var at := row * c.fmt + c.pageoffset; BytesRead(c, n) == c.image[at..at + n]
    decreases n
  {
    if n > 0 {
      var at := row * c.fmt + c.pageoffset;
      ReadsInPage(c, row, n - 1);
      NthRead(c, row, n - 1);
      BytesNext(c, n - 1, c.image[at + n - 1]);
      SliceNext(c.image, at, n - 1);
    }
  }

  lemma {:induction false} SliceNext(image: seq<byte>, at: nat, n: nat)
    requires at + n < |image|
    ensures image[at..at + n + 1] == image[at..at + n] + [image[at + n]]
  {
  }

  lemma {:induction false} ReadSetup(t: Ctrl, row: nat, col: half) returns (u: Ctrl)
    requires Ready(t) && row < 0x100_0000
    ensures ScriptDefined(t, SeekScript(row, col)) && u == Script(t, SeekScript(row, col))
    ensures Ready(u) && SameBacking(t, u) && u.chip.pagenum == row && u.chip.pageoffset == col
  {
    var t1 := WriteReg(t, NFADDR0, col);
    var t2 := WriteReg(t1, NFADDR1, row);
    var o := Order(31, READ0, false, false, false, 0);
    ReadAddressed(t2, col, row, o);
    u := DoOrder(t2, o);
    SeekEnds(t, row, col, t1, t2, u);
  }

  lemma {:induction false} SeekEnds(t: Ctrl, row: nat, col: half, t1: Ctrl, t2: Ctrl, u: Ctrl)
    requires |t.address| == 6 && row < 0x100_0000 && t1 == WriteReg(t, NFADDR0, col) && t2 == WriteReg(t1, NFADDR1, row)
    requires var o := Order(31, READ0, false, false, false, 0); OrderDefined(t2, o) && u == DoOrder(t2, o)
    ensures ScriptDefined(t, SeekScript(row, col)) && u == Script(t, SeekScript(row, col))
  {
    Script2(t, (NFADDR0, col), (NFADDR1, row), t1, t2);
    ScriptOrder(t, [(NFADDR0, col), (NFADDR1, row)], t2, Order(31, READ0, false, false, false, 0), 0, u);
  }

  lemma {:induction false} ReadAddressed(t: Ctrl, col: half, row: nat, o: Order)
    requires Ready(t) && row < 0x100_0000 && o.command == READ0 && o.bitmask == 31 && o.size == 0
    requires t.address[..5] == [col % 256, col / 256, row % 256, row / 256 % 256, row / 0x1_0000 % 256]
    ensures OrderDefined(t, o)
    ensures var u := DoOrder(t, o);
            Ready(u) && SameBacking(t, u) && u.chip.pagenum == row && u.chip.pageoffset == col
  {
    IssueCycles(t, o);
    FullAddress(SendCmd(t.chip, READ0), t.address, col, row);
  }

  /** Guest memory after a read of `bytes` to dst: data area, then spare area at the ecc register. */
  function Delivered(t: Ctrl, dst: word, bytes: seq<byte>): seq<byte>
    requires SizeAccepted(|bytes|) && Reachable(t.(data := dst), |bytes|)
  {
    if |bytes| <= 0x800 then Put(t.guest, dst, bytes)
    else Put(Put(t.guest, dst, bytes[..0x800]), t.ecc, bytes[0x800..])
  }

  lemma {:induction false} ReadOut(t: Ctrl, row: nat, o: Order, at: nat) returns (v: Ctrl)
    requires Ready(t) && PageInside(t.chip, row) && t.chip.pagenum == row && t.chip.pageoffset + o.size <= PAGE
    requires o.command == READ0B && o.bitmask == 0 && o.read && !o.write && !o.ecc
    requires 0 < o.size && SizeAccepted(o.size) && Reachable(t, o.size)
    requires at == row * t.chip.fmt + t.chip.pageoffset
    ensures OrderDefined(t, o) && v == DoOrder(t, o) && at + o.size <= |t.chip.image|
    ensures v.chip.image == t.chip.image && v.guest == Delivered(t, t.data, t.chip.image[at..at + o.size])
  {
    var c := ReadIssued(t, row, o);
    PageBytes(c, row, o.size, at);
    v := ReadOrder(t, o, c);
  }

  lemma {:induction false} PageBytes(c: Chip, row: nat, n: nat, at: nat)
    requires ReadingPage(c, row) && c.pagenum == row && c.pageoffset + n <= PAGE && at == row * c.fmt + c.pageoffset
    ensures ReadsDefined(c, n) && AfterReads(c, n).image == c.image
    ensures at + n <= |c.image| && BytesRead(c, n) == c.image[at..at + n]
  {
    ReadsStay(c, row, n);
    ReadsInPage(c, row, n);
  }

  /** The second read command turns the chip to data output and moves nothing. */
  lemma {:induction false} ReadIssued(t: Ctrl, row: nat, o: Order) returns (c: Chip)
    requires Ready(t) && PageInside(t.chip, row) && o.command == READ0B && o.bitmask == 0
    ensures RunDefined(t.chip, IssueEvents(t, o)) && c == Run(t.chip, IssueEvents(t, o))
    ensures ReadingPage(c, row) && c.image == t.chip.image && c.fmt == t.chip.fmt
    ensures c.pagenum == t.chip.pagenum && c.pageoffset == t.chip.pageoffset
  {
    IssueCycles(t, o);
    c := SendCmd(t.chip, READ0B);
    NoAddresses(c, t.address, 0);
  }

  lemma {:induction false} ReadOrder(t: Ctrl, o: Order, c: Chip) returns (v: Ctrl)
    requires |t.address| == 6 && |t.buf| == BUFFER && o.size <= BUFFER
    requires RunDefined(t.chip, IssueEvents(t, o)) && c == Run(t.chip, IssueEvents(t, o))
    requires o.read && !o.write && !o.ecc && 0 < o.size && SizeAccepted(o.size) && Reachable(t, o.size)
    requires ReadsDefined(c, o.size)
    ensures OrderDefined(t, o) && v == DoOrder(t, o)
    ensures v.chip == AfterReads(c, o.size) && v.guest == Delivered(t, t.data, BytesRead(c, o.size))
  {
    assert t.(data := t.data) == t;
    v := DoOrder(t, o);
  }

  lemma {:induction false} FetchBack(t: Ctrl, row: nat, dst: word, n: count, at: nat) returns (v: Ctrl)
    requires Ready(t) && PageInside(t.chip, row) && t.chip.pagenum == row && t.chip.pageoffset + n <= PAGE
    requires SizeAccepted(n) && 0 < n && Reachable(t.(data := dst), n)
    requires at == row * t.chip.fmt + t.chip.pageoffset
    ensures ScriptDefined(t, FetchScript(dst, n, READ)) && v == Script(t, FetchScript(dst, n, READ))
    ensures at + n <= |t.chip.image|
    ensures v.chip.image == t.chip.image && v.guest == Delivered(t, dst, t.chip.image[at..at + n])
  {
    v := FetchOrder(t, row, dst, at, Order(0, READ0B, true, false, false, n), READ);
  }

  /** What a read order after 0x00 fetches. */
  predicate PlainRead(o: Order) {
    o.command == READ0B && o.bitmask == 0 && o.read && !o.write && !o.ecc && 0 < o.size < BUFFER
  }

  lemma {:induction false} FetchOrder(t: Ctrl, row: nat, dst: word, at: nat, o: Order, flags: nat) returns (v: Ctrl)
    requires Ready(t) && PageInside(t.chip, row) && t.chip.pagenum == row && t.chip.pageoffset + o.size <= PAGE
    requires PlainRead(o) && HasFlags(o, flags) && SizeAccepted(o.size) && Reachable(t.(data := dst), o.size)
    requires at == row * t.chip.fmt + t.chip.pageoffset
    ensures ScriptDefined(t, FetchScript(dst, o.size, flags)) && v == Script(t, FetchScript(dst, o.size, flags))
    ensures at + o.size <= |t.chip.image|
    ensures v.chip.image == t.chip.image && v.guest == Delivered(t, dst, t.chip.image[at..at + o.size])
  {
    var u := t.(data := dst);
    Script1(t, (NF_DATA, dst));
    v := FetchAfter(t, [(NF_DATA, dst)], u, row, at, o, flags);
    DeliveredSame(t, u, dst, t.chip.image[at..at + o.size]);
  }

  lemma {:induction false} DeliveredSame(t: Ctrl, u: Ctrl, dst: word, bytes: seq<byte>)
    requires SizeAccepted(|bytes|) && Reachable(t.(data := dst), |bytes|) && u.guest == t.guest && u.ecc == t.ecc
    ensures Delivered(u, dst, bytes) == Delivered(t, dst, bytes)
  {
  }

  lemma {:induction false} FetchAfter(t0: Ctrl, s: seq<(nat, word)>, t: Ctrl, row: nat, at: nat, o: Order, flags: nat)
    returns (v: Ctrl)
    requires ScriptDefined(t0, s) && Script(t0, s) == t && HasFlags(o, flags) && PlainRead(o)
    requires Ready(t) && PageInside(t.chip, row) && t.chip.pagenum == row && t.chip.pageoffset + o.size <= PAGE
    requires SizeAccepted(o.size) && Reachable(t, o.size) && at == row * t.chip.fmt + t.chip.pageoffset
    ensures var all := s + [(NFCMD, OrderWord(o.bitmask, o.command, flags, o.size))];
            ScriptDefined(t0, all) && v == Script(t0, all)
    ensures at + o.size <= |t.chip.image|
    ensures v.chip.image == t.chip.image && v.guest == Delivered(t, t.data, t.chip.image[at..at + o.size])
  {
    v := ReadOut(t, row, o, at);
    ScriptOrder(t0, s, t, o, flags, v);
  }

  lemma {:induction false} ReadBack(t: Ctrl, row: nat, col: half, dst: word, n: count) returns (v: Ctrl)
    requires Ready(t) && PageInside(t.chip, row)
    requires SizeAccepted(n) && 0 < n && col + n <= PAGE && Reachable(t.(data := dst), n)
    ensures ScriptDefined(t, ReadScript(row, col, dst, n, READ)) && v == Script(t, ReadScript(row, col, dst, n, READ))
    ensures var at := row * t.chip.fmt + col;
            v.chip.image == t.chip.image && v.guest == Delivered(t, dst, t.chip.image[at..at + n])
  {
    v := ReadBackAt(t, row, col, dst, n, row * t.chip.fmt + col);
  }

  lemma {:induction false} ReadBackAt(t: Ctrl, row: nat, col: half, dst: word, n: count, at: nat) returns (v: Ctrl)
    requires Ready(t) && PageInside(t.chip, row) && at == row * t.chip.fmt + col
    requires SizeAccepted(n) && 0 < n && col + n <= PAGE && Reachable(t.(data := dst), n)
    ensures ScriptDefined(t, ReadScript(row, col, dst, n, READ)) && v == Script(t, ReadScript(row, col, dst, n, READ))
    ensures at + n <= |t.chip.image|
    ensures v.chip.image == t.chip.image && v.guest == Delivered(t, dst, t.chip.image[at..at + n])
  {
    var u := ReadSetup(t, row, col);
    v := FetchBack(u, row, dst, n, at);
    DeliveredSame(t, u, dst, t.chip.image[at..at + n]);
    ReadEnds(t, row, col, dst, n, READ, u, v);
  }

  lemma {:induction false} ReadEnds(t: Ctrl, row: nat, col: half, dst: word, n: count, flags: nat, u: Ctrl, v: Ctrl)
    requires row < 0x100_0000 && ScriptDefined(t, SeekScript(row, col)) && u == Script(t, SeekScript(row, col))
    requires flags < 16 && ScriptDefined(u, FetchScript(dst, n, flags)) && v == Script(u, FetchScript(dst, n, flags))
    ensures ScriptDefined(t, ReadScript(row, col, dst, n, flags)) && Script(t, ReadScript(row, col, dst, n, flags)) == v
  {
    ScriptConcat(t, SeekScript(row, col), FetchScript(dst, n, flags));
  }

  /** Program an erased page in any number of parts, read any stretch of it back: the guest receives
      exactly the overlaid data (0xff where no part wrote), and no other byte of the image moved. */
  lemma {:induction false} ProgramThenRead(t: Ctrl, row: nat, first: Part, more: seq<Part>, col: half, dst: word,
                                           n: count)
    returns (u: Ctrl, v: Ctrl)
    requires Ready(t) && PageInside(t.chip, row)
    requires PartFits(t, first) && forall p :: p in more ==> PartFits(t, p)
    requires var base := row * t.chip.fmt; t.chip.image[base..base + PAGE] == Blank()
    requires SizeAccepted(n) && 0 < n && col + n <= PAGE && Reachable(t.(data := dst), n)
    ensures ScriptDefined(t, ProgramScript(row, first, more)) && u == Script(t, ProgramScript(row, first, more))
    ensures ScriptDefined(u, ReadScript(row, col, dst, n, READ)) && v == Script(u, ReadScript(row, col, dst, n, READ))
    ensures var page := Overlay(t, Blank(), [first] + more);
            && u.chip.image == v.chip.image == Put(t.chip.image, row * t.chip.fmt, page)
            && v.guest == Delivered(t, dst, page[col..col + n])
  {
    u := ProgramErased(t, row, first, more);
    v := ReadProgrammed(t, u, row, Overlay(t, Blank(), [first] + more), col, dst, n);
  }

  /** On an erased page the program script puts the overlaid data in place. */
  lemma {:induction false} ProgramErased(t: Ctrl, row: nat, first: Part, more: seq<Part>) returns (u: Ctrl)
    requires Ready(t) && PageInside(t.chip, row)
    requires PartFits(t, first) && forall p :: p in more ==> PartFits(t, p)
    requires var base := row * t.chip.fmt; t.chip.image[base..base + PAGE] == Blank()
    ensures ScriptDefined(t, ProgramScript(row, first, more)) && u == Script(t, ProgramScript(row, first, more))
    ensures Ready(u) && u.guest == t.guest && u.ecc == t.ecc && u.chip.fmt == t.chip.fmt
    ensures u.chip.device == t.chip.device
    ensures u.chip.image == Put(t.chip.image, row * t.chip.fmt, Overlay(t, Blank(), [first] + more))
  {
    u := ProgramPage(t, row, first, more);
    AndOnBlank(t.chip.image, row * t.chip.fmt, Overlay(t, Blank(), [first] + more));
  }

  /** Reading any stretch of a page that was put in place delivers that stretch. */
  lemma {:induction false} ReadProgrammed(t: Ctrl, u: Ctrl, row: nat, page: seq<byte>, col: half, dst: word, n: count)
    returns (v: Ctrl)
    requires Ready(u) && PageInside(t.chip, row) && |page| == PAGE && u.guest == t.guest && u.ecc == t.ecc
    requires u.chip.fmt == t.chip.fmt && u.chip.device == t.chip.device
    requires u.chip.image == Put(t.chip.image, row * t.chip.fmt, page)
    requires SizeAccepted(n) && 0 < n && col + n <= PAGE && Reachable(t.(data := dst), n)
    ensures ScriptDefined(u, ReadScript(row, col, dst, n, READ)) && v == Script(u, ReadScript(row, col, dst, n, READ))
    ensures v.chip.image == u.chip.image && v.guest == Delivered(t, dst, page[col..col + n])
  {
    v := ReadBack(u, row, col, dst, n);
    PutSlice(t.chip.image, row * t.chip.fmt, page, col, n);
    DeliveredSame(t, u, dst, page[col..col + n]);
  }

  lemma {:induction false} PutSlice(mem: seq<byte>, base: nat, page: seq<byte>, col: nat, n: nat)
    requires base + |page| <= |mem| && col + n <= |page|
    ensures Put(mem, base, page)[base + col..base + col + n] == page[col..col + n]
  {
  }
}
