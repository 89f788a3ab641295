/** The registers of the Starlet controller over whole scripts, and the orders that are not page transfers: ignored
    words, block erase, status. */
module StarletRegisters {
  import opened Arith
  import opened Bits
  import opened NandChip
  import opened NandRuns
  import opened NandOperations
  import opened StarletNand
  import opened StarletPrograms
  import StarletBytes

  // ----- What the registers hold -----

  predicate Kept(reg: nat) { reg in {NFCONF, NFADDR0, NFADDR1, NF_DATA, NF_ECC} }

  /** The value last written to a register by a script. */
  function LastWritten(script: seq<(nat, word)>, reg: nat, initial: word): word
    decreases |script|
  {
    if script == [] then initial
    else LastWritten(script[1..], reg, if script[0].0 == reg then script[0].1 else initial)
  }

  lemma {:induction false} OrderKeepsRegisters(t: Ctrl, o: Order)
    requires OrderDefined(t, o)
    ensures var u := DoOrder(t, o);
            && u.nfconf == t.nfconf && u.addr0 == t.addr0 && u.addr1 == t.addr1
            && u.data == t.data && u.ecc == t.ecc && u.address == t.address
  {
  }

  /** After every script a register reads as the value last written to it, orders in between included, and the status
      register always reads ready. */
  lemma {:induction false} ReadsLastWritten(t: Ctrl, script: seq<(nat, word)>, reg: nat)
    requires ScriptDefined(t, script) && Kept(reg)
    ensures ReadReg(Script(t, script), reg) == LastWritten(script, reg, ReadReg(t, reg))
    ensures ReadReg(Script(t, script), NFSTAT) == 1
    decreases |script|
  {
    if script != [] {
      var w := script[0];
      if w.0 == NFCMD && !Ignored(w.1) { OrderKeepsRegisters(t, DecodeOrder(w.1)); }
      ReadsLastWritten(WriteReg(t, w.0, w.1), script[1..], reg);
    }
  }

  /** The address bytes are the two low bytes of one register and the four of the other, low byte first. */
  predicate Latched(t: Ctrl) {
    && |t.address| == 6
    && var a0: nat, a1: nat, a2: nat := t.address[0], t.address[1], t.address[2];
       var a3: nat, a4: nat, a5: nat := t.address[3], t.address[4], t.address[5];
       && a0 + 0x100 * a1 == t.addr0 % 0x1_0000
       && a2 + 0x100 * a3 + 0x1_0000 * a4 + 0x100_0000 * a5 == t.addr1
  }

  lemma {:induction false} AddressesStayLatched(t: Ctrl, script: seq<(nat, word)>)
    requires ScriptDefined(t, script) && Latched(t)
    ensures Latched(Script(t, script))
    decreases |script|
  {
    if script != [] {
      var w := script[0];
      var u := WriteReg(t, w.0, w.1);
      if w.0 == NFCMD {
        if !Ignored(w.1) { OrderKeepsRegisters(t, DecodeOrder(w.1)); }
      } else if w.0 == NFADDR0 || w.0 == NFADDR1 {
        Digits(w.1);
      }
      AddressesStayLatched(u, script[1..]);
    }
  }

  lemma {:induction false} Digits(x: word)
    ensures x % 0x100 + 0x100 * (x / 0x100 % 0x100) == x % 0x1_0000
    ensures x == x % 0x100 + 0x100 * (x / 0x100 % 0x100) + 0x1_0000 * (x / 0x1_0000 % 0x100)
              + 0x100_0000 * (x / 0x100_0000 % 0x100)
  {
    var y := x / 0x100;
    var z := y / 0x100;
    assert x / 0x1_0000 == z && x / 0x100_0000 == z / 0x100 && z / 0x100 < 0x100;
    assert x == 0x100 * y + x % 0x100 && y == 0x100 * z + y % 0x100 && z == 0x100 * (z / 0x100) + z % 0x100;
    assert x == 0x1_0000 * z + (x % 0x100 + 0x100 * (y % 0x100));
  }

  /** The section codes go 0x40 above the code register where its bit 6 is clear, and 0x40 below it where it is set. */
  lemma {:induction false} CodesAddress(t: Ctrl)
    ensures EccAddress(t) == if BitOf(t.ecc, 6) then t.ecc - 0x40 else t.ecc + 0x40
  {
    FlipBit(t.ecc, 6);
  }

  lemma {:induction false} XorEven(x: nat, y: nat)
    ensures Xor(x, 2 * y) == 2 * Xor(x / 2, y) + x % 2
  {
  }

  lemma {:induction false} FlipBit(x: nat, k: nat)
    ensures Xor(x, Pow2(k)) == if BitOf(x, k) then x - Pow2(k) else x + Pow2(k)
    decreases k
  {
    if k > 0 {
      XorEven(x, Pow2(k - 1));
      FlipBit(x / 2, k - 1);
    }
  }

  // ----- Ignored words -----

  /** Two command words do nothing; the three top bits of the others do not matter. */
  lemma {:induction false} IgnoredWords(t: Ctrl, script: seq<(nat, word)>)
    requires forall w :: w in script ==> w == (NFCMD, 0) || w == (NFCMD, 0x7fff_ffff)
    requires |t.address| == 6
    ensures ScriptDefined(t, script) && Script(t, script) == t
    decreases |script|
  {
    if script != [] {
      assert script[0] in script;
      assert forall w :: w in script[1..] ==> w in script;
      IgnoredWords(t, script[1..]);
    }
  }

  lemma {:induction false} TopBitsIgnored(top: nat, mask: nat, command: byte, flags: nat, size: nat)
    requires top < 8 && mask < 32 && flags < 16 && size < BUFFER
    ensures var w := top * 0x2000_0000 + mask * 0x100_0000 + command * 0x1_0000 + flags * 0x1000 + size;
            DecodeOrder(w) == DecodeOrder(OrderWord(mask, command, flags, size))
  {
    OrderWordDecodes(mask, command, flags, size);
    var mid: nat := command;
    var q := top * 32 + mask;
    var r := q * 256 + mid;
    var w := (r * 16 + flags) * 0x1000 + size;
    DivUnique(0x1000, r * 16 + flags, size, w);
    DivUnique(0x1_0000, r, flags * 0x1000 + size, w);
    DivUnique(0x100_0000, q, mid * 0x1_0000 + flags * 0x1000 + size, w);
    DivUnique(16, r, flags, r * 16 + flags);
    DivUnique(256, q, mid, r);
    DivUnique(32, top, mask, q);
  }

  // ----- Erasing a block -----

  /** Row register, 0x60 with the three row bytes, 0xd0. */
  function EraseScript(row: nat): seq<(nat, word)>
    requires row < 0x100_0000
  {
    [(NFADDR1, row)] + [(NFCMD, OrderWord(28, ERASE1, 0, 0))] + [(NFCMD, OrderWord(0, ERASE2, 0, 0))]
  }

  lemma {:induction false} RowMask()
    ensures !BitOf(28, 0) && !BitOf(28, 1) && BitOf(28, 2) && BitOf(28, 3) && BitOf(28, 4) && !BitOf(28, 5)
  {
    assert BitOf(28, 2) == BitOf(7, 0) && BitOf(28, 3) == BitOf(7, 1) && BitOf(28, 4) == BitOf(7, 2);
    assert BitOf(28, 5) == BitOf(7, 3) == BitOf(0, 0);
  }

  lemma {:induction false} RowAddresses(c: Chip, a: seq<byte>)
    requires |a| == 6
    ensures SendMasked(c, a, 28, 0) == SendAddr(SendAddr(SendAddr(c, a[2]), a[3]), a[4])
  {
    RowMask();
    var c1 := SendAddr(c, a[2]);
    var c2 := SendAddr(c1, a[3]);
    var c3 := SendAddr(c2, a[4]);
    assert SendMasked(c, a, 28, 0) == SendMasked(c, a, 28, 1) == SendMasked(c, a, 28, 2)
        == SendMasked(c1, a, 28, 3) == SendMasked(c2, a, 28, 4) == SendMasked(c3, a, 28, 5) == SendMasked(c3, a, 28, 6);
  }

  /** An order without data is its bus cycles. */
  lemma {:induction false} BareOrder(t: Ctrl, o: Order) returns (v: Ctrl)
    requires t.Valid() && t.chip.ce == LOW && o.size == 0 && CmdDefined(AtCommand(t.chip, o.command))
    ensures OrderDefined(t, o) && v == DoOrder(t, o)
    ensures v == t.(chip := SendMasked(SendCmd(t.chip, o.command), t.address, o.bitmask, 0))
  {
    IssueCycles(t, o);
    v := DoOrder(t, o);
  }

  lemma {:induction false} EraseOrders(t: Ctrl, row: nat, base: nat, first: Order, second: Order)
    returns (u: Ctrl, v: Ctrl)
    requires Ready(t) && row < 0x100_0000 && t.address[2..5] == [row % 256, row / 256 % 256, row / 0x1_0000 % 256]
    requires base == row / BLOCK * BLOCK * t.chip.fmt && base + ERASE <= |t.chip.image| && base < WRAP
    requires first.command == ERASE1 && first.bitmask == 28 && first.size == 0
    requires second.command == ERASE2 && second.bitmask == 0 && second.size == 0
    ensures OrderDefined(t, first) && u == DoOrder(t, first) && OrderDefined(u, second) && v == DoOrder(u, second)
    ensures v == t.(chip := v.chip) && v.chip.image == Fill(t.chip.image, base, ERASE)
    ensures Ready(v) && v.chip.fmt == t.chip.fmt && v.chip.device == t.chip.device
  {
    var a := t.address;
    assert a[2] == a[2..5][0] && a[3] == a[2..5][1] && a[4] == a[2..5][2];
    RowDigits(row);
    ErasedState(t.chip, a[2], a[3], a[4], base);
    u := BareOrder(t, first);
    RowAddresses(SendCmd(t.chip, ERASE1), a);
    v := BareOrder(u, second);
    NoAddresses(SendCmd(u.chip, ERASE2), a, 0);
  }

  lemma {:induction false} BareAfter(t0: Ctrl, s: seq<(nat, word)>, t: Ctrl, o: Order, v: Ctrl)
    requires ScriptDefined(t0, s) && Script(t0, s) == t && OrderDefined(t, o) && v == DoOrder(t, o)
    requires o == Order(o.bitmask, o.command, false, false, false, 0) && o.bitmask < 32
    ensures var all := s + [(NFCMD, OrderWord(o.bitmask, o.command, 0, 0))];
            ScriptDefined(t0, all) && Script(t0, all) == v
  {
    ScriptOrder(t0, s, t, o, 0, v);
  }

  lemma {:induction false} RowRegister(t: Ctrl, row: nat) returns (u: Ctrl)
    requires Ready(t) && row < 0x100_0000
    ensures ScriptDefined(t, [(NFADDR1, row)]) && u == Script(t, [(NFADDR1, row)])
    ensures Ready(u) && u.chip == t.chip && u.guest == t.guest && u.ecc == t.ecc
    ensures u.address[2..5] == [row % 256, row / 256 % 256, row / 0x1_0000 % 256]
  {
    Script1(t, (NFADDR1, row));
    u := WriteReg(t, NFADDR1, row);
  }

  /** The script fills the erase length from the base of the row's block with 0xff and changes no other byte. */
  lemma {:induction false} EraseByScript(t: Ctrl, row: nat, base: nat) returns (v: Ctrl)
    requires Ready(t) && row < 0x100_0000
    requires base == row / BLOCK * BLOCK * t.chip.fmt && base + ERASE <= |t.chip.image| && base < WRAP
    ensures ScriptDefined(t, EraseScript(row)) && v == Script(t, EraseScript(row))
    ensures Ready(v) && v.guest == t.guest && v.ecc == t.ecc
    ensures v.chip.fmt == t.chip.fmt && v.chip.device == t.chip.device && |v.chip.image| == |t.chip.image|
    ensures forall i :: 0 <= i < |t.chip.image| ==>
              v.chip.image[i] == if base <= i < base + 64 * 0x840 then 0xff else t.chip.image[i]
  {
    var s0 := [(NFADDR1, row)];
    var t0 := RowRegister(t, row);
    var first, second := Order(28, ERASE1, false, false, false, 0), Order(0, ERASE2, false, false, false, 0);
    var u: Ctrl;
    u, v := EraseOrders(t0, row, base, first, second);
    BareAfter(t, s0, t0, first, u);
    BareAfter(t, s0 + [(NFCMD, OrderWord(28, ERASE1, 0, 0))], u, second, v);
  }

  /** Erase, program a whole page of the block, whatever the block held before: the page holds the guest's data and
      spare bytes, and every other page of the block is blank. */
  lemma {:induction false} EraseThenProgram(t: Ctrl, row: nat, src: word) returns (v: Ctrl, w: Ctrl)
    requires Ready(t) && t.chip.fmt == 0x840 && PageInside(t.chip, row)
    requires src + 0x800 <= |t.guest| && t.ecc + 0x40 <= |t.guest|
    ensures ScriptDefined(t, EraseScript(row)) && v == Script(t, EraseScript(row))
    ensures var s := ProgramScript(row, Part(0, src, 0x840), []); ScriptDefined(v, s) && w == Script(v, s)
    ensures w.chip.fmt == t.chip.fmt && w.chip.device == t.chip.device && |w.chip.image| == |t.chip.image|
    ensures StarletBytes.Page(w.chip, row) == t.guest[src..src + 0x800] + t.guest[t.ecc..t.ecc + 0x40]
    ensures var lo, hi := row / 64 * 64 * 0x840, (row / 64 + 1) * 64 * 0x840;
            forall i :: 0 <= i < |t.chip.image| && !(row * 0x840 <= i < row * 0x840 + 0x840) ==>
              w.chip.image[i] == if lo <= i < hi then 0xff else t.chip.image[i]
  {
    var base := row / BLOCK * ERASE;
    BlockInside(row, t.chip.device);
    BlockSpan(row / BLOCK);
    v := EraseByScript(t, row, base);
    InBlock(row);
    BlankStretch(v.chip.image, base, base + ERASE, row * 0x840);
    w := StarletBytes.WholePage(v, row, src);
    OutsideSame(v.chip.image, w.chip.image, row * 0x840, row * 0x840 + PAGE);
  }

  lemma {:induction false} BlankStretch(image: seq<byte>, lo: nat, hi: nat, at: nat)
    requires lo <= at && at + PAGE <= hi <= |image| && forall i :: lo <= i < hi ==> image[i] == 0xff
    ensures image[at..at + PAGE] == seq(PAGE, _ => 0xff)
  {
  }

  lemma {:induction false} OutsideSame(image: seq<byte>, after: seq<byte>, lo: nat, hi: nat)
    requires lo <= hi <= |image| == |after| && after[..lo] == image[..lo] && after[hi..] == image[hi..]
    ensures forall i :: 0 <= i < |image| && !(lo <= i < hi) ==> after[i] == image[i]
  {
    forall i | 0 <= i < |image| && !(lo <= i < hi) ensures after[i] == image[i] {
      if i < lo { assert after[i] == after[..lo][i]; } else { assert after[i] == after[hi..][i - hi]; }
    }
  }

  lemma {:induction false} InBlock(row: nat)
    ensures row / BLOCK * ERASE <= row * 0x840 && row * 0x840 + 0x840 <= row / BLOCK * ERASE + ERASE
  {
  }

  // ----- Status -----

  /** An order that only reads, at most a data area: its bytes go to the data address. */
  lemma {:induction false} ReadOrder(t: Ctrl, o: Order, bytes: seq<byte>) returns (v: Ctrl)
    requires |t.address| == 6 && |t.buf| == BUFFER && RunDefined(t.chip, IssueEvents(t, o))
    requires o.read && !o.write && 0 < o.size <= 0x800 && t.data + o.size <= |t.guest| && o.bitmask < 32
    requires var c := Run(t.chip, IssueEvents(t, o)); ReadsDefined(c, o.size) && BytesRead(c, o.size) == bytes
    ensures OrderDefined(t, o) && v == DoOrder(t, o)
    ensures v.guest == t.guest[..t.data] + bytes + t.guest[t.data + |bytes|..]
  {
    v := DoOrder(t, o);
  }

  /** The bus cycles of a status order, and the byte they make readable. */
  lemma {:induction false} StatusCycles(t: Ctrl, o: Order)
    requires t.Valid() && t.chip.ce == LOW && t.chip.re == HIGH && o.command == 0x70 && o.bitmask == 0
    ensures RunDefined(t.chip, IssueEvents(t, o))
    ensures var c := Run(t.chip, IssueEvents(t, o)); ReadsDefined(c, 1) && BytesRead(c, 1) == [t.chip.status]
  {
    IssueCycles(t, o);
    NoAddresses(SendCmd(t.chip, 0x70), t.address, 0);
    CommandCycle(t.chip, 0x70);
    StatusReads(t.chip, 1);
    var c := Run(t.chip, IssueEvents(t, o));
    assert c == Run(t.chip, CmdCycle(0x70));
    assert |BytesRead(c, 1)| == 1 && BytesRead(c, 1)[0] == t.chip.status;
  }

  /** 0x70 with one byte to read: the guest gets 0xc0, or 0x40 while the chip is write protected. */
  lemma {:induction false} StatusToldToGuest(t: Ctrl) returns (v: Ctrl)
    requires t.Valid() && t.chip.ce == LOW && t.chip.re == HIGH && StatusIs(t.chip) && t.data < |t.guest|
    ensures var s := [(NFCMD, OrderWord(0, 0x70, READ, 1))]; ScriptDefined(t, s) && v == Script(t, s)
    ensures v.guest == t.guest[t.data := if t.chip.wp == LOW then 0x40 else 0xc0]
  {
    var o := Order(0, 0x70, true, false, false, 1);
    StatusCycles(t, o);
    v := ReadOrder(t, o, [t.chip.status]);
    assert Script(t, []) == t;
    ScriptOrder(t, [], t, o, READ, v);
    assert [] + [(NFCMD, OrderWord(0, 0x70, READ, 1))] == [(NFCMD, OrderWord(0, 0x70, READ, 1))];
  }
}
