/** What every run of pin events keeps, and what the read and erase sequences do. */
module NandRuns {
  import opened Bits
  import opened NandChip

  // ----- The history of latched bytes -----

  datatype Latch = Command(b: byte) | Address(b: byte) | Data(b: byte) | Restart

  /** What an event latches, if anything. */
  function Latched(c: Chip, e: Event): seq<Latch> {
    if e == DoReset || e == DoPowerOn then [Restart]
    else if !Latches(c, e) then []
    else match c.iostatus
         case IoCmd => [Command(c.iopin)]
         case IoAddr => [Address(c.iopin)]
         case IoDataWrite => [Data(c.iopin)]
         case _ => []
  }

  function History(c: Chip, es: seq<Event>): seq<Latch>
    requires RunDefined(c, es)
    decreases |es|
  {
    if es == [] then [] else Latched(c, es[0]) + History(Step(c, es[0]), es[1..])
  }

  /** The operation a history has opened, and how many address bytes followed the opening command. */
  datatype Phase = Closed | Open(cmd: byte, addrs: nat) {
    /** Enough address bytes for a confirm command to take effect. */
    predicate Complete() {
      Open? && ((cmd == SEQIN && addrs >= 5) || (cmd == RANDIN && addrs >= 2) || (cmd == ERASE1 && addrs >= 3))
    }
    predicate ReadyToProgram() { Complete() && cmd != ERASE1 }
    predicate ReadyToErase() { Complete() && cmd == ERASE1 }
  }

  function After(p: Phase, l: Latch): Phase {
    match l
    case Command(b) =>
      if b == SEQIN || b == RANDIN || b == ERASE1 then Open(b, 0)
      else if b == READ0B || (b == PAGEPROG && !p.ReadyToProgram()) then p
      else Closed
    case Address(b) => if p.Open? then Open(p.cmd, p.addrs + 1) else p
    case Data(b) => p
    case Restart => Closed
  }

  function PhaseOf(h: seq<Latch>, p: Phase := Closed): Phase
    decreases |h|
  {
    if h == [] then p else PhaseOf(h[1..], After(p, h[0]))
  }

  /** The address-phase register after n address bytes of an opened operation. */
  function AddressPhase(cmd: byte, n: nat): CmdStatus {
    var k := if cmd == ERASE1 then n + 2 else if cmd == RANDIN && n >= 2 then 5 else n;
    if k == 0 then Addr1 else if k == 1 then Addr2 else if k == 2 then Addr3
    else if k == 3 then Addr4 else if k == 4 then Addr5 else AddrFinish
  }

  /** The command and address-phase registers hold exactly the phase of the history. */
  predicate Tracks(c: Chip, p: Phase) {
    match p
    case Closed => c.cmd != SEQIN && c.cmd != RANDIN && c.cmd != ERASE1
    case Open(cmd, n) =>
      && c.cmd == cmd && c.cmdstatus == AddressPhase(cmd, n)
      && (cmd == SEQIN || cmd == RANDIN || cmd == ERASE1)
  }

  lemma {:induction false} TracksCommand(c: Chip, p: Phase)
    requires CmdDefined(c) && Tracks(c, p)
    ensures Tracks(DoCmd(c), After(p, Command(c.iopin)))
  {
  }

  lemma {:induction false} TracksAddress(c: Chip, p: Phase)
    requires Tracks(c, p)
    ensures Tracks(DoAddr(c), After(p, Address(c.iopin)))
  {
  }

  lemma {:induction false} TracksStep(c: Chip, e: Event, p: Phase)
    requires Defined(c, e) && Tracks(c, p)
    ensures Tracks(Step(c, e), PhaseOf(Latched(c, e), p))
  {
    var l := Latched(c, e);
    if l == [] {
      assert Step(c, e).cmd == c.cmd;
    } else {
      assert l[1..] == [];
      assert PhaseOf(l, p) == After(p, l[0]);
      if e == SetWE(HIGH) {
        match c.iostatus
        case IoCmd => TracksCommand(c, p);
        case IoAddr => TracksAddress(c, p);
        case _ =>
      }
    }
  }

  lemma {:induction false} PhaseOfConcat(g: seq<Latch>, h: seq<Latch>, p: Phase)
    ensures PhaseOf(g + h, p) == PhaseOf(h, PhaseOf(g, p))
    decreases |g|
  {
    if g == [] {
      assert g + h == h;
    } else {
      assert (g + h)[1..] == g[1..] + h;
      PhaseOfConcat(g[1..], h, After(p, g[0]));
    }
  }

  lemma {:induction false} TracksRun(c: Chip, es: seq<Event>, p: Phase)
    requires RunDefined(c, es) && Tracks(c, p)
    ensures Tracks(Run(c, es), PhaseOf(History(c, es), p))
    decreases |es|
  {
    if es != [] {
      TracksStep(c, es[0], p);
      PhaseOfConcat(Latched(c, es[0]), History(Step(c, es[0]), es[1..]), p);
      TracksRun(Step(c, es[0]), es[1..], PhaseOf(Latched(c, es[0]), p));
    }
  }

  // ----- The open operation, by positions in the history -----

  predicate Opening(cmd: byte) { cmd == SEQIN || cmd == RANDIN || cmd == ERASE1 }

  /** Address bytes an operation wants before its confirm command takes effect. */
  function Wanted(cmd: byte): nat { if cmd == SEQIN then 5 else if cmd == RANDIN then 2 else 3 }

  function Addresses(h: seq<Latch>): nat {
    if h == [] then 0 else Addresses(h[..|h| - 1]) + if h[|h| - 1].Address? then 1 else 0
  }

  /** What leaves an operation with n addresses open: addresses, data, 0x30, and a 0x10 that it does not take. */
  predicate KeepsOpen(l: Latch, cmd: byte, n: nat) {
    match l
    case Command(b) => b == READ0B || (b == PAGEPROG && (cmd == ERASE1 || n < Wanted(cmd)))
    case Restart => false
    case _ => true
  }

  /** Position m of the history leaves the operation opened at position k open. */
  predicate KeptAt(h: seq<Latch>, k: nat, cmd: byte, m: nat)
    requires k < m < |h|
  {
    KeepsOpen(h[m], cmd, Addresses(h[k + 1..m]))
  }

  /** Position k of the history opened cmd, and everything after it leaves it open. */
  predicate OpenSince(h: seq<Latch>, k: int, cmd: byte) {
    && 0 <= k < |h| && h[k] == Command(cmd) && Opening(cmd)
    && forall m :: k < m < |h| ==> KeptAt(h, k, cmd, m)
  }

  lemma {:induction false} OpenSinceSnoc(g: seq<Latch>, l: Latch, k: int, cmd: byte)
    requires 0 <= k < |g|
    ensures OpenSince(g + [l], k, cmd) <==> OpenSince(g, k, cmd) && KeepsOpen(l, cmd, Addresses(g[k + 1..]))
    ensures Addresses((g + [l])[k + 1..]) == Addresses(g[k + 1..]) + if l.Address? then 1 else 0
  {
    var h := g + [l];
    assert h[k + 1..] == g[k + 1..] + [l];
    assert (g[k + 1..] + [l])[..|g| - k - 1] == g[k + 1..];
    forall m | k < m < |g| ensures KeptAt(h, k, cmd, m) == KeptAt(g, k, cmd, m) {
      assert h[k + 1..m] == g[k + 1..m];
    }
    assert h[k + 1..|g|] == g[k + 1..];
    assert KeptAt(h, k, cmd, |g|) == KeepsOpen(l, cmd, Addresses(g[k + 1..]));
  }

  lemma {:induction false} PhaseSnoc(g: seq<Latch>, l: Latch)
    ensures PhaseOf(g + [l]) == After(PhaseOf(g), l)
  {
    PhaseOfConcat(g, [l], Closed);
    assert [l][1..] == [];
  }

  /** The phase reached is the operation opened by the last opening command that nothing closed since. */
  lemma {:induction false} PhaseByPositions(h: seq<Latch>, cmd: byte, n: nat)
    ensures PhaseOf(h) == Open(cmd, n) <==> exists k :: OpenSince(h, k, cmd) && Addresses(h[k + 1..]) == n
    decreases |h|
  {
    if h != [] {
      var g, l := h[..|h| - 1], h[|h| - 1];
      assert h == g + [l];
      PhaseSnoc(g, l);
      if PhaseOf(h) == Open(cmd, n) {
        var k := FindOpening(g, l, cmd, n);
      }
      forall k | OpenSince(h, k, cmd) && Addresses(h[k + 1..]) == n ensures PhaseOf(h) == Open(cmd, n) {
        if k < |g| {
          OpenSinceSnoc(g, l, k, cmd);
          PhaseByPositions(g, cmd, Addresses(g[k + 1..]));
        }
      }
    }
  }

  lemma {:induction false} FindOpening(g: seq<Latch>, l: Latch, cmd: byte, n: nat) returns (k: int)
    requires PhaseOf(g + [l]) == Open(cmd, n)
    ensures OpenSince(g + [l], k, cmd) && Addresses((g + [l])[k + 1..]) == n
    decreases |g|, 0
  {
    PhaseSnoc(g, l);
    if l == Command(cmd) && Opening(cmd) {
      k := |g|;
    } else {
      var n' := if l.Address? then n - 1 else n;
      assert PhaseOf(g) == Open(cmd, n');
      var m := |g| - 1;
      assert g == g[..m] + [g[m]];
      k := FindOpening(g[..m], g[m], cmd, n');
      OpenSinceSnoc(g, l, k, cmd);
    }
  }

  /** A confirm command would take effect: an opening command is followed by enough addresses and by nothing that
      closes it. */
  ghost predicate ProgramOpen(h: seq<Latch>) {
    exists k, cmd :: OpenSince(h, k, cmd) && cmd != ERASE1 && Addresses(h[k + 1..]) >= Wanted(cmd)
  }

  ghost predicate EraseOpen(h: seq<Latch>) {
    exists k :: OpenSince(h, k, ERASE1) && Addresses(h[k + 1..]) >= Wanted(ERASE1)
  }

  lemma {:induction false} OpenIsReady(h: seq<Latch>)
    ensures ProgramOpen(h) <==> PhaseOf(h).ReadyToProgram()
    ensures EraseOpen(h) <==> PhaseOf(h).ReadyToErase()
  {
    var p := PhaseOf(h);
    if p.Open? { PhaseByPositions(h, p.cmd, p.addrs); }
    forall k, cmd | OpenSince(h, k, cmd) ensures p == Open(cmd, Addresses(h[k + 1..])) {
      PhaseByPositions(h, cmd, Addresses(h[k + 1..]));
    }
  }

  // ----- Changes of the image -----

  /** What one event does to the image, told by the history of latches alone. */
  ghost function ImageAfter(s: Chip, l: seq<Latch>, h: seq<Latch>): seq<byte> {
    Confirmed(s, l, ProgramOpen(h), EraseOpen(h))
  }

  function Confirmed(s: Chip, l: seq<Latch>, program: bool, erase: bool): seq<byte> {
    if s.wp == HIGH && l == [Command(PAGEPROG)] && program then AndAt(s.image, s.ProgramBase(), s.buffer)
    else if s.wp == HIGH && l == [Command(ERASE2)] && erase then Fill(s.image, s.EraseBase(), ERASE)
    else s.image
  }

  lemma {:induction false} ImageStep(s: Chip, e: Event, p: Phase)
    requires Defined(s, e) && Tracks(s, p)
    ensures Step(s, e).image == Confirmed(s, Latched(s, e), p.ReadyToProgram(), p.ReadyToErase())
  {
    assert p.ReadyToProgram() == ProgramConfirmed(s);
    assert p.ReadyToErase() == EraseConfirmed(s);
    if Latches(s, e) && s.iostatus == IoCmd {
      assert Latched(s, e) == [Command(s.iopin)];
      assert Step(s, e).image == DoCmd(s).image;
    } else {
      assert Step(s, e).image == s.image;
    }
  }

  /** In every run from power-on, the image changes exactly at a confirm command that closes a
      completed program or erase phase, and only while WP is high. */
  lemma {:induction false} ImageChangesOnlyOnConfirm(c: Chip, es: seq<Event>, e: Event)
    requires RunDefined(PowerOn(c), es) && Defined(Run(PowerOn(c), es), e)
    ensures var s := Run(PowerOn(c), es);
            Step(s, e).image == ImageAfter(s, Latched(s, e), History(PowerOn(c), es))
  {
    TracksRun(PowerOn(c), es, Closed);
    OpenIsReady(History(PowerOn(c), es));
    ImageStep(Run(PowerOn(c), es), e, PhaseOf(History(PowerOn(c), es)));
  }

  // ----- Without an erase, bits are only ever cleared -----

  ghost predicate Erodes(a: seq<byte>, b: seq<byte>) {
    |a| == |b| && forall i :: 0 <= i < |a| ==> BitsWithin(b[i], a[i])
  }

  /** The event latches 0xd0 with an erase set up and WP high. */
  predicate Erases(c: Chip, e: Event) {
    Latches(c, e) && c.iostatus == IoCmd && c.iopin == ERASE2 && EraseConfirmed(c) && c.wp == HIGH
  }

  predicate NeverErases(c: Chip, es: seq<Event>)
    requires RunDefined(c, es)
    decreases |es|
  {
    es != [] ==> !Erases(c, es[0]) && NeverErases(Step(c, es[0]), es[1..])
  }

  lemma {:induction false} ErodesStep(c: Chip, e: Event)
    requires Defined(c, e) && !Erases(c, e)
    ensures Erodes(c.image, Step(c, e).image)
  {
    forall i | 0 <= i < |c.image|
      ensures BitsWithin(AndAt(c.image, c.ProgramBase(), c.buffer)[i], c.image[i])
    {
      if c.ProgramBase() <= i < c.ProgramBase() + |c.buffer| {
        AndWithin(c.image[i], c.buffer[i - c.ProgramBase()]);
      }
    }
  }

  lemma {:induction false} RunErodes(c: Chip, es: seq<Event>)
    requires RunDefined(c, es) && NeverErases(c, es)
    ensures Erodes(c.image, Run(c, es).image)
    decreases |es|
  {
    if es != [] {
      var d := Step(c, es[0]);
      ErodesStep(c, es[0]);
      RunErodes(d, es[1..]);
      forall i | 0 <= i < |c.image| ensures BitsWithin(Run(c, es).image[i], c.image[i]) {
        assert BitsWithin(Run(d, es[1..]).image[i], d.image[i]) && BitsWithin(d.image[i], c.image[i]);
      }
    }
  }

  // ----- Write protection -----

  /** The event can lift write protection. */
  predicate Unprotects(c: Chip, e: Event) {
    || e in {SetWP(HIGH), DoReset, DoPowerOn}
    || Latched(c, e) == [Command(RESET)]
  }

  predicate StaysProtected(c: Chip, es: seq<Event>)
    requires RunDefined(c, es)
    decreases |es|
  {
    es != [] ==> !Unprotects(c, es[0]) && StaysProtected(Step(c, es[0]), es[1..])
  }

  lemma {:induction false} ProtectedImageConstant(c: Chip, es: seq<Event>)
    requires RunDefined(c, es) && c.wp == LOW && StaysProtected(c, es)
    ensures Run(c, es).image == c.image && Run(c, es).wp == LOW
    decreases |es|
  {
    if es != [] { ProtectedImageConstant(Step(c, es[0]), es[1..]); }
  }

  // ----- Bus cycles as single steps -----

  lemma {:induction false} Run1(c: Chip, a: Event)
    requires Defined(c, a)
    ensures RunDefined(c, [a]) && Run(c, [a]) == Step(c, a)
  {
    assert [a][1..] == [];
  }

  lemma {:induction false} Run3(c: Chip, a: Event, b: Event, d: Event)
    requires Defined(c, a) && Defined(Step(c, a), b) && Defined(Step(Step(c, a), b), d)
    ensures RunDefined(c, [a, b, d]) && Run(c, [a, b, d]) == Step(Step(Step(c, a), b), d)
  {
    assert [a, b, d][1..] == [b, d] && [b, d][1..] == [d];
    Run1(Step(Step(c, a), b), d);
    assert RunDefined(Step(c, a), [b, d]) && Run(Step(c, a), [b, d]) == Run(Step(Step(c, a), b), [d]);
  }

  lemma {:induction false} Run5(c: Chip, es: seq<Event>)
    requires |es| == 5
    requires Defined(c, es[0]) && Defined(Step(c, es[0]), es[1])
    requires RunDefined(Step(Step(c, es[0]), es[1]), [es[2], es[3], es[4]])
    ensures RunDefined(c, es)
    ensures Run(c, es) == Run(Step(Step(c, es[0]), es[1]), [es[2], es[3], es[4]])
  {
    assert es[1..][1..] == [es[2], es[3], es[4]];
  }

  /** The chip at the moment a byte is latched. */
  function AtCommand(c: Chip, b: byte): Chip { c.(iostatus := IoCmd, cle := HIGH, we := LOW, iopin := b) }
  function AtAddress(c: Chip, b: byte): Chip { c.(iostatus := IoAddr, ale := HIGH, we := LOW, iopin := b) }
  function AtData(c: Chip, b: byte): Chip { c.(we := LOW, iopin := b) }

  /** The chip after a whole command, address or data cycle. */
  function SendCmd(c: Chip, b: byte): Chip { DoCmd(AtCommand(c, b)).(we := HIGH, cle := LOW) }
  function SendAddr(c: Chip, b: byte): Chip { DoAddr(AtAddress(c, b)).(we := HIGH, ale := LOW) }
  function SendData(c: Chip, b: byte): Chip
    requires DataDefined(c)
  {
    (if c.iostatus == IoDataWrite then DoDataWrite(AtData(c, b)) else AtData(c, b)).(we := HIGH)
  }

  lemma {:induction false} CommandCycle(c: Chip, b: byte)
    requires c.ce == LOW && CmdDefined(AtCommand(c, b))
    ensures RunDefined(c, CmdCycle(b)) && Run(c, CmdCycle(b)) == SendCmd(c, b)
  {
    var d := Step(Step(c, SetCLE(HIGH)), SetWE(LOW));
    assert Step(d, WriteIO(b)) == AtCommand(c, b);
    Run3(d, WriteIO(b), SetWE(HIGH), SetCLE(LOW));
    Run5(c, CmdCycle(b));
  }

  lemma {:induction false} AddressCycle(c: Chip, b: byte)
    requires c.ce == LOW
    ensures RunDefined(c, AddrCycle(b)) && Run(c, AddrCycle(b)) == SendAddr(c, b)
  {
    var d := Step(Step(c, SetALE(HIGH)), SetWE(LOW));
    assert Step(d, WriteIO(b)) == AtAddress(c, b);
    Run3(d, WriteIO(b), SetWE(HIGH), SetALE(LOW));
    Run5(c, AddrCycle(b));
  }

  lemma {:induction false} WriteCycle(c: Chip, b: byte)
    requires c.ce == LOW && c.iostatus != IoCmd && c.iostatus != IoAddr && DataDefined(c)
    ensures RunDefined(c, DataCycle(b)) && Run(c, DataCycle(b)) == SendData(c, b)
  {
    Run3(c, SetWE(LOW), WriteIO(b), SetWE(HIGH));
  }

  lemma {:induction false} RunConcat(c: Chip, es: seq<Event>, fs: seq<Event>)
    ensures RunDefined(c, es + fs) <==> RunDefined(c, es) && RunDefined(Run(c, es), fs)
    ensures RunDefined(c, es + fs) ==> Run(c, es + fs) == Run(Run(c, es), fs)
    decreases |es|
  {
    if es == [] {
      assert es + fs == fs;
    } else {
      assert (es + fs)[1..] == es[1..] + fs;
      if Defined(c, es[0]) { RunConcat(Step(c, es[0]), es[1..], fs); }
    }
  }

  // ----- Reading -----

  predicate ReadsDefined(c: Chip, n: nat)
    decreases n, 0
  {
    n > 0 ==> ReadsDefined(c, n - 1) && Defined(AfterReads(c, n - 1), SetRE(LOW))
  }

  /** The chip after n reads, each pulling RE low and releasing it. */
  function AfterReads(c: Chip, n: nat): Chip
    requires ReadsDefined(c, n)
    decreases n, 1
  {
    if n == 0 then c else ReadOnce(AfterReads(c, n - 1))
  }

  /** The bytes those reads return. */
  function BytesRead(c: Chip, n: nat): (r: seq<byte>)
    requires ReadsDefined(c, n)
    ensures |r| == n
  {
    if n == 0 then [] else BytesRead(c, n - 1) + [ByteRead(AfterReads(c, n - 1))]
  }

  lemma {:induction false} FewerReadsDefined(c: Chip, i: nat, n: nat)
    requires i <= n && ReadsDefined(c, n)
    ensures ReadsDefined(c, i)
    decreases n
  {
    if i < n { FewerReadsDefined(c, i, n - 1); }
  }

  // ----- Addresses -----

  function RowOf(a: byte, b: byte, d: byte): nat { a + 256 * b + 0x1_0000 * d }

  /** What the fifth address byte starts, by the opening command. */
  function RowDone(c: Chip): Chip {
    if c.cmd == SEQIN then c.(iostatus := IoDataWrite, cmdstatus := AddrFinish)
    else if c.cmd == READID then c.(iostatus := IoIdRead, cmdstatus := ReadId1)
    else if c.cmd == ERASE1 then c.(iostatus := IoCmd, cmdstatus := AddrFinish)
    else c.(iostatus := IoAddr, cmdstatus := Addr5)
  }

  /** Three row bytes are assembled little-endian into the page number. */
  lemma {:induction false} RowCycles(c: Chip, a: byte, b: byte, d: byte)
    requires c.cmdstatus == Addr3
    ensures RowOf(a, b, d) < WRAP
    ensures SendAddr(SendAddr(SendAddr(c, a), b), d)
         == RowDone(c.(pagenum := RowOf(a, b, d), iopin := d, we := HIGH, ale := LOW))
  {
    OrFields(a, b);
    OrHighField(a + 256 * b, d);
    var c1 := SendAddr(c, a);
    assert c1 == c.(iostatus := IoAddr, we := HIGH, ale := LOW, iopin := a, pagenum := a, cmdstatus := Addr4);
    var c2 := SendAddr(c1, b);
    SmallMod(a + 256 * b);
    assert c2 == c1.(iopin := b, pagenum := a + 256 * b, cmdstatus := Addr5);
    SmallMod(RowOf(a, b, d));
  }

  lemma {:induction false} SmallMod(x: nat)
    requires x < WRAP
    ensures x % WRAP == x
  {
  }

  /** The chip once both column bytes are in: 0x85 is ready for data, other commands want a row. */
  function AtColumn(c: Chip, col: half): Chip { ColumnDone(c, col, col / 256) }

  function ColumnDone(c: Chip, col: half, hi: byte): Chip {
    var e := c.(we := HIGH, ale := LOW, iopin := hi, pageoffset := col);
    if c.cmd == RANDIN then e.(iostatus := IoDataWrite, cmdstatus := AddrFinish)
    else e.(iostatus := IoAddr, cmdstatus := Addr3)
  }

  /** Two column bytes are assembled into the page offset. */
  lemma {:induction false} ColumnCycles(c: Chip, col: half)
    requires c.cmdstatus == Addr1
    ensures SendAddr(SendAddr(c, col % 256), col / 256) == AtColumn(c, col)
  {
    ColumnBytes(c, col % 256, col / 256, col);
  }

  lemma {:induction false} ColumnBytes(c: Chip, lo: byte, hi: byte, col: half)
    requires c.cmdstatus == Addr1 && col == lo + 256 * hi
    ensures SendAddr(SendAddr(c, lo), hi) == ColumnDone(c, col, hi)
  {
    OrFields(lo, hi);
    var d := c.(iostatus := IoAddr, we := HIGH, ale := LOW, iopin := lo, pageoffset := lo, cmdstatus := Addr2);
    assert SendAddr(c, lo) == d;
    SecondByte(d, hi, col);
  }

  lemma {:induction false} SecondByte(c: Chip, hi: byte, col: half)
    requires c.cmdstatus == Addr2 && Or(c.pageoffset, hi * 256) == col
    ensures SendAddr(c, hi) == ColumnDone(c, col, hi)
  {
  }

  lemma {:induction false} RowDigits(row: nat)
    requires row < 0x100_0000
    ensures RowOf(row % 256, row / 256 % 256, row / 0x1_0000 % 256) == row
  {
    var x := row / 256;
    var y := x / 256;
    assert row == 256 * x + row % 256 && x == 256 * y + x % 256;
    assert row == 0x1_0000 * y + (256 * (x % 256) + row % 256);
    assert row / 0x1_0000 == y && y < 256;
  }
}
