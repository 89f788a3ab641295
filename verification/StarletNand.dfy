/** The Starlet NAND controller: one command word becomes command, address and data cycles on the
    chip, with copies from and to guest memory. */
module StarletNand {
  import opened Bits
  import opened NandChip
  import opened NandRuns
  import SectionCode

  const NFCMD := 0x0D01_0000
  const NFCONF := 0x0D01_0004
  const NFADDR0 := 0x0D01_0008
  const NFADDR1 := 0x0D01_000C
  const NF_DATA := 0x0D01_0010
  const NF_ECC := 0x0D01_0014
  const NFSTAT := NFCMD  // read where the command is written

  const BUFFER := 4096

  // ----- The command word -----

  /** Bits 24-28 choose address bytes, 16-23 are the chip command, 12-15 flags, 0-11 the data size. */
  datatype Order = Order(bitmask: nat, command: byte, read: bool, write: bool, ecc: bool, size: nat)

  function DecodeOrder(data: word): (o: Order)
    ensures o.size < BUFFER && o.bitmask < 32
  {
    var flags := data / 0x1000 % 16;
    Order(data / 0x100_0000 % 32, data / 0x1_0000 % 256,
          flags / 2 % 2 == 1, flags / 4 % 2 == 1, flags % 2 == 1, data % 0x1000)
  }

  predicate Ignored(data: word) { data == 0x7fff_ffff || data == 0 }

  // ----- State -----

  datatype Ctrl = Ctrl(nfconf: word, address: seq<byte>, addr0: word, addr1: word, data: word, ecc: word,
                       buf: seq<byte>, chip: Chip, guest: seq<byte>)
  {
    predicate Valid() { |address| == 6 && |buf| == BUFFER && chip.Valid() }
  }

  function EccBytes(section: seq<byte>): (r: seq<byte>)
    requires |section| == SectionCode.SECTION
    ensures |r| == 4
  {
    SectionCode.HalfBound(section, false);
    SectionCode.HalfBound(section, true);
    var a0, a1 := SectionCode.Half(section, false), SectionCode.Half(section, true);
    [a0 % 256, a0 / 256, a1 % 256, a1 / 256]
  }

  /** The codes of the first n 512-byte sections of the buffer, stored one after the other. */
  function PutEcc(mem: seq<byte>, at: nat, buf: seq<byte>, n: nat): (r: seq<byte>)
    requires n <= 4 && |buf| == BUFFER && at + 4 * n <= |mem|
    ensures |r| == |mem|
  {
    if n == 0 then mem
    else Put(PutEcc(mem, at, buf, n - 1), at + (n - 1) * 4, EccBytes(buf[(n - 1) * 512..n * 512]))
  }

  function EccAddress(t: Ctrl): nat { Xor(t.ecc, 0x40) }

  // ----- Chip cycles of one order -----

  function AddrEvents(address: seq<byte>, mask: nat, i: nat): seq<Event>
    requires |address| == 6 && i <= 6
    decreases 6 - i
  {
    if i == 6 then [] else (if BitOf(mask, i) then AddrCycle(address[i]) else []) + AddrEvents(address, mask, i + 1)
  }

  function DataEvents(buf: seq<byte>, i: nat, n: nat): seq<Event>
    requires i <= n <= |buf|
    decreases n - i
  {
    if i == n then [] else DataCycle(buf[i]) + DataEvents(buf, i + 1, n)
  }

  function IssueEvents(t: Ctrl, o: Order): seq<Event>
    requires |t.address| == 6
  {
    CmdCycle(o.command) + AddrEvents(t.address, o.bitmask, 0)
  }

  // ----- One order -----

  predicate SizeAccepted(n: nat) { n <= 0x800 || n == 0x840 }

  /** Data area and spare area of a transfer lie in guest memory. */
  predicate Reachable(t: Ctrl, n: nat) {
    if n <= 0x800 then t.data + n <= |t.guest|
    else t.data + 0x800 <= |t.guest| && t.ecc + 0x40 <= |t.guest|
  }

  predicate ReadPhaseDefined(t: Ctrl, o: Order) {
    && SizeAccepted(o.size) && Reachable(t, o.size) && ReadsDefined(t.chip, o.size)
    && (o.size == 0x840 && o.ecc ==> EccAddress(t) + 16 <= |t.guest|)
  }

  function ReadPhase(t: Ctrl, o: Order): (r: Ctrl)
    requires |t.buf| == BUFFER && o.size <= BUFFER && ReadPhaseDefined(t, o)
  {
    var bytes := BytesRead(t.chip, o.size);
    var buf := bytes + t.buf[o.size..];
    var guest :=
      if o.size <= 0x800 then Put(t.guest, t.data, bytes)
      else Put(Put(t.guest, t.data, bytes[..0x800]), t.ecc, bytes[0x800..]);
    t.(chip := AfterReads(t.chip, o.size), buf := buf,
       guest := if o.size == 0x840 && o.ecc then PutEcc(guest, EccAddress(t), buf, 4) else guest)
  }

  /** The bytes a write order takes from guest memory. */
  function Payload(t: Ctrl, n: nat): (r: seq<byte>)
    requires SizeAccepted(n) && Reachable(t, n)
    ensures |r| == n
  {
    if n <= 0x800 then t.guest[t.data..t.data + n]
    else t.guest[t.data..t.data + 0x800] + t.guest[t.ecc..t.ecc + 0x40]
  }

  predicate WritePhaseDefined(t: Ctrl, o: Order) {
    && |t.buf| == BUFFER && SizeAccepted(o.size) && Reachable(t, o.size)
    && (o.ecc ==> o.size == 0x800 && EccAddress(t) + 16 <= |t.guest|)
    && RunDefined(t.chip, DataEvents(Payload(t, o.size), 0, o.size))
  }

  function WritePhase(t: Ctrl, o: Order): Ctrl
    requires |t.buf| == BUFFER && WritePhaseDefined(t, o)
  {
    var bytes := Payload(t, o.size);
    var buf := bytes + t.buf[o.size..];
    t.(buf := buf,
       guest := if o.ecc then PutEcc(t.guest, EccAddress(t), buf, 4) else t.guest,
       chip := Run(t.chip, DataEvents(bytes, 0, o.size)))
  }

  predicate OrderDefined(t: Ctrl, o: Order) {
    && |t.address| == 6 && |t.buf| == BUFFER && o.size <= BUFFER
    && RunDefined(t.chip, IssueEvents(t, o))
    && var t1 := t.(chip := Run(t.chip, IssueEvents(t, o)));
       (o.size > 0 ==>
          && (o.read ==> ReadPhaseDefined(t1, o))
          && (o.write ==> WritePhaseDefined(if o.read then ReadPhase(t1, o) else t1, o)))
  }

  function DoOrder(t: Ctrl, o: Order): Ctrl
    requires OrderDefined(t, o)
  {
    var t1 := t.(chip := Run(t.chip, IssueEvents(t, o)));
    if o.size == 0 then t1
    else
      var t2 := if o.read then ReadPhase(t1, o) else t1;
      if o.write then WritePhase(t2, o) else t2
  }

  // ----- Register writes -----

  predicate WriteDefined(t: Ctrl, addr: nat, data: word) {
    && |t.address| == 6
    && (addr == NFCMD && !Ignored(data) ==> OrderDefined(t, DecodeOrder(data)))
  }

  function WriteReg(t: Ctrl, addr: nat, data: word): Ctrl
    requires WriteDefined(t, addr, data)
  {
    if addr == NFCONF then t.(nfconf := data)
    else if addr == NFCMD then if Ignored(data) then t else DoOrder(t, DecodeOrder(data))
    else if addr == NFADDR0 then
      t.(address := [data % 256, data / 256 % 256] + t.address[2..], addr0 := data)
    else if addr == NFADDR1 then
      t.(address := t.address[..2] + [data % 256, data / 256 % 256, data / 0x1_0000 % 256, data / 0x100_0000 % 256],
         addr1 := data)
    else if addr == NF_DATA then t.(data := data)
    else if addr == NF_ECC then t.(ecc := data)
    else t
  }

  /** What a register reads as; the command register reads as the status, always ready. */
  function ReadReg(t: Ctrl, addr: nat): word {
    if addr == NFCONF then t.nfconf
    else if addr == NFADDR0 then t.addr0
    else if addr == NFADDR1 then t.addr1
    else if addr == NF_DATA then t.data
    else if addr == NF_ECC then t.ecc
    else if addr == NFSTAT then 1
    else 0
  }

  predicate ScriptDefined(t: Ctrl, script: seq<(nat, word)>)
    decreases |script|
  {
    script == [] || (WriteDefined(t, script[0].0, script[0].1)
                     && ScriptDefined(WriteReg(t, script[0].0, script[0].1), script[1..]))
  }

  /** A sequence of register writes by the guest. */
  function Script(t: Ctrl, script: seq<(nat, word)>): Ctrl
    requires ScriptDefined(t, script)
    decreases |script|
  {
    if script == [] then t else Script(WriteReg(t, script[0].0, script[0].1), script[1..])
  }

  // ----- The device -----

  class StarletController {
    const chip: NandDevice
    const address: array<byte>
    const buf: array<byte>
    const guest: array<byte>  // guest memory, reached byte by byte
    var nfconf: word
    var addr0: word
    var addr1: word
    var data: word
    var ecc: word

    ghost predicate Valid()
      reads this, chip, chip.writebuffer, chip.addrspace, address, buf, guest
    {
      && chip.Valid()
      && address.Length == 6 && buf.Length == BUFFER
      && address != buf && address != guest && buf != guest
      && {address, buf, guest} !! {chip.writebuffer, chip.addrspace}
    }

    ghost function View(): Ctrl
      reads this, chip, chip.writebuffer, chip.addrspace, address, buf, guest
    {
      Ctrl(nfconf, address[..], addr0, addr1, data, ecc, buf[..], chip.View(), guest[..])
    }

    /** Setup: clear the registers and buffers and select the chip. */
    constructor (chip: NandDevice, guest: array<byte>)
      requires chip.Valid() && guest != chip.writebuffer && guest != chip.addrspace
      modifies chip, chip.writebuffer, chip.addrspace
      ensures Valid() && this.chip == chip && this.guest == guest && fresh(address) && fresh(buf)
      ensures chip.View() == Step(old(chip.View()), SetCE(LOW))
      ensures View() == Ctrl(0, seq(6, i => 0), 0, 0, 0, 0, seq(BUFFER, i => 0), chip.View(), guest[..])
    {
      this.chip := chip;
      this.guest := guest;
      address := new byte[6](i => 0);
      buf := new byte[BUFFER](i => 0);
      nfconf, addr0, addr1, data, ecc := 0, 0, 0, 0, 0;
      new;
      chip.Pin(SetCE(LOW));
      assert address[..] == seq(6, i => 0);
      assert buf[..] == seq(BUFFER, i => 0);
    }

    method HostToGuest(dst: nat, bytes: seq<byte>)
      requires Valid() && dst + |bytes| <= guest.Length
      modifies guest
      ensures Valid() && View() == old(View()).(guest := Put(old(guest[..]), dst, bytes))
    {
      for i := 0 to |bytes|
        invariant chip.Valid() && chip.View() == old(chip.View())
        invariant address[..] == old(address[..]) && buf[..] == old(buf[..])
        invariant guest[..] == Put(old(guest[..]), dst, bytes[..i])
      {
        guest[dst + i] := bytes[i];
        PutNext(old(guest[..]), dst, bytes, i);
      }
      assert bytes[..|bytes|] == bytes;
    }

    method GuestToHost(at: nat, src: nat, n: nat)
      requires Valid() && src + n <= guest.Length && at + n <= BUFFER
      modifies buf
      ensures Valid() && View() == old(View()).(buf := Put(old(buf[..]), at, guest[src..src + n]))
    {
      ghost var bytes := guest[src..src + n];
      for i := 0 to n
        invariant chip.Valid() && chip.View() == old(chip.View())
        invariant address[..] == old(address[..]) && guest[..] == old(guest[..])
        invariant buf[..] == Put(old(buf[..]), at, bytes[..i])
      {
        buf[at + i] := guest[src + i];
        PutNext(old(buf[..]), at, bytes, i);
      }
      assert bytes[..n] == bytes;
    }

    method SendAddresses(mask: nat)
      requires Valid() && RunDefined(chip.View(), AddrEvents(address[..], mask, 0))
      modifies chip, chip.writebuffer, chip.addrspace
      ensures Valid()
      ensures View() == old(View()).(chip := Run(old(chip.View()), AddrEvents(address[..], mask, 0)))
    {
      ghost var start, bytes := chip.View(), address[..];
      for i := 0 to 6
        invariant chip.Valid() && address[..] == bytes
        invariant buf[..] == old(buf[..]) && guest[..] == old(guest[..])
        invariant RunDefined(chip.View(), AddrEvents(bytes, mask, i))
        invariant Run(chip.View(), AddrEvents(bytes, mask, i)) == Run(start, AddrEvents(bytes, mask, 0))
      {
        if BitOf(mask, i) {
          RunConcat(chip.View(), AddrCycle(bytes[i]), AddrEvents(bytes, mask, i + 1));
          chip.Cycle(AddrCycle(address[i]));
        } else {
          assert AddrEvents(bytes, mask, i) == AddrEvents(bytes, mask, i + 1);
        }
      }
    }

    method Issue(o: Order)
      requires Valid() && RunDefined(chip.View(), IssueEvents(View(), o))
      modifies chip, chip.writebuffer, chip.addrspace
      ensures Valid() && View() == old(View()).(chip := Run(old(chip.View()), IssueEvents(old(View()), o)))
    {
      RunConcat(chip.View(), CmdCycle(o.command), AddrEvents(address[..], o.bitmask, 0));
      chip.Cycle(CmdCycle(o.command));
      assert address[..] == old(address[..]) && buf[..] == old(buf[..]) && guest[..] == old(guest[..]);
      SendAddresses(o.bitmask);
    }

    method ReadOneInto(i: nat)
      requires Valid() && i < BUFFER && Defined(chip.View(), SetRE(LOW))
      modifies chip, chip.writebuffer, chip.addrspace, buf
      ensures Valid()
      ensures View() == old(View()).(chip := ReadOnce(old(chip.View())),
                                     buf := old(buf[..])[i := ByteRead(old(chip.View()))])
    {
      var d := chip.ReadData();
      buf[i] := d;
    }

    method ReadInto(n: nat)
      requires Valid() && n <= BUFFER && ReadsDefined(chip.View(), n)
      modifies chip, chip.writebuffer, chip.addrspace, buf
      ensures Valid()
      ensures View() == old(View()).(chip := AfterReads(old(chip.View()), n),
                                     buf := BytesRead(old(chip.View()), n) + old(buf[n..]))
    {
      ghost var t := View();
      assert BytesRead(t.chip, 0) + t.buf[0..] == t.buf;
      for i := 0 to n
        invariant Valid() && ReadsDefined(t.chip, i)
        invariant View() == Filled(t, i)
      {
        FewerReadsDefined(t.chip, i + 1, n);
        ReadOneInto(i);
        FilledNext(t, i);
      }
    }

    method WriteOut(n: nat)
      requires Valid() && n <= BUFFER && RunDefined(chip.View(), DataEvents(buf[..], 0, n))
      modifies chip, chip.writebuffer, chip.addrspace
      ensures Valid()
      ensures View() == old(View()).(chip := Run(old(chip.View()), DataEvents(buf[..], 0, n)))
    {
      ghost var bytes := buf[..];
      for i := 0 to n
        invariant chip.Valid() && buf[..] == bytes
        invariant address[..] == old(address[..]) && guest[..] == old(guest[..])
        invariant RunDefined(chip.View(), DataEvents(bytes, i, n))
        invariant Run(chip.View(), DataEvents(bytes, i, n)) == Run(old(chip.View()), DataEvents(bytes, 0, n))
      {
        RunConcat(chip.View(), DataCycle(bytes[i]), DataEvents(bytes, i + 1, n));
        chip.Cycle(DataCycle(buf[i]));
      }
    }

    method StoreSectionEcc(i: nat)
      requires Valid() && i < 4 && EccAddress(View()) + 16 <= guest.Length
      modifies guest
      ensures Valid()
      ensures View() == old(View()).(guest := Put(old(guest[..]), EccAddress(old(View())) + i * 4,
                                                  EccBytes(buf[..][i * 512..(i + 1) * 512])))
    {
      assert buf[i * 512..i * 512 + 512] == buf[..][i * 512..(i + 1) * 512];
      var bytes := SectionCode.CalcEcc(buf[i * 512..i * 512 + 512]);
      HostToGuest(Xor(ecc, 0x40) + i * 4, bytes);
    }

    /** Compute the four section codes of the buffer and store them in guest memory. */
    method StoreEcc()
      requires Valid() && EccAddress(View()) + 16 <= guest.Length
      modifies guest
      ensures Valid()
      ensures View() == old(View()).(guest := PutEcc(old(guest[..]), EccAddress(old(View())), buf[..], 4))
    {
      ghost var t := View();
      for i := 0 to 4
        invariant Valid() && View() == t.(guest := PutEcc(t.guest, EccAddress(t), t.buf, i))
      {
        StoreSectionEcc(i);
      }
    }

    method Receive(o: Order)
      requires Valid() && o.size <= BUFFER && ReadPhaseDefined(View(), o)
      modifies chip, chip.writebuffer, chip.addrspace, buf, guest
      ensures Valid() && View() == ReadPhase(old(View()), o)
    {
      ghost var t := View();
      ReadInto(o.size);
      ghost var bytes := BytesRead(t.chip, o.size);
      if o.size <= 0x800 {
        assert buf[..o.size] == bytes;
        HostToGuest(data, buf[..o.size]);
      } else {
        assert buf[..0x800] == bytes[..0x800] && buf[0x800..0x840] == bytes[0x800..];
        HostToGuest(data, buf[..0x800]);
        HostToGuest(ecc, buf[0x800..0x840]);
        if o.ecc { StoreEcc(); }
      }
    }

    method FetchPayload(n: nat)
      requires Valid() && SizeAccepted(n) && Reachable(View(), n)
      modifies buf
      ensures Valid() && View() == old(View()).(buf := Payload(old(View()), n) + old(buf[n..]))
    {
      if n <= 0x800 {
        GuestToHost(0, data, n);
      } else {
        PutPut(buf[..], 0, guest[data..data + 0x800], guest[ecc..ecc + 0x40]);
        GuestToHost(0, data, 0x800);
        GuestToHost(0x800, ecc, 0x40);
      }
      PutFront(old(buf[..]), Payload(old(View()), n));
    }

    method Transmit(o: Order)
      requires Valid() && o.size <= BUFFER && WritePhaseDefined(View(), o)
      modifies chip, chip.writebuffer, chip.addrspace, buf, guest
      ensures Valid() && View() == WritePhase(old(View()), o)
    {
      ghost var t := View();
      FetchPayload(o.size);
      PhaseSends(t, o, buf[..]);
      SendOut(o);
    }

    method SendOut(o: Order)
      requires Valid() && o.size <= BUFFER && RunDefined(chip.View(), DataEvents(buf[..], 0, o.size))
      requires o.ecc ==> EccAddress(View()) + 16 <= guest.Length
      modifies chip, chip.writebuffer, chip.addrspace, guest
      ensures Valid()
      ensures View() == old(View()).(chip := Run(old(chip.View()), DataEvents(buf[..], 0, o.size)),
                                     guest := if o.ecc then PutEcc(old(guest[..]), EccAddress(old(View())), buf[..], 4)
                                              else old(guest[..]))
    {
      if o.ecc { StoreEcc(); }
      WriteOut(o.size);
    }

    method Execute(o: Order)
      requires Valid() && OrderDefined(View(), o)
      modifies chip, chip.writebuffer, chip.addrspace, buf, guest
      ensures Valid() && View() == DoOrder(old(View()), o)
    {
      Issue(o);
      if o.size > 0 {
        if o.read { Receive(o); }
        if o.write { Transmit(o); }
      }
    }

    /** The register read handler. */
    method ReadWord(addr: word) returns (hit: bool, value: word)
      requires Valid()
      ensures hit <==> addr in {NFSTAT, NFCONF, NFADDR0, NFADDR1, NF_DATA, NF_ECC}
      ensures hit ==> value == ReadReg(View(), addr)
    {
      hit, value := true, 0;
      if addr == NFCONF {
        value := nfconf;
      } else if addr == NFADDR0 {
        value := addr0;
      } else if addr == NFADDR1 {
        value := addr1;
      } else if addr == NF_DATA {
        value := data;
      } else if addr == NFSTAT {
        value := 1;
      } else if addr == NF_ECC {
        value := ecc;
      } else {
        hit := false;
      }
    }

    /** The register write handler. */
    method WriteWord(addr: word, value: word) returns (hit: bool)
      requires Valid() && WriteDefined(View(), addr, value)
      modifies this, chip, chip.writebuffer, chip.addrspace, address, buf, guest
      ensures Valid() && View() == WriteReg(old(View()), addr, value)
      ensures hit <==> addr in {NFCMD, NFCONF, NFADDR0, NFADDR1, NF_DATA, NF_ECC}
    {
      hit := true;
      if addr == NFCONF {
        nfconf := value;
      } else if addr == NFCMD {
        if value != 0x7fff_ffff && value != 0 {
          Execute(DecodeOrder(value));
        }
      } else if addr == NFADDR0 {
        address[0] := value % 256;
        address[1] := value / 256 % 256;
        addr0 := value;
        assert address[..] == [value % 256, value / 256 % 256] + old(address[..])[2..];
      } else if addr == NFADDR1 {
        address[2] := value % 256;
        address[3] := value / 256 % 256;
        address[4] := value / 0x1_0000 % 256;
        address[5] := value / 0x100_0000 % 256;
        addr1 := value;
        assert address[..] == old(address[..])[..2]
          + [value % 256, value / 256 % 256, value / 0x1_0000 % 256, value / 0x100_0000 % 256];
      } else if addr == NF_DATA {
        data := value;
      } else if addr == NF_ECC {
        ecc := value;
      } else {
        hit := false;
      }
    }
  }

  lemma {:induction false} PutFront(mem: seq<byte>, bytes: seq<byte>)
    requires |bytes| <= |mem|
    ensures Put(mem, 0, bytes) == bytes + mem[|bytes|..]
  {
  }

  /** The controller after n bytes were read into its buffer. */
  function Filled(t: Ctrl, n: nat): Ctrl
    requires ReadsDefined(t.chip, n) && n <= |t.buf|
  {
    t.(chip := AfterReads(t.chip, n), buf := BytesRead(t.chip, n) + t.buf[n..])
  }

  lemma {:induction false} FilledNext(t: Ctrl, i: nat)
    requires i < |t.buf| && ReadsDefined(t.chip, i + 1) && ReadsDefined(t.chip, i)
    ensures var u := Filled(t, i);
            Filled(t, i + 1) == u.(chip := ReadOnce(u.chip), buf := u.buf[i := ByteRead(u.chip)])
  {
    SlideBuffer(BytesRead(t.chip, i), t.buf, i, ByteRead(AfterReads(t.chip, i)));
  }

  lemma {:induction false} SlideBuffer(done: seq<byte>, rest: seq<byte>, i: nat, b: byte)
    requires |done| == i < |rest|
    ensures (done + rest[i..])[i := b] == done + [b] + rest[i + 1..]
  {
  }

  /** The write phase in terms of the filled buffer. */
  lemma {:induction false} PhaseSends(t: Ctrl, o: Order, b: seq<byte>)
    requires |t.buf| == BUFFER && o.size <= BUFFER && WritePhaseDefined(t, o)
    requires b == Payload(t, o.size) + t.buf[o.size..]
    ensures |b| == BUFFER && RunDefined(t.chip, DataEvents(b, 0, o.size))
    ensures WritePhase(t, o)
         == t.(buf := b, chip := Run(t.chip, DataEvents(b, 0, o.size)),
               guest := if o.ecc then PutEcc(t.guest, EccAddress(t), b, 4) else t.guest)
  {
    assert b[..o.size] == Payload(t, o.size)[..o.size];
    SameEvents(Payload(t, o.size), b, 0, o.size);
  }

  lemma {:induction false} SameEvents(a: seq<byte>, b: seq<byte>, i: nat, n: nat)
    requires i <= n <= |a| && n <= |b| && a[..n] == b[..n]
    ensures DataEvents(a, i, n) == DataEvents(b, i, n)
    decreases n - i
  {
    if i < n {
      assert a[i] == a[..n][i] == b[i];
      SameEvents(a, b, i + 1, n);
    }
  }
}
