/** The large-block NAND chip at pin level: the state, what each pin setter does to it as a
    function on values, and the class that does it in place. */
module NandChip {
  import opened Bits

  const PAGE := 0x840     // bytes of a page, data and spare area
  const BLOCK := 64       // pages of a block
  const ERASE := 0x21000  // bytes of a block: BLOCK * PAGE
  const WRAP := 0x1_0000_0000

  const READ0: byte := 0x00
  const PAGEPROG: byte := 0x10
  const READ0B: byte := 0x30
  const ERASE1: byte := 0x60
  const STATUS: byte := 0x70
  const SEQIN: byte := 0x80
  const RANDIN: byte := 0x85
  const READID: byte := 0x90
  const ERASE2: byte := 0xd0
  const RESET: byte := 0xff
  const NONE: byte := 0xff  // -1 stored in an unsigned byte

  const ID: seq<byte> := [0xAD, 0xDC, 0x80, 0x95]

  datatype Level = LOW | HIGH

  datatype CmdStatus =
    | NoStatus | Addr1 | Addr2 | Addr3 | Addr4 | Addr5 | AddrFinish | InStatus
    | ReadId1 | ReadId2 | ReadId3 | ReadId4

  datatype IoStatus = IoCmd | IoAddr | IoDataRead | IoDataWrite | IoStatusRead | IoIdRead | IoNone

  /** `fmt` is the page stride of the image file (0x840 for dump type 0, 0xa00 for type 1) and
      `device` the size of the device in bytes. */
  datatype Chip = Chip(
    fmt: nat, device: nat,
    iopin: byte, status: byte,
    cle: Level, ale: Level, ce: Level, we: Level, re: Level, wp: Level,
    cmd: byte, cmdstatus: CmdStatus, iostatus: IoStatus,
    pagenum: word, pageoffset: half,
    buffer: seq<byte>, image: seq<byte>)
  {
    predicate Valid() {
      && |buffer| == PAGE
      && (fmt == 0x840 || fmt == 0xa00)
      && device <= |image|
      && device + 0x1_0000 < WRAP
      && device % ERASE == 0
    }

    function ProgramBase(): nat { (pagenum * fmt) % WRAP }
    function EraseBase(): nat { (pagenum / BLOCK * BLOCK * fmt) % WRAP }
  }

  // ----- Array effects -----

  function Fill(image: seq<byte>, base: nat, len: nat): (r: seq<byte>)
    ensures |r| == |image|
  {
    seq(|image|, i requires 0 <= i < |image| => if base <= i < base + len then 0xff else image[i])
  }

  function AndAt(image: seq<byte>, base: nat, page: seq<byte>): (r: seq<byte>)
    ensures |r| == |image|
  {
    seq(|image|, i requires 0 <= i < |image| =>
      if base <= i < base + |page| then And(image[i], page[i - base]) else image[i])
  }

  function Blank(): (r: seq<byte>)
    ensures |r| == PAGE
  {
    seq(PAGE, i => 0xff)
  }

  // ----- The latched operations -----

  predicate EraseConfirmed(c: Chip) {
    c.cmd == ERASE1 && c.cmdstatus == AddrFinish
  }

  predicate ProgramConfirmed(c: Chip) {
    (c.cmd == SEQIN || c.cmd == RANDIN) && c.cmdstatus == AddrFinish
  }

  /** The command latch neither exits nor leaves the image array. */
  predicate CmdDefined(c: Chip) {
    && c.iopin in {READ0, READ0B, RESET, SEQIN, RANDIN, ERASE1, ERASE2, STATUS, READID, PAGEPROG}
    && (c.iopin == ERASE2 && EraseConfirmed(c) && c.wp == HIGH ==> c.EraseBase() + ERASE <= |c.image|)
    && (c.iopin == PAGEPROG && ProgramConfirmed(c) && c.wp == HIGH ==> c.ProgramBase() + PAGE <= |c.image|)
  }

  function DoErase(c: Chip): Chip {
    if c.wp != HIGH then c else c.(image := Fill(c.image, c.EraseBase(), ERASE))
  }

  function FinishWrite(c: Chip): Chip {
    if c.wp != HIGH then c else c.(image := AndAt(c.image, c.ProgramBase(), c.buffer))
  }

  function Reset(c: Chip): Chip {
    c.(ale := LOW, cle := LOW, iostatus := IoNone, iopin := 0, re := HIGH, we := HIGH, wp := HIGH,
       status := 192, pageoffset := 0, cmd := 0, cmdstatus := NoStatus, buffer := Blank())
  }

  function PowerOn(c: Chip): Chip {
    Reset(c).(ce := HIGH, cmd := READ0)
  }

  function DoCmd(c: Chip): Chip {
    if c.iopin == READ0 then
      c.(cmd := READ0, cmdstatus := Addr1, pagenum := 0, iostatus := IoAddr, pageoffset := 0)
    else if c.iopin == READ0B then
      c.(iostatus := IoDataRead)
    else if c.iopin == RESET then
      Reset(c)
    else if c.iopin == SEQIN then
      c.(cmd := SEQIN, cmdstatus := Addr1, buffer := Blank(), iostatus := IoAddr, pagenum := 0, pageoffset := 0)
    else if c.iopin == RANDIN then
      c.(cmd := RANDIN, cmdstatus := Addr1, iostatus := IoAddr)
    else if c.iopin == ERASE1 then
      c.(cmd := ERASE1, cmdstatus := Addr3, iostatus := IoAddr, pageoffset := 0, pagenum := 0)
    else if c.iopin == ERASE2 then
      (if EraseConfirmed(c) then DoErase(c) else c).(cmd := NONE)
    else if c.iopin == STATUS then
      c.(cmd := STATUS, cmdstatus := InStatus, iostatus := IoStatusRead)
    else if c.iopin == READID then
      c.(cmd := READID, cmdstatus := Addr5, pageoffset := 0, pagenum := 0, iostatus := IoAddr)
    else if c.iopin == PAGEPROG && ProgramConfirmed(c) then
      FinishWrite(c.(cmd := PAGEPROG))
    else c
  }

  function DoAddr(c: Chip): Chip {
    match c.cmdstatus
    case Addr1 => c.(pageoffset := c.iopin, cmdstatus := Addr2)
    case Addr2 =>
      var d := c.(pageoffset := Or(c.pageoffset, c.iopin * 256) % 0x1_0000);
      if c.cmd == RANDIN then d.(iostatus := IoDataWrite, cmdstatus := AddrFinish)
      else d.(cmdstatus := Addr3)
    case Addr3 => c.(pagenum := c.iopin, cmdstatus := Addr4)
    case Addr4 => c.(pagenum := Or(c.pagenum, c.iopin * 256) % WRAP, cmdstatus := Addr5)
    case Addr5 =>
      var d := c.(pagenum := Or(c.pagenum, c.iopin * 0x1_0000) % WRAP);
      if c.cmd == SEQIN then d.(iostatus := IoDataWrite, cmdstatus := AddrFinish)
      else if c.cmd == READID then d.(iostatus := IoIdRead, cmdstatus := ReadId1)
      else if c.cmd == ERASE1 then d.(iostatus := IoCmd, cmdstatus := AddrFinish)
      else d
    case _ => c
  }

  predicate DataDefined(c: Chip) {
    c.wp == HIGH ==> c.pageoffset < |c.buffer|
  }

  function DoDataWrite(c: Chip): Chip
    requires DataDefined(c)
  {
    if c.wp != HIGH then c
    else c.(buffer := c.buffer[c.pageoffset := c.iopin], pageoffset := (c.pageoffset + 1) % 0x1_0000)
  }

  predicate InDevice(c: Chip) {
    (c.pagenum * 0x840 + c.pageoffset) % WRAP < c.device
  }

  predicate ReadDefined(c: Chip) {
    InDevice(c) ==> c.ProgramBase() + c.pageoffset < |c.image|
  }

  function DoRead(c: Chip): Chip
    requires ReadDefined(c)
  {
    if !InDevice(c) then c
    else
      var d := c.(iopin := c.image[c.ProgramBase() + c.pageoffset], pageoffset := (c.pageoffset + 1) % 0x1_0000);
      if d.pageoffset == 0x840 then d.(pagenum := (d.pagenum + 1) % WRAP, pageoffset := 0) else d
  }

  function DoReadId(c: Chip): Chip {
    match c.cmdstatus
    case ReadId1 => c.(iopin := ID[0], cmdstatus := ReadId2)
    case ReadId2 => c.(iopin := ID[1], cmdstatus := ReadId3)
    case ReadId3 => c.(iopin := ID[2], cmdstatus := ReadId4)
    case ReadId4 => c.(iopin := ID[3], cmdstatus := NoStatus, iostatus := IoNone)
    case _ => c
  }

  // ----- The pins -----

  datatype Event =
    | SetCE(l: Level) | SetCLE(l: Level) | SetALE(l: Level) | SetWE(l: Level) | SetRE(l: Level)
    | SetWP(l: Level) | WriteIO(b: byte) | DoReset | DoPowerOn

  /** WE rises on a selected chip: the byte on the pins is latched. */
  predicate Latches(c: Chip, e: Event) {
    e == SetWE(HIGH) && c.we == LOW && c.ce == LOW
  }

  /** RE falls on a selected chip: the chip drives the pins. */
  predicate Drives(c: Chip, e: Event) {
    e == SetRE(LOW) && c.re == HIGH && c.ce == LOW
  }

  /** The C code has defined behaviour for this event. */
  predicate Defined(c: Chip, e: Event) {
    && (Latches(c, e) && c.iostatus == IoCmd ==> CmdDefined(c))
    && (Latches(c, e) && c.iostatus == IoDataWrite ==> DataDefined(c))
    && (Drives(c, e) && c.iostatus == IoDataRead ==> ReadDefined(c))
  }

  /** A selected chip answers the falling edge of RE. */
  function Drive(c: Chip): Chip
    requires c.iostatus == IoDataRead ==> ReadDefined(c)
  {
    match c.iostatus
    case IoDataRead => DoRead(c)
    case IoIdRead => DoReadId(c)
    case IoStatusRead => c.(iopin := c.status)
    case _ => c
  }

  function Step(c: Chip, e: Event): Chip
    requires Defined(c, e)
  {
    match e
    case SetCE(l) =>
      var d := c.(ce := l);
      if l == HIGH && d.iostatus == IoDataRead then d.(iostatus := IoNone) else d
    case SetCLE(l) =>
      var d := c.(cle := l);
      if l == HIGH && d.ce == LOW then d.(iostatus := IoCmd) else d
    case SetALE(l) =>
      var d := c.(ale := l);
      if l == HIGH && d.ce == LOW then d.(iostatus := IoAddr) else d
    case SetWE(l) =>
      var d := if !Latches(c, e) then c
               else match c.iostatus
                    case IoCmd => DoCmd(c)
                    case IoAddr => DoAddr(c)
                    case IoDataWrite => DoDataWrite(c)
                    case _ => c;
      d.(we := l)
    case SetRE(l) =>
      (if Drives(c, e) then Drive(c) else c).(re := l)
    case SetWP(l) =>
      c.(wp := l, status := if l == LOW then c.status % 128 else c.status % 128 + 128)
    case WriteIO(b) => if c.ce == LOW then c.(iopin := b) else c
    case DoReset => Reset(c)
    case DoPowerOn => PowerOn(c)
  }

  predicate RunDefined(c: Chip, es: seq<Event>)
    decreases |es|
  {
    es == [] || (Defined(c, es[0]) && RunDefined(Step(c, es[0]), es[1..]))
  }

  function Run(c: Chip, es: seq<Event>): Chip
    requires RunDefined(c, es)
    decreases |es|
  {
    if es == [] then c else Run(Step(c, es[0]), es[1..])
  }

  // ----- The bus cycles the controller uses -----

  function CmdCycle(b: byte): seq<Event> {
    [SetCLE(HIGH), SetWE(LOW), WriteIO(b), SetWE(HIGH), SetCLE(LOW)]
  }

  function AddrCycle(b: byte): seq<Event> {
    [SetALE(HIGH), SetWE(LOW), WriteIO(b), SetWE(HIGH), SetALE(LOW)]
  }

  function DataCycle(b: byte): seq<Event> {
    [SetWE(LOW), WriteIO(b), SetWE(HIGH)]
  }

  function ReadIO(c: Chip): byte {
    if c.ce == LOW then c.iopin else 0
  }

  /** One read: RE falls and rises; the byte is on the pins in between. */
  function ReadOnce(c: Chip): Chip
    requires Defined(c, SetRE(LOW))
  {
    if c.ce == LOW && c.re == HIGH then Drive(c) else c.(re := HIGH)
  }

  function ByteRead(c: Chip): byte
    requires Defined(c, SetRE(LOW))
  {
    ReadIO(if c.ce == LOW && c.re == HIGH then Drive(c) else c)
  }

  lemma {:induction false} ReadOnceIsTwoEvents(c: Chip)
    requires Defined(c, SetRE(LOW))
    ensures ReadOnce(c) == Step(Step(c, SetRE(LOW)), SetRE(HIGH))
    ensures ByteRead(c) == ReadIO(Step(c, SetRE(LOW)))
  {
  }

  // ----- The device -----

  class NandDevice {
    const fmt: nat
    const device: nat
    var iopin: byte
    var status: byte
    var cle: Level
    var ale: Level
    var ce: Level
    var we: Level
    var re: Level
    var wp: Level
    var cmd: byte
    var cmdstatus: CmdStatus
    var iostatus: IoStatus
    var pagenum: word
    var pageoffset: half
    const writebuffer: array<byte>
    const addrspace: array<byte>

    ghost function View(): Chip
      reads this, writebuffer, addrspace
    {
      Chip(fmt, device, iopin, status, cle, ale, ce, we, re, wp, cmd, cmdstatus, iostatus,
           pagenum, pageoffset, writebuffer[..], addrspace[..])
    }

    ghost predicate Valid()
      reads this, writebuffer, addrspace
    {
      writebuffer != addrspace && View().Valid()
    }

    /** Setup on a dump file already extended to the device size. */
    constructor (dumptype: nat, device: nat, addrspace: array<byte>)
      requires device <= addrspace.Length && device + 0x1_0000 < WRAP && device % ERASE == 0
      ensures Valid() && fresh(writebuffer) && this.addrspace == addrspace && this.device == device
      ensures View() == PowerOn(View()) && pagenum == 0
      ensures fmt == if dumptype == 1 then 0xa00 else 0x840
    {
      this.fmt := if dumptype == 1 then 0xa00 else 0x840;
      this.device := device;
      this.addrspace := addrspace;
      this.writebuffer := new byte[PAGE](i => 0xff);
      iopin, status := 0, 192;
      cle, ale, ce, we, re, wp := LOW, LOW, HIGH, HIGH, HIGH, HIGH;
      cmd, cmdstatus, iostatus := READ0, NoStatus, IoNone;
      pagenum, pageoffset := 0, 0;
      new;
      assert writebuffer[..] == Blank();
    }

    method EraseBlock()
      requires Valid() && (wp == HIGH ==> View().EraseBase() + ERASE <= addrspace.Length)
      modifies addrspace
      ensures Valid() && View() == DoErase(old(View()))
    {
      if wp != HIGH { return; }
      var base := (pagenum / BLOCK * BLOCK * fmt) % WRAP;
      for i := 0 to ERASE
        invariant addrspace[..] == Fill(old(addrspace[..]), base, i)
      {
        addrspace[base + i] := 0xff;
      }
    }

    method CommitWrite()
      requires Valid() && (wp == HIGH ==> View().ProgramBase() + PAGE <= addrspace.Length)
      modifies addrspace
      ensures Valid() && View() == FinishWrite(old(View()))
    {
      if wp != HIGH { return; }
      var base := (pagenum * fmt) % WRAP;
      for i := 0 to PAGE
        invariant writebuffer[..] == old(writebuffer[..])
        invariant addrspace[..] == AndAt(old(addrspace[..]), base, writebuffer[..i])
      {
        addrspace[base + i] := And(addrspace[base + i], writebuffer[i]);
      }
      assert writebuffer[..PAGE] == writebuffer[..];
    }

    method ClearBuffer()
      requires Valid()
      modifies writebuffer
      ensures Valid() && View() == old(View()).(buffer := Blank())
    {
      for i := 0 to PAGE
        invariant addrspace[..] == old(addrspace[..])
        invariant forall k :: 0 <= k < i ==> writebuffer[k] == 0xff
      {
        writebuffer[i] := 0xff;
      }
      assert writebuffer[..] == Blank();
    }

    method ResetChip()
      requires Valid()
      modifies this, writebuffer
      ensures Valid() && View() == Reset(old(View()))
    {
      ale, cle := LOW, LOW;
      iostatus, iopin := IoNone, 0;
      re, we, wp := HIGH, HIGH, HIGH;
      status, pageoffset := 192, 0;
      cmd, cmdstatus := 0, NoStatus;
      ClearBuffer();
    }

    method SwitchOn()
      requires Valid()
      modifies this, writebuffer
      ensures Valid() && View() == PowerOn(old(View()))
    {
      ResetChip();
      ce, cmd := HIGH, READ0;
    }

    method LatchCommand()
      requires Valid() && CmdDefined(View())
      modifies this, writebuffer, addrspace
      ensures Valid() && View() == DoCmd(old(View()))
    {
      if iopin == READ0 {
        cmd, cmdstatus, pagenum, iostatus, pageoffset := READ0, Addr1, 0, IoAddr, 0;
      } else if iopin == READ0B {
        iostatus := IoDataRead;
      } else if iopin == RESET {
        cmd := RESET;
        ResetChip();
      } else if iopin == SEQIN {
        cmd, cmdstatus := SEQIN, Addr1;
        ClearBuffer();
        iostatus, pagenum, pageoffset := IoAddr, 0, 0;
      } else if iopin == RANDIN {
        cmd, cmdstatus, iostatus := RANDIN, Addr1, IoAddr;
      } else if iopin == ERASE1 {
        cmd, cmdstatus, iostatus, pageoffset, pagenum := ERASE1, Addr3, IoAddr, 0, 0;
      } else if iopin == ERASE2 {
        if cmd == ERASE1 && cmdstatus == AddrFinish {
          EraseBlock();
        }
        cmd := NONE;
      } else if iopin == STATUS {
        cmd, cmdstatus, iostatus := STATUS, InStatus, IoStatusRead;
      } else if iopin == READID {
        cmd, cmdstatus, pageoffset, pagenum, iostatus := READID, Addr5, 0, 0, IoAddr;
      } else {
        if (cmd == SEQIN || cmd == RANDIN) && cmdstatus == AddrFinish {
          cmd := PAGEPROG;
          CommitWrite();
        }
      }
    }

    method LatchAddress()
      requires Valid()
      modifies this
      ensures Valid() && View() == DoAddr(old(View()))
    {
      match cmdstatus
      case Addr1 =>
        pageoffset, cmdstatus := iopin, Addr2;
      case Addr2 =>
        pageoffset := Or(pageoffset, iopin * 256) % 0x1_0000;
        if cmd == RANDIN {
          iostatus, cmdstatus := IoDataWrite, AddrFinish;
        } else {
          cmdstatus := Addr3;
        }
      case Addr3 =>
        pagenum, cmdstatus := iopin, Addr4;
      case Addr4 =>
        pagenum, cmdstatus := Or(pagenum, iopin * 256) % WRAP, Addr5;
      case Addr5 =>
        pagenum := Or(pagenum, iopin * 0x1_0000) % WRAP;
        if cmd == SEQIN {
          iostatus, cmdstatus := IoDataWrite, AddrFinish;
        } else if cmd == READID {
          iostatus, cmdstatus := IoIdRead, ReadId1;
        } else if cmd == ERASE1 {
          iostatus, cmdstatus := IoCmd, AddrFinish;
        }
      case _ =>
    }

    method LatchData()
      requires Valid() && DataDefined(View())
      modifies this, writebuffer
      ensures Valid() && View() == DoDataWrite(old(View()))
    {
      if wp != HIGH { return; }
      writebuffer[pageoffset] := iopin;
      pageoffset := (pageoffset + 1) % 0x1_0000;
    }

    method DriveData()
      requires Valid() && ReadDefined(View())
      modifies this
      ensures Valid() && View() == DoRead(old(View()))
    {
      if (pagenum * 0x840 + pageoffset) % WRAP < device {
        iopin := addrspace[(pagenum * fmt) % WRAP + pageoffset];
        pageoffset := (pageoffset + 1) % 0x1_0000;
        if pageoffset == 0x840 {
          pagenum := (pagenum + 1) % WRAP;
          pageoffset := 0;
        }
      }
    }

    method DriveId()
      requires Valid()
      modifies this
      ensures Valid() && View() == DoReadId(old(View()))
    {
      match cmdstatus
      case ReadId1 => iopin, cmdstatus := ID[0], ReadId2;
      case ReadId2 => iopin, cmdstatus := ID[1], ReadId3;
      case ReadId3 => iopin, cmdstatus := ID[2], ReadId4;
      case ReadId4 => iopin, cmdstatus, iostatus := ID[3], NoStatus, IoNone;
      case _ =>
    }

    method WriteEnable(l: Level)
      requires Valid() && Defined(View(), SetWE(l))
      modifies this, writebuffer, addrspace
      ensures Valid() && View() == Step(old(View()), SetWE(l))
    {
      if we == LOW && l == HIGH && ce == LOW {
        match iostatus
        case IoCmd => LatchCommand();
        case IoAddr => LatchAddress();
        case IoDataWrite => LatchData();
        case _ =>
      }
      we := l;
    }

    method ReadEnable(l: Level)
      requires Valid() && Defined(View(), SetRE(l))
      modifies this
      ensures Valid() && View() == Step(old(View()), SetRE(l))
    {
      if re == HIGH && l == LOW && ce == LOW {
        match iostatus
        case IoDataRead => DriveData();
        case IoIdRead => DriveId();
        case IoStatusRead => iopin := status;
        case _ =>
      }
      re := l;
    }

    /** One pin event. */
    method Pin(e: Event)
      requires Valid() && Defined(View(), e)
      modifies this, writebuffer, addrspace
      ensures Valid() && View() == Step(old(View()), e)
    {
      match e
      case SetCE(l) =>
        ce := l;
        if l == HIGH && iostatus == IoDataRead { iostatus := IoNone; }
      case SetCLE(l) =>
        cle := l;
        if l == HIGH && ce == LOW { iostatus := IoCmd; }
      case SetALE(l) =>
        ale := l;
        if l == HIGH && ce == LOW { iostatus := IoAddr; }
      case SetWE(l) => WriteEnable(l);
      case SetRE(l) => ReadEnable(l);
      case SetWP(l) =>
        wp := l;
        status := if l == LOW then status % 128 else status % 128 + 128;
      case WriteIO(b) =>
        if ce == LOW { iopin := b; }
      case DoReset => ResetChip();
      case DoPowerOn => SwitchOn();
    }

    /** Pull RE low, take the byte on the pins, release RE. */
    method ReadData() returns (d: byte)
      requires Valid() && Defined(View(), SetRE(LOW))
      modifies this
      ensures Valid() && d == ByteRead(old(View())) && View() == ReadOnce(old(View()))
    {
      ReadOnceIsTwoEvents(View());
      ReadEnable(LOW);
      d := if ce == LOW then iopin else 0;
      ReadEnable(HIGH);
    }

    /** The pin events of one bus cycle, in order. */
    method Cycle(es: seq<Event>)
      requires Valid() && RunDefined(View(), es)
      modifies this, writebuffer, addrspace
      ensures Valid() && View() == Run(old(View()), es)
    {
      for i := 0 to |es|
        invariant Valid() && RunDefined(View(), es[i..])
        invariant Run(View(), es[i..]) == Run(old(View()), es)
      {
        Pin(es[i]);
        assert es[i..][1..] == es[i + 1..];
      }
    }
  }
}
