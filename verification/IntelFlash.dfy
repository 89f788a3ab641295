/** The Intel 28F128J3A write state machine: two interleaved 16-bit chips seen as 32-bit words, mapped
    at address 0. The state as a value, one word write as a function, and the class that does it. */
module IntelFlash {
  import opened Bits

  const SIZE := 0x200_0000         // bytes
  const WORDS := 0x80_0000         // 32-bit words
  const SECTOR := 0x4_0000         // bytes of a sector
  const SECTOR_WORDS := 0x1_0000
  const SECTORS := 128
  const BUFFER := 16               // words of the write buffer
  const ONES: word := 0xffff_ffff

  const CLEAR_STATUS := 0x50
  const WRITE_BUFFER := 0xe8
  const PROGRAM := 0x40
  const PROGRAM2 := 0x10
  const BLOCK_ERASE := 0x20
  const SUSPEND := 0xb0
  const RESUME := 0xd0
  const CONFIRM := 0xd0
  const LOCK_ACCESS := 0x60
  const SET_LOCK := 0x01

  datatype ReadMode = ReadArray | ReadId | ReadStatus | ReadQuery
  datatype Mode = Ready | InWriteBuffer | InProgram | InErase | InLock

  datatype Busy = Busy(program: bool, progbuf: bool, erase: bool, locking: bool)
  datatype Suspended = Suspended(program: bool, progbuf: bool, erase: bool)
  datatype Errors = Errors(protection: bool, setlb: bool, clearlb: bool, volt: bool)

  const NOT_BUSY := Busy(false, false, false, false)
  const NOT_SUSPENDED := Suspended(false, false, false)
  const NO_ERRORS := Errors(false, false, false, false)

  datatype Flash = Flash(
    mem: seq<word>, lock: seq<bool>,
    readMode: ReadMode, mode: Mode, vpen: bool,
    programLatch: word, progbufLatch: word, eraseLatch: word,
    pbCount: nat, pbLoaded: nat, pbStart: word, pbBuf: seq<word>,
    busy: Busy, suspended: Suspended, errors: Errors)
  {
    predicate Shaped() { |mem| == WORDS && |lock| == SECTORS && |pbBuf| == BUFFER }
    predicate DeviceSuspended() { suspended.program || suspended.progbuf || suspended.erase }
    /** The address of a word program, already latched, belongs to a suspended operation. */
    predicate AddrSuspended(x: word) {
      || suspended.program
      || (suspended.progbuf && pbStart <= x < pbStart + pbCount)
      || (suspended.erase && x / SECTOR == eraseLatch / SECTOR)
    }
    predicate Locked(x: word)
      requires Shaped() && x < SIZE
    {
      lock[x / SECTOR]
    }
  }

  function WordOf(addr: word): nat { addr / 4 }

  // ----- Effects on memory -----

  /** The write buffer ANDed into the 16 words from w on; entry j & 15 belongs to word j. */
  function CommitBuffer(mem: seq<word>, w: nat, buf: seq<word>): (r: seq<word>)
    requires |buf| == BUFFER
    ensures |r| == |mem|
  {
    seq(|mem|, j requires 0 <= j < |mem| => if w <= j < w + BUFFER then And(mem[j], buf[j % BUFFER]) else mem[j])
  }

  function EraseSector(mem: seq<word>, s: nat): (r: seq<word>)
    ensures |r| == |mem|
  {
    seq(|mem|, j requires 0 <= j < |mem| => if j / SECTOR_WORDS == s then ONES else mem[j])
  }

  function OnesBuffer(): (r: seq<word>)
    ensures |r| == BUFFER
  {
    seq(BUFFER, i => ONES)
  }

  // ----- One word write -----

  /** A first command write. */
  function InitWsm(f: Flash, data: word): Flash {
    var cmd := data % 256;
    if cmd == 0xff then f.(readMode := ReadArray)
    else if cmd == 0x90 then f.(readMode := ReadId)
    else if cmd == 0x70 then f.(readMode := ReadStatus)
    else if cmd == 0x98 then f.(readMode := ReadQuery)
    else if cmd == CLEAR_STATUS then f.(errors := NO_ERRORS, readMode := ReadArray)
    else if cmd == PROGRAM || cmd == PROGRAM2 then f.(mode := InProgram)
    else if cmd == WRITE_BUFFER then
      f.(mode := InWriteBuffer, readMode := ReadStatus, pbCount := 0, pbLoaded := 0, pbBuf := OnesBuffer())
    else if cmd == BLOCK_ERASE then f.(mode := InErase)
    else if cmd == SUSPEND then
      if f.busy.program then f.(suspended := f.suspended.(program := true))
      else if f.busy.progbuf then f.(suspended := f.suspended.(progbuf := true))
      else if f.busy.erase then f.(suspended := f.suspended.(erase := true))
      else f
    else if cmd == RESUME then
      if f.suspended.program then f.(suspended := f.suspended.(program := false))
      else if f.suspended.progbuf then f.(suspended := f.suspended.(progbuf := false))
      else if f.suspended.erase then f.(suspended := f.suspended.(erase := false))
      else f
    else if cmd == LOCK_ACCESS then f.(mode := InLock)
    else f
  }

  function Failed(f: Flash): Flash {
    f.(errors := f.errors.(setlb := true, clearlb := true), mode := Ready)
  }

  function BufferCount(f: Flash, addr: word, data: word): Flash {
    var n := data % 256 + 1;
    var g := f.(pbCount := n, progbufLatch := addr);
    if n > BUFFER then Failed(g)
    else if addr / SECTOR != (addr + n - 1) / SECTOR then Failed(g)
    else g
  }

  function BufferLoad(f: Flash, addr: word, data: word): Flash
    requires |f.pbBuf| == BUFFER
  {
    if addr / SECTOR != f.progbufLatch / SECTOR then Failed(f)
    else
      f.(pbStart := if f.pbLoaded == 0 then addr else f.pbStart,
         pbBuf := f.pbBuf[WordOf(addr) % BUFFER := data],
         pbLoaded := f.pbLoaded + 1)
  }

  /** An operation is refused on a locked sector, a suspended device or low programming voltage. */
  predicate Refused(locked: bool, held: bool, vpen: bool) { locked || held || !vpen }

  /** The first reason decides the extra error bit; erasing marks the erase/clear-lock error. */
  function Complaint(e: Errors, locked: bool, held: bool, vpen: bool, erasing: bool): Errors {
    if !Refused(locked, held, vpen) then e
    else Errors(e.protection || locked, e.setlb || !erasing, e.clearlb || erasing, e.volt || (!locked && !held))
  }

  /** The confirmed buffer program is not refused. */
  predicate BufferGoes(f: Flash)
    requires f.Shaped() && f.progbufLatch < SIZE
  {
    !Refused(f.Locked(f.progbufLatch), f.DeviceSuspended(), f.vpen)
  }

  function BufferConfirm(f: Flash): Flash
    requires f.Shaped() && f.progbufLatch < SIZE
  {
    f.(readMode := ReadStatus, mode := Ready, busy := f.busy.(progbuf := false),
       errors := Complaint(f.errors, f.Locked(f.progbufLatch), f.DeviceSuspended(), f.vpen, false),
       mem := if BufferGoes(f) then CommitBuffer(f.mem, WordOf(f.pbStart), f.pbBuf) else f.mem)
  }

  predicate ProgramGoes(f: Flash, addr: word)
    requires f.Shaped() && addr < SIZE
  {
    !Refused(f.Locked(addr), f.AddrSuspended(addr), f.vpen)
  }

  function ProgramWord(f: Flash, addr: word, data: word): Flash
    requires f.Shaped() && addr < SIZE
  {
    f.(programLatch := addr, readMode := ReadStatus, mode := Ready, busy := f.busy.(program := false),
       errors := Complaint(f.errors, f.Locked(addr), f.AddrSuspended(addr), f.vpen, false),
       mem := if ProgramGoes(f, addr) then f.mem[WordOf(addr) := And(f.mem[WordOf(addr)], data)] else f.mem)
  }

  predicate EraseGoes(f: Flash, addr: word)
    requires f.Shaped() && addr < SIZE
  {
    !Refused(f.Locked(addr), f.DeviceSuspended(), f.vpen)
  }

  function EraseConfirm(f: Flash, addr: word): Flash
    requires f.Shaped() && addr < SIZE
  {
    f.(eraseLatch := addr / SECTOR * SECTOR, readMode := ReadStatus, mode := Ready,
       busy := f.busy.(erase := false),
       errors := Complaint(f.errors, f.Locked(addr), f.DeviceSuspended(), f.vpen, true),
       mem := if EraseGoes(f, addr) then EraseSector(f.mem, addr / SECTOR) else f.mem)
  }

  predicate LocksMove(f: Flash) { !Refused(false, f.DeviceSuspended(), f.vpen) }

  function SetLock(f: Flash, addr: word): Flash
    requires f.Shaped() && addr < SIZE
  {
    f.(readMode := ReadStatus, mode := Ready, busy := f.busy.(locking := false),
       errors := Complaint(f.errors, false, f.DeviceSuspended(), f.vpen, false),
       lock := if LocksMove(f) then f.lock[addr / SECTOR := true] else f.lock)
  }

  function ClearAllLocks(f: Flash): Flash {
    f.(readMode := ReadStatus, mode := Ready, busy := f.busy.(locking := false),
       errors := Complaint(f.errors, false, f.DeviceSuspended(), f.vpen, true),
       lock := if LocksMove(f) then seq(SECTORS, i => false) else f.lock)
  }

  /** The address is on the chip, and a buffer commit does not run past its last word. */
  predicate WriteDefined(f: Flash, addr: word, data: word) {
    && f.Shaped() && addr < SIZE
    && (f.mode == InWriteBuffer && f.pbCount > 0 ==>
          && f.progbufLatch < SIZE
          && (f.pbLoaded >= f.pbCount && data % 256 == CONFIRM && BufferGoes(f) ==>
                WordOf(f.pbStart) + BUFFER <= WORDS))
  }

  function WriteWord(f: Flash, addr: word, data: word): (g: Flash)
    requires WriteDefined(f, addr, data)
    ensures g.Shaped()
  {
    match f.mode
    case Ready => InitWsm(f, data)
    case InWriteBuffer =>
      if f.pbCount == 0 then BufferCount(f, addr, data)
      else if f.pbLoaded < f.pbCount then BufferLoad(f, addr, data)
      else if data % 256 == CONFIRM then BufferConfirm(f)
      else Failed(f)
    case InProgram => ProgramWord(f, addr, data)
    case InErase => if data % 256 == CONFIRM then EraseConfirm(f, addr) else f.(mode := Ready)
    case InLock =>
      if data % 256 == SET_LOCK then SetLock(f, addr)
      else if data % 256 == CONFIRM then ClearAllLocks(f)
      else f.(mode := Ready)
  }

  function Reset(f: Flash): Flash {
    f.(lock := seq(SECTORS, i => false), readMode := ReadArray, mode := Ready, vpen := true,
       busy := NOT_BUSY, suspended := NOT_SUSPENDED, errors := NO_ERRORS, pbCount := 0, pbLoaded := 0)
  }

  // ----- Reading -----

  function Flag(b: bool, weight: nat): nat { if b then weight else 0 }

  function StatusByte(f: Flash): (r: byte) {
    Flag(f.busy == NOT_BUSY, 128) + Flag(f.suspended.erase, 64) + Flag(f.errors.clearlb, 32)
    + Flag(f.errors.setlb, 16) + Flag(f.errors.volt, 8) + Flag(f.suspended.program, 4) + Flag(f.errors.protection, 2)
  }

  /** The same 16 bits from both chips. */
  function BothChips(x: half): word { x * 0x1_0000 + x }

  /** What a word read returns, by the read mode. */
  function ReadWord(f: Flash, addr: word): word
    requires f.Shaped() && addr < SIZE && f.readMode != ReadQuery
  {
    if f.readMode == ReadArray then f.mem[WordOf(addr)]
    else if f.readMode == ReadId then BothChips(if WordOf(addr) % 2 == 0 then 0x89 else 0x18)
    else BothChips(StatusByte(f))
  }

  // ----- The device -----

  class FlashDevice {
    const mem: array<word>
    const lock: array<bool>
    const pbBuf: array<word>
    var readMode: ReadMode
    var mode: Mode
    var vpen: bool
    var programLatch: word
    var progbufLatch: word
    var eraseLatch: word
    var pbCount: nat
    var pbLoaded: nat
    var pbStart: word
    var busy: Busy
    var suspended: Suspended
    var errors: Errors

    ghost predicate Valid()
      reads this
    {
      mem.Length == WORDS && lock.Length == SECTORS && pbBuf.Length == BUFFER && mem != pbBuf
    }

    ghost function View(): Flash
      reads this, mem, lock, pbBuf
    {
      Flash(mem[..], lock[..], readMode, mode, vpen, programLatch, progbufLatch, eraseLatch,
            pbCount, pbLoaded, pbStart, pbBuf[..], busy, suspended, errors)
    }

    constructor (mem: array<word>)
      requires mem.Length == WORDS
      ensures Valid() && this.mem == mem && View() == Reset(View())
    {
      this.mem := mem;
      lock := new bool[SECTORS](i => false);
      pbBuf := new word[BUFFER](i => 0);
      readMode, mode, vpen := ReadArray, Ready, true;
      busy, suspended, errors := NOT_BUSY, NOT_SUSPENDED, NO_ERRORS;
      programLatch, progbufLatch, eraseLatch, pbStart := 0, 0, 0, 0;
      pbCount, pbLoaded := 0, 0;
      new;
      assert lock[..] == seq(SECTORS, i => false);
    }

    method ClearLocks()
      requires Valid()
      modifies lock
      ensures View() == old(View()).(lock := seq(SECTORS, i => false))
    {
      for i := 0 to SECTORS
        invariant forall k :: 0 <= k < i ==> !lock[k]
      {
        lock[i] := false;
      }
      assert lock[..] == seq(SECTORS, i => false);
    }

    method ResetDevice()
      requires Valid()
      modifies this, lock
      ensures Valid() && View() == Reset(old(View()))
    {
      ClearLocks();
      readMode, mode, vpen := ReadArray, Ready, true;
      busy, suspended, errors := NOT_BUSY, NOT_SUSPENDED, NO_ERRORS;
      pbCount, pbLoaded := 0, 0;
    }

    method ClearBuffer()
      requires Valid()
      modifies pbBuf
      ensures View() == old(View()).(pbBuf := OnesBuffer())
    {
      for i := 0 to BUFFER
        invariant mem[..] == old(mem[..])
        invariant forall k :: 0 <= k < i ==> pbBuf[k] == ONES
      {
        pbBuf[i] := ONES;
      }
      assert pbBuf[..] == OnesBuffer();
    }

    method StartCommand(data: word)
      requires Valid()
      modifies this, pbBuf
      ensures Valid() && View() == InitWsm(old(View()), data)
    {
      var cmd := data % 256;
      if cmd == 0xff { readMode := ReadArray; }
      else if cmd == 0x90 { readMode := ReadId; }
      else if cmd == 0x70 { readMode := ReadStatus; }
      else if cmd == 0x98 { readMode := ReadQuery; }
      else if cmd == CLEAR_STATUS { errors, readMode := NO_ERRORS, ReadArray; }
      else if cmd == PROGRAM || cmd == PROGRAM2 { mode := InProgram; }
      else if cmd == WRITE_BUFFER {
        mode, readMode, pbCount, pbLoaded := InWriteBuffer, ReadStatus, 0, 0;
        ClearBuffer();
      }
      else if cmd == BLOCK_ERASE { mode := InErase; }
      else if cmd == SUSPEND {
        if busy.program { suspended := suspended.(program := true); }
        else if busy.progbuf { suspended := suspended.(progbuf := true); }
        else if busy.erase { suspended := suspended.(erase := true); }
      }
      else if cmd == RESUME {
        if suspended.program { suspended := suspended.(program := false); }
        else if suspended.progbuf { suspended := suspended.(progbuf := false); }
        else if suspended.erase { suspended := suspended.(erase := false); }
      }
      else if cmd == LOCK_ACCESS { mode := InLock; }
    }

    method CommitPages()
      requires Valid() && WordOf(pbStart) + BUFFER <= WORDS
      modifies mem
      ensures View() == old(View()).(mem := CommitBuffer(old(mem[..]), WordOf(pbStart), pbBuf[..]))
    {
      var w := pbStart / 4;
      for j := w to w + BUFFER
        invariant pbBuf[..] == old(pbBuf[..])
        invariant forall k :: w <= k < j ==> mem[k] == And(old(mem[k]), pbBuf[k % BUFFER])
        invariant forall k :: 0 <= k < WORDS && !(w <= k < j) ==> mem[k] == old(mem[k])
      {
        mem[j] := And(mem[j], pbBuf[j % BUFFER]);
      }
      assert mem[..] == CommitBuffer(old(mem[..]), w, pbBuf[..]);
    }

    method CountStep(addr: word, data: word)
      requires Valid()
      modifies this
      ensures Valid() && View() == BufferCount(old(View()), addr, data)
    {
      pbCount, progbufLatch := data % 256 + 1, addr;
      if pbCount > BUFFER || addr / SECTOR != (addr + pbCount - 1) / SECTOR {
        errors, mode := errors.(setlb := true, clearlb := true), Ready;
      }
    }

    method LoadStep(addr: word, data: word)
      requires Valid()
      modifies this, pbBuf
      ensures Valid() && View() == BufferLoad(old(View()), addr, data)
    {
      if addr / SECTOR != progbufLatch / SECTOR {
        errors, mode := errors.(setlb := true, clearlb := true), Ready;
      } else {
        if pbLoaded == 0 { pbStart := addr; }
        pbBuf[addr / 4 % BUFFER] := data;
        pbLoaded := pbLoaded + 1;
      }
    }

    /** Check the reasons to refuse in order, marking the errors of the first that applies. */
    method Refuse(locked: bool, held: bool, erasing: bool) returns (refused: bool)
      requires Valid()
      modifies this`errors
      ensures refused <==> Refused(locked, held, vpen)
      ensures View() == old(View()).(errors := Complaint(old(errors), locked, held, vpen, erasing))
    {
      refused := true;
      if locked {
        errors := errors.(protection := true);
      } else if held {
      } else if !vpen {
        errors := errors.(volt := true);
      } else {
        return false;
      }
      errors := if erasing then errors.(clearlb := true) else errors.(setlb := true);
    }

    method Begin(b: Busy)
      requires Valid()
      modifies this`busy, this`readMode
      ensures View() == old(View()).(busy := b, readMode := ReadStatus)
    {
      busy, readMode := b, ReadStatus;
    }

    method Finish(b: Busy)
      requires Valid()
      modifies this`busy, this`mode
      ensures View() == old(View()).(busy := b, mode := Ready)
    {
      busy, mode := b, Ready;
    }

    method ConfirmStep()
      requires Valid() && progbufLatch < SIZE
      requires BufferGoes(View()) ==> WordOf(pbStart) + BUFFER <= WORDS
      modifies this, mem
      ensures Valid() && View() == BufferConfirm(old(View()))
    {
      Begin(busy.(progbuf := true));
      var refused := Refuse(lock[progbufLatch / SECTOR],
                            suspended.program || suspended.progbuf || suspended.erase, false);
      if !refused { CommitPages(); }
      Finish(busy.(progbuf := false));
    }

    method Held(addr: word) returns (held: bool)
      requires Valid() && programLatch == addr
      ensures held == View().AddrSuspended(addr)
    {
      held := || (suspended.program && addr == programLatch)
              || (suspended.progbuf && pbStart <= addr < pbStart + pbCount)
              || (suspended.erase && addr / SECTOR == eraseLatch / SECTOR);
    }

    method AndWord(w: nat, data: word)
      requires Valid() && w < WORDS
      modifies mem
      ensures View() == old(View()).(mem := old(mem[..])[w := And(old(mem[w]), data)])
    {
      mem[w] := And(mem[w], data);
    }

    method ProgramStep(addr: word, data: word)
      requires Valid() && addr < SIZE
      modifies this, mem
      ensures Valid() && View() == ProgramWord(old(View()), addr, data)
    {
      Begin(busy.(program := true));
      programLatch := addr;
      var held := Held(addr);
      var refused := Refuse(lock[addr / SECTOR], held, false);
      if !refused { AndWord(addr / 4, data); }
      Finish(busy.(program := false));
    }

    method EraseWords(s: nat)
      requires Valid() && s < SECTORS
      modifies mem
      ensures View() == old(View()).(mem := EraseSector(old(mem[..]), s))
    {
      for i := 0 to SECTOR_WORDS
        invariant pbBuf[..] == old(pbBuf[..])
        invariant forall k :: s * SECTOR_WORDS <= k < s * SECTOR_WORDS + i ==> mem[k] == ONES
        invariant forall k :: 0 <= k < WORDS && !(s * SECTOR_WORDS <= k < s * SECTOR_WORDS + i) ==>
                    mem[k] == old(mem[k])
      {
        mem[s * SECTOR_WORDS + i] := ONES;
      }
      assert mem[..] == EraseSector(old(mem[..]), s);
    }

    method BeginErase(addr: word)
      requires Valid()
      modifies this`busy, this`eraseLatch, this`readMode
      ensures View() == old(View()).(busy := old(busy).(erase := true), readMode := ReadStatus,
                                     eraseLatch := addr / SECTOR * SECTOR)
    {
      busy, readMode := busy.(erase := true), ReadStatus;
      eraseLatch := addr / SECTOR * SECTOR;
    }

    method EraseStep(addr: word)
      requires Valid() && addr < SIZE
      modifies this, mem
      ensures Valid() && View() == EraseConfirm(old(View()), addr)
    {
      BeginErase(addr);
      var s := addr / SECTOR;
      var refused := Refuse(lock[s], suspended.program || suspended.progbuf || suspended.erase, true);
      if refused { Finish(busy.(erase := false)); return; }
      EraseWords(s);
      Finish(busy.(erase := false));
    }

    method SetLockStep(addr: word)
      requires Valid() && addr < SIZE
      modifies this, lock
      ensures Valid() && View() == SetLock(old(View()), addr)
    {
      Begin(busy.(locking := true));
      var refused := Refuse(false, suspended.program || suspended.progbuf || suspended.erase, false);
      if !refused { lock[addr / SECTOR] := true; }
      Finish(busy.(locking := false));
    }

    method ClearLocksStep()
      requires Valid()
      modifies this, lock
      ensures Valid() && View() == ClearAllLocks(old(View()))
    {
      Begin(busy.(locking := true));
      var refused := Refuse(false, suspended.program || suspended.progbuf || suspended.erase, true);
      if !refused { ClearLocks(); }
      Finish(busy.(locking := false));
    }

    /** The write does not continue the command sequence. */
    method Abandon(buffered: bool)
      requires Valid()
      modifies this`errors, this`mode
      ensures View() == if buffered then Failed(old(View())) else old(View()).(mode := Ready)
    {
      if buffered { errors := errors.(setlb := true, clearlb := true); }
      mode := Ready;
    }

    /** The word write handler. */
    method Write(addr: word, data: word)
      requires Valid() && WriteDefined(View(), addr, data)
      modifies this, mem, lock, pbBuf
      ensures Valid() && View() == WriteWord(old(View()), addr, data)
    {
      match mode
      case Ready => StartCommand(data);
      case InWriteBuffer =>
        if pbCount == 0 { CountStep(addr, data); }
        else if pbLoaded < pbCount { LoadStep(addr, data); }
        else if data % 256 == CONFIRM { ConfirmStep(); }
        else { Abandon(true); }
      case InProgram => ProgramStep(addr, data);
      case InErase =>
        if data % 256 == CONFIRM { EraseStep(addr); } else { Abandon(false); }
      case InLock =>
        if data % 256 == SET_LOCK { SetLockStep(addr); }
        else if data % 256 == CONFIRM { ClearLocksStep(); }
        else { Abandon(false); }
    }

    /** The word read handler, outside query mode. */
    method Read(addr: word) returns (data: word)
      requires Valid() && addr < SIZE && readMode != ReadQuery
      ensures data == ReadWord(View(), addr)
    {
      if readMode == ReadArray {
        data := mem[addr / 4];
      } else if readMode == ReadId {
        var temp := addr / 4 % 2;
        if temp == 0 { data := 0x89 * 0x1_0000 + 0x89; } else { data := 0x18 * 0x1_0000 + 0x18; }
      } else {
        var ready := !busy.program && !busy.progbuf && !busy.locking && !busy.erase;
        var x := Flag(ready, 128) + Flag(suspended.erase, 64) + Flag(errors.clearlb, 32)
               + Flag(errors.setlb, 16) + Flag(errors.volt, 8) + Flag(suspended.program, 4)
               + Flag(errors.protection, 2);
        data := x * 0x1_0000 + x;
      }
    }
  }
}
