/** Properties of the Intel flash over all command runs, and of whole programming sequences. */
module IntelFlashRuns {
  import opened Bits
  import opened IntelFlash

  datatype Event = Write(addr: word, data: word) | ResetLine

  predicate Defined(f: Flash, e: Event) {
    match e
    case Write(a, d) => WriteDefined(f, a, d)
    case ResetLine => f.Shaped()
  }

  function Step(f: Flash, e: Event): (g: Flash)
    requires Defined(f, e)
    ensures g.Shaped()
  {
    match e
    case Write(a, d) => WriteWord(f, a, d)
    case ResetLine => Reset(f)
  }

  predicate RunDefined(f: Flash, es: seq<Event>)
    decreases |es|
  {
    es == [] || (Defined(f, es[0]) && RunDefined(Step(f, es[0]), es[1..]))
  }

  function Run(f: Flash, es: seq<Event>): (g: Flash)
    requires RunDefined(f, es)
    ensures f.Shaped() ==> g.Shaped()
    decreases |es|
  {
    if es == [] then f else Run(Step(f, es[0]), es[1..])
  }

  // ----- The device is never busy between writes -----

  predicate Quiet(f: Flash) { f.busy == NOT_BUSY && f.suspended == NOT_SUSPENDED && f.vpen }

  lemma {:induction false} RunQuiet(f: Flash, es: seq<Event>)
    requires RunDefined(f, es) && Quiet(f)
    ensures Quiet(Run(f, es))
    decreases |es|
  {
    if es != [] { RunQuiet(Step(f, es[0]), es[1..]); }
  }

  /** After a reset and any run of writes and resets, status bit 7 of both chips reads 1. */
  lemma {:induction false} StatusReadsReady(f: Flash, es: seq<Event>)
    requires RunDefined(Reset(f), es)
    ensures Quiet(Run(Reset(f), es))
    ensures var x := BothChips(StatusByte(Run(Reset(f), es)));
            x / 0x80 % 2 == 1 && x / 0x80_0000 % 2 == 1
  {
    RunQuiet(Reset(f), es);
    var s: nat := StatusByte(Run(Reset(f), es));
    assert 128 <= s < 256;
    assert BothChips(s) / 0x80 == s * 0x200 + s / 0x80;
    assert BothChips(s) / 0x80_0000 == s / 0x80;
  }

  // ----- Every command sequence ends -----

  /** The buffer counters stay in range while a buffer program is open. */
  predicate Counting(f: Flash) {
    f.mode == InWriteBuffer && f.pbCount > 0 ==> f.pbCount <= BUFFER && f.pbLoaded <= f.pbCount
  }

  /** Writes needed at most until the state machine is ready again. */
  function Remaining(f: Flash): nat
    requires Counting(f)
  {
    match f.mode
    case Ready => 0
    case InWriteBuffer => if f.pbCount == 0 then BUFFER + 2 else f.pbCount - f.pbLoaded + 1
    case _ => 1
  }

  lemma {:induction false} WriteDecreases(f: Flash, a: word, d: word)
    requires WriteDefined(f, a, d) && Counting(f) && (f.mode == InWriteBuffer && f.pbCount == 0 ==> f.pbLoaded == 0)
    ensures var g := WriteWord(f, a, d);
            && Counting(g) && (g.mode == InWriteBuffer && g.pbCount == 0 ==> g.pbLoaded == 0)
            && Remaining(g) <= BUFFER + 2
            && (f.mode != Ready ==> Remaining(g) < Remaining(f))
  {
  }

  function Writes(ws: seq<(word, word)>): seq<Event> {
    seq(|ws|, i requires 0 <= i < |ws| => Write(ws[i].0, ws[i].1))
  }

  /** Some prefix of the writes leaves the state machine ready. */
  ghost predicate PassesReady(f: Flash, es: seq<Event>)
    requires RunDefined(f, es)
    decreases |es|
  {
    f.mode == Ready || (es != [] && PassesReady(Step(f, es[0]), es[1..]))
  }

  lemma {:induction false} PassesReadyWithin(f: Flash, ws: seq<(word, word)>)
    requires RunDefined(f, Writes(ws)) && Counting(f)
    requires f.mode == InWriteBuffer && f.pbCount == 0 ==> f.pbLoaded == 0
    requires |ws| >= Remaining(f)
    ensures PassesReady(f, Writes(ws))
    decreases |ws|
  {
    if f.mode != Ready {
      var es := Writes(ws);
      assert es[1..] == Writes(ws[1..]);
      WriteDecreases(f, ws[0].0, ws[0].1);
      PassesReadyWithin(Step(f, es[0]), ws[1..]);
    }
  }

  lemma {:induction false} RunCounts(f: Flash, es: seq<Event>)
    requires RunDefined(f, es) && Counting(f) && (f.mode == InWriteBuffer && f.pbCount == 0 ==> f.pbLoaded == 0)
    ensures var g := Run(f, es);
            Counting(g) && (g.mode == InWriteBuffer && g.pbCount == 0 ==> g.pbLoaded == 0)
    decreases |es|
  {
    if es != [] {
      match es[0]
      case Write(a, d) => WriteDecreases(f, a, d); RunCounts(Step(f, es[0]), es[1..]);
      case ResetLine => RunCounts(Step(f, es[0]), es[1..]);
    }
  }

  /** From any reachable state, any 18 consecutive word writes pass through the ready state. */
  lemma {:induction false} EighteenWritesReachReady(f: Flash, es: seq<Event>, ws: seq<(word, word)>)
    requires RunDefined(Reset(f), es) && RunDefined(Run(Reset(f), es), Writes(ws)) && |ws| == 18
    ensures PassesReady(Run(Reset(f), es), Writes(ws))
  {
    RunCounts(Reset(f), es);
    PassesReadyWithin(Run(Reset(f), es), ws);
  }

  // ----- Outside an erase, bits are only cleared -----

  ghost predicate Erodes(a: seq<word>, b: seq<word>) {
    |a| == |b| && forall i :: 0 <= i < |a| ==> BitsWithin(b[i], a[i])
  }

  /** The event erases a sector. */
  predicate Erases(f: Flash, e: Event)
    requires Defined(f, e)
  {
    e.Write? && f.mode == InErase && e.data % 256 == CONFIRM && EraseGoes(f, e.addr)
  }

  predicate NeverErases(f: Flash, es: seq<Event>)
    requires RunDefined(f, es)
    decreases |es|
  {
    es != [] ==> !Erases(f, es[0]) && NeverErases(Step(f, es[0]), es[1..])
  }

  lemma {:induction false} ErodesStep(f: Flash, e: Event)
    requires Defined(f, e) && !Erases(f, e)
    ensures Erodes(f.mem, Step(f, e).mem)
  {
    forall i | 0 <= i < |f.mem| ensures BitsWithin(Step(f, e).mem[i], f.mem[i]) {
      if Step(f, e).mem[i] != f.mem[i] {
        if f.mode == InProgram {
          AndWithin(f.mem[i], e.data);
        } else {
          AndWithin(f.mem[i], f.pbBuf[i % BUFFER]);
        }
      }
    }
  }

  lemma {:induction false} RunErodes(f: Flash, es: seq<Event>)
    requires RunDefined(f, es) && NeverErases(f, es)
    ensures Erodes(f.mem, Run(f, es).mem)
    decreases |es|
  {
    if es != [] {
      ErodesStep(f, es[0]);
      var g := Step(f, es[0]);
      RunErodes(g, es[1..]);
      forall i | 0 <= i < |f.mem| ensures BitsWithin(Run(f, es).mem[i], f.mem[i]) {
        assert BitsWithin(Run(g, es[1..]).mem[i], g.mem[i]) && BitsWithin(g.mem[i], f.mem[i]);
      }
    }
  }

  // ----- Lock bits -----

  /** The word lies in the 16-word window of the first load. */
  predicate InWindow(start: word, addr: word) { WordOf(start) <= WordOf(addr) < WordOf(start) + BUFFER }

  /** The event, if it is a later buffer load, stays in the window of the first load. */
  predicate WindowedLoad(f: Flash, e: Event) {
    e.Write? && f.mode == InWriteBuffer && 0 < f.pbLoaded < f.pbCount ==> InWindow(f.pbStart, e.addr)
  }

  /** The event clears lock bits. */
  predicate ClearsLocks(f: Flash, e: Event)
    requires Defined(f, e)
  {
    e == ResetLine || (f.mode == InLock && e.data % 256 == CONFIRM && LocksMove(f))
  }

  predicate KeepsRules(f: Flash, es: seq<Event>)
    requires RunDefined(f, es)
    decreases |es|
  {
    es != [] ==> WindowedLoad(f, es[0]) && !ClearsLocks(f, es[0]) && KeepsRules(Step(f, es[0]), es[1..])
  }

  /** Buffer entries for window words outside the latched sector are still all ones. */
  ghost predicate BufferInSector(f: Flash)
    requires |f.pbBuf| == BUFFER
  {
    f.mode == InWriteBuffer && f.pbCount > 0 ==>
      && (f.pbLoaded == 0 ==> f.pbBuf == OnesBuffer())
      && (f.pbLoaded > 0 ==> f.pbStart / SECTOR == f.progbufLatch / SECTOR)
      && forall j: nat | WordOf(f.pbStart) <= j < WordOf(f.pbStart) + BUFFER ::
           j / SECTOR_WORDS == f.progbufLatch / SECTOR || f.pbBuf[j % BUFFER] == ONES
  }

  /** Before the count is known the buffer is still all ones. */
  predicate FreshBuffer(f: Flash) {
    f.mode == InWriteBuffer && f.pbCount == 0 ==> f.pbBuf == OnesBuffer() && f.pbLoaded == 0
  }

  lemma {:induction false} WindowUnique(w: nat, i: nat, j: nat)
    requires w <= i < w + BUFFER && w <= j < w + BUFFER && i % BUFFER == j % BUFFER
    ensures i == j
  {
  }

  lemma {:induction false} LoadKeepsSector(f: Flash, addr: word, data: word)
    requires f.Shaped() && f.mode == InWriteBuffer && 0 < f.pbCount && f.pbLoaded < f.pbCount
    requires BufferInSector(f) && (f.pbLoaded > 0 ==> InWindow(f.pbStart, addr))
    ensures BufferInSector(BufferLoad(f, addr, data))
  {
    var g := BufferLoad(f, addr, data);
    if g.mode == InWriteBuffer {
      var w := WordOf(g.pbStart);
      forall j: nat | w <= j < w + BUFFER && j / SECTOR_WORDS != f.progbufLatch / SECTOR
        ensures g.pbBuf[j % BUFFER] == ONES
      {
        assert WordOf(addr) / SECTOR_WORDS == addr / SECTOR;
        if j % BUFFER == WordOf(addr) % BUFFER { WindowUnique(w, j, WordOf(addr)); }
      }
    }
  }

  /** The locked sector's words and its lock bit are the same in both states. */
  predicate SectorKept(f: Flash, g: Flash, s: nat)
    requires f.Shaped() && g.Shaped() && s < SECTORS
  {
    g.lock[s] && forall j :: s * SECTOR_WORDS <= j < (s + 1) * SECTOR_WORDS ==> g.mem[j] == f.mem[j]
  }

  lemma {:induction false} CommitKeepsLocked(f: Flash, s: nat)
    requires f.Shaped() && f.mode == InWriteBuffer && f.pbCount > 0 && f.progbufLatch < SIZE
    requires BufferInSector(f) && s < SECTORS && f.lock[s]
    ensures SectorKept(f, BufferConfirm(f), s)
  {
    forall j | s * SECTOR_WORDS <= j < (s + 1) * SECTOR_WORDS
      ensures BufferConfirm(f).mem[j] == f.mem[j]
    {
      assert j / SECTOR_WORDS == s;
      if BufferGoes(f) { WordOnes(f.mem[j]); }
    }
  }

  /** The facts about the buffer every run with windowed loads keeps. */
  ghost predicate BufferRules(f: Flash) { f.Shaped() && BufferInSector(f) && FreshBuffer(f) }

  lemma {:induction false} StepKeepsBuffer(f: Flash, e: Event)
    requires Defined(f, e) && BufferRules(f) && WindowedLoad(f, e)
    ensures BufferRules(Step(f, e))
  {
    if e.Write? && f.mode == InWriteBuffer && 0 < f.pbCount && f.pbLoaded < f.pbCount {
      LoadKeepsSector(f, e.addr, e.data);
    }
  }

  lemma {:induction false} WriteKeepsLocked(f: Flash, a: word, d: word, s: nat)
    requires WriteDefined(f, a, d) && s < SECTORS && f.lock[s]
    requires BufferRules(f) && !ClearsLocks(f, Write(a, d))
    ensures SectorKept(f, WriteWord(f, a, d), s)
  {
    match f.mode
    case InWriteBuffer =>
      if 0 < f.pbCount && f.pbLoaded >= f.pbCount && d % 256 == CONFIRM { CommitKeepsLocked(f, s); }
    case InProgram =>
      assert WordOf(a) / SECTOR_WORDS == a / SECTOR;
    case _ =>
  }

  predicate WindowedRun(f: Flash, es: seq<Event>)
    requires RunDefined(f, es)
    decreases |es|
  {
    es != [] ==> WindowedLoad(f, es[0]) && WindowedRun(Step(f, es[0]), es[1..])
  }

  lemma {:induction false} RunKeepsBuffer(f: Flash, es: seq<Event>)
    requires RunDefined(f, es) && WindowedRun(f, es) && BufferRules(f)
    ensures BufferRules(Run(f, es))
    decreases |es|
  {
    if es != [] {
      StepKeepsBuffer(f, es[0]);
      RunKeepsBuffer(Step(f, es[0]), es[1..]);
    }
  }

  lemma {:induction false} LockedUntilCleared(f: Flash, es: seq<Event>, s: nat)
    requires RunDefined(f, es) && KeepsRules(f, es) && BufferRules(f) && s < SECTORS && f.lock[s]
    ensures Run(f, es).Shaped() && SectorKept(f, Run(f, es), s)
    decreases |es|
  {
    if es != [] {
      WriteKeepsLocked(f, es[0].addr, es[0].data, s);
      StepKeepsBuffer(f, es[0]);
      LockedUntilCleared(Step(f, es[0]), es[1..], s);
    }
  }

  /** Over every command run from reset whose buffer loads stay in the window of the first load: once
      a sector is locked, it keeps its contents and its lock until locks are cleared. */
  lemma {:induction false} LockedSectorKept(f: Flash, before: seq<Event>, es: seq<Event>, s: nat)
    requires f.Shaped() && RunDefined(Reset(f), before) && WindowedRun(Reset(f), before)
    requires var g := Run(Reset(f), before);
             RunDefined(g, es) && KeepsRules(g, es) && g.Shaped() && s < SECTORS && g.lock[s]
    ensures var g := Run(Reset(f), before);
            Run(g, es).Shaped() && SectorKept(g, Run(g, es), s)
  {
    RunKeepsBuffer(Reset(f), before);
    LockedUntilCleared(Run(Reset(f), before), es, s);
  }

  // ----- A buffered program is the same words programmed one at a time -----

  datatype Load = Load(addr: word, data: word)

  function LoadEvents(ls: seq<Load>): seq<Event> {
    if ls == [] then [] else [Write(ls[0].addr, ls[0].data)] + LoadEvents(ls[1..])
  }

  /** 0xe8, the count, the loads, 0xd0. */
  function BufferedScript(latch: word, ls: seq<Load>): seq<Event>
    requires 0 < |ls| <= BUFFER
  {
    [Write(latch, WRITE_BUFFER), Write(latch, |ls| - 1)] + LoadEvents(ls) + [Write(latch, CONFIRM)]
  }

  /** 0x40 and the data word, for each load in turn. */
  function WordScript(ls: seq<Load>): seq<Event> {
    if ls == [] then []
    else [Write(ls[0].addr, PROGRAM), Write(ls[0].addr, ls[0].data)] + WordScript(ls[1..])
  }

  /** The write buffer after the loads. */
  function LoadBuf(buf: seq<word>, ls: seq<Load>): (r: seq<word>)
    requires |buf| == BUFFER
    ensures |r| == BUFFER
    decreases |ls|
  {
    if ls == [] then buf else LoadBuf(buf[WordOf(ls[0].addr) % BUFFER := ls[0].data], ls[1..])
  }

  /** Memory after ANDing each load into its word. */
  function Merge(mem: seq<word>, ls: seq<Load>): (r: seq<word>)
    requires |mem| == WORDS && forall i :: 0 <= i < |ls| ==> ls[i].addr < SIZE
    ensures |r| == WORDS
    decreases |ls|
  {
    if ls == [] then mem
    else Merge(mem[WordOf(ls[0].addr) := And(mem[WordOf(ls[0].addr)], ls[0].data)], ls[1..])
  }

  predicate SameSector(latch: word, ls: seq<Load>) {
    latch < SIZE && forall i :: 0 <= i < |ls| ==> ls[i].addr / SECTOR == latch / SECTOR
  }

  predicate Windowed(start: word, ls: seq<Load>) {
    forall i :: 0 <= i < |ls| ==> InWindow(start, ls[i].addr)
  }

  predicate DistinctWords(ls: seq<Load>) {
    forall i, j :: 0 <= i < j < |ls| ==> WordOf(ls[i].addr) != WordOf(ls[j].addr)
  }

  lemma {:induction false} RunConcat(f: Flash, es: seq<Event>, fs: seq<Event>)
    requires RunDefined(f, es) && RunDefined(Run(f, es), fs)
    ensures RunDefined(f, es + fs) && Run(f, es + fs) == Run(Run(f, es), fs)
    decreases |es|
  {
    if es == [] {
      assert es + fs == fs;
    } else {
      assert (es + fs)[1..] == es[1..] + fs;
      RunConcat(Step(f, es[0]), es[1..], fs);
    }
  }

  lemma {:induction false} Run1(f: Flash, e: Event)
    requires Defined(f, e)
    ensures RunDefined(f, [e]) && Run(f, [e]) == Step(f, e)
  {
    assert [e][1..] == [];
  }

  lemma {:induction false} Run2(f: Flash, a: Event, b: Event)
    requires Defined(f, a) && Defined(Step(f, a), b)
    ensures RunDefined(f, [a, b]) && Run(f, [a, b]) == Step(Step(f, a), b)
  {
    Run1(Step(f, a), b);
    assert [a, b][1..] == [b];
  }

  lemma {:induction false} LoadsFill(f: Flash, ls: seq<Load>)
    requires f.Shaped() && f.mode == InWriteBuffer && f.pbCount > 0 && f.pbLoaded + |ls| <= f.pbCount
    requires SameSector(f.progbufLatch, ls)
    ensures RunDefined(f, LoadEvents(ls))
    ensures Run(f, LoadEvents(ls))
         == f.(pbBuf := LoadBuf(f.pbBuf, ls), pbLoaded := f.pbLoaded + |ls|,
               pbStart := if f.pbLoaded == 0 && ls != [] then ls[0].addr else f.pbStart)
    decreases |ls|
  {
    if ls != [] {
      var e := LoadEvents(ls)[0];
      assert LoadEvents(ls)[1..] == LoadEvents(ls[1..]);
      assert ls[0].addr / SECTOR == f.progbufLatch / SECTOR;
      LoadsFill(Step(f, e), ls[1..]);
    }
  }

  lemma {:induction false} CommitOnes(mem: seq<word>, w: nat)
    ensures CommitBuffer(mem, w, OnesBuffer()) == mem
  {
    forall j | 0 <= j < |mem| ensures And(mem[j], ONES) == mem[j] { WordOnes(mem[j]); }
  }

  /** One more load before the commit is one more word ANDed after it. */
  lemma {:induction false} CommitOneLoad(mem: seq<word>, start: word, buf: seq<word>, l: Load)
    requires |mem| == WORDS && |buf| == BUFFER && l.addr < SIZE && InWindow(start, l.addr)
    requires buf[WordOf(l.addr) % BUFFER] == ONES
    ensures var w, c := WordOf(l.addr), CommitBuffer(mem, WordOf(start), buf);
            CommitBuffer(mem, WordOf(start), buf[w % BUFFER := l.data]) == c[w := And(c[w], l.data)]
  {
    var w, c := WordOf(l.addr), CommitBuffer(mem, WordOf(start), buf);
    WordOnes(mem[w]);
    forall j | WordOf(start) <= j < WordOf(start) + BUFFER && j != w ensures j % BUFFER != w % BUFFER {
      if j % BUFFER == w % BUFFER { WindowUnique(WordOf(start), j, w); }
    }
  }

  lemma {:induction false} CommitIsMerge(mem: seq<word>, start: word, buf: seq<word>, ls: seq<Load>)
    requires |mem| == WORDS && |buf| == BUFFER && forall i :: 0 <= i < |ls| ==> ls[i].addr < SIZE
    requires Windowed(start, ls) && DistinctWords(ls)
    requires forall i :: 0 <= i < |ls| ==> buf[WordOf(ls[i].addr) % BUFFER] == ONES
    ensures CommitBuffer(mem, WordOf(start), LoadBuf(buf, ls)) == Merge(CommitBuffer(mem, WordOf(start), buf), ls)
    decreases |ls|
  {
    if ls != [] {
      var buf1 := buf[WordOf(ls[0].addr) % BUFFER := ls[0].data];
      assert InWindow(start, ls[0].addr);
      CommitOneLoad(mem, start, buf, ls[0]);
      forall i | 0 <= i < |ls[1..]| ensures buf1[WordOf(ls[1..][i].addr) % BUFFER] == ONES {
        assert ls[1..][i] == ls[i + 1] && InWindow(start, ls[i + 1].addr);
        if WordOf(ls[i + 1].addr) % BUFFER == WordOf(ls[0].addr) % BUFFER {
          WindowUnique(WordOf(start), WordOf(ls[i + 1].addr), WordOf(ls[0].addr));
        }
      }
      CommitIsMerge(mem, start, buf1, ls[1..]);
    }
  }

  /** One word program on an unlocked sector. */
  lemma {:induction false} WordProgram(f: Flash, l: Load) returns (g: Flash)
    requires f.Shaped() && f.mode == Ready && Quiet(f) && l.addr < SIZE && !f.Locked(l.addr)
    ensures var es := [Write(l.addr, PROGRAM), Write(l.addr, l.data)]; RunDefined(f, es) && g == Run(f, es)
    ensures g.Shaped() && g.mode == Ready && Quiet(g) && g.lock == f.lock
    ensures g.mem == f.mem[WordOf(l.addr) := And(f.mem[WordOf(l.addr)], l.data)]
  {
    Run2(f, Write(l.addr, PROGRAM), Write(l.addr, l.data));
    g := Step(Step(f, Write(l.addr, PROGRAM)), Write(l.addr, l.data));
  }

  lemma {:induction false} WordsMerge(f: Flash, ls: seq<Load>, latch: word)
    requires f.Shaped() && f.mode == Ready && Quiet(f) && SameSector(latch, ls) && !f.Locked(latch)
    requires forall i :: 0 <= i < |ls| ==> ls[i].addr < SIZE
    ensures RunDefined(f, WordScript(ls)) && Run(f, WordScript(ls)).mem == Merge(f.mem, ls)
    decreases |ls|
  {
    if ls != [] {
      assert ls[0].addr / SECTOR == latch / SECTOR;
      var g := WordProgram(f, ls[0]);
      WordsMerge(g, ls[1..], latch);
      RunConcat(f, [Write(ls[0].addr, PROGRAM), Write(ls[0].addr, ls[0].data)], WordScript(ls[1..]));
    }
  }

  /** A buffered program the device takes: one sector, unlocked, window on the chip. */
  predicate Accepts(f: Flash, latch: word, ls: seq<Load>) {
    && f.Shaped() && f.mode == Ready && Quiet(f) && SameSector(latch, ls) && !f.Locked(latch)
    && 0 < |ls| <= BUFFER && latch / SECTOR == (latch + |ls| - 1) / SECTOR
    && (forall i :: 0 <= i < |ls| ==> ls[i].addr < SIZE)
    && WordOf(ls[0].addr) + BUFFER <= WORDS
  }

  /** Any buffered program, whatever its loads: the window of the first load ANDed with the loaded buffer. */
  lemma {:induction false} BufferedCommits(f: Flash, latch: word, ls: seq<Load>)
    requires Accepts(f, latch, ls)
    ensures RunDefined(f, BufferedScript(latch, ls))
    ensures Run(f, BufferedScript(latch, ls)).mem == CommitBuffer(f.mem, WordOf(ls[0].addr), LoadBuf(OnesBuffer(), ls))
  {
    var a, b, c := Write(latch, WRITE_BUFFER), Write(latch, |ls| - 1), Write(latch, CONFIRM);
    Run2(f, a, b);
    var f2 := Step(Step(f, a), b);
    LoadsFill(f2, ls);
    var f3 := Run(f2, LoadEvents(ls));
    Run1(f3, c);
    RunConcat(f2, LoadEvents(ls), [c]);
    RunConcat(f, [a, b], LoadEvents(ls) + [c]);
    assert BufferedScript(latch, ls) == [a, b] + (LoadEvents(ls) + [c]);
  }

  lemma {:induction false} BufferedMerges(f: Flash, latch: word, ls: seq<Load>)
    requires Accepts(f, latch, ls) && Windowed(ls[0].addr, ls) && DistinctWords(ls)
    ensures RunDefined(f, BufferedScript(latch, ls))
    ensures Run(f, BufferedScript(latch, ls)).mem == Merge(f.mem, ls)
  {
    BufferedCommits(f, latch, ls);
    CommitIsMerge(f.mem, ls[0].addr, OnesBuffer(), ls);
    CommitOnes(f.mem, WordOf(ls[0].addr));
  }

  /** Loads of distinct words in one window: the buffered program and the word programs end with the
      same memory, each loaded word ANDed with its data and every other word unchanged. */
  lemma {:induction false} BufferedEqualsWordByWord(f: Flash, latch: word, ls: seq<Load>)
    requires Accepts(f, latch, ls) && Windowed(ls[0].addr, ls) && DistinctWords(ls)
    ensures RunDefined(f, BufferedScript(latch, ls)) && RunDefined(f, WordScript(ls))
    ensures Run(f, BufferedScript(latch, ls)).mem == Run(f, WordScript(ls)).mem
    ensures var m := Run(f, BufferedScript(latch, ls)).mem;
            && |m| == WORDS
            && (forall i :: 0 <= i < |ls| ==>
                  m[WordOf(ls[i].addr)] == And(f.mem[WordOf(ls[i].addr)], ls[i].data))
            && (forall j :: 0 <= j < WORDS && (forall i :: 0 <= i < |ls| ==> WordOf(ls[i].addr) != j) ==>
                  m[j] == f.mem[j])
  {
    BufferedMerges(f, latch, ls);
    WordsMerge(f, ls, latch);
    MergeAt(f.mem, ls);
  }

  lemma {:induction false} MergeAt(mem: seq<word>, ls: seq<Load>)
    requires |mem| == WORDS && DistinctWords(ls) && forall i :: 0 <= i < |ls| ==> ls[i].addr < SIZE
    ensures forall i :: 0 <= i < |ls| ==>
              Merge(mem, ls)[WordOf(ls[i].addr)] == And(mem[WordOf(ls[i].addr)], ls[i].data)
    ensures forall j :: 0 <= j < WORDS && (forall i :: 0 <= i < |ls| ==> WordOf(ls[i].addr) != j) ==>
              Merge(mem, ls)[j] == mem[j]
    decreases |ls|
  {
    if ls != [] {
      var mem1 := mem[WordOf(ls[0].addr) := And(mem[WordOf(ls[0].addr)], ls[0].data)];
      MergeAt(mem1, ls[1..]);
      forall i | 0 <= i < |ls|
        ensures Merge(mem, ls)[WordOf(ls[i].addr)] == And(mem[WordOf(ls[i].addr)], ls[i].data)
      {
        if i > 0 { assert ls[1..][i - 1] == ls[i]; }
      }
      forall j | 0 <= j < WORDS && (forall i :: 0 <= i < |ls| ==> WordOf(ls[i].addr) != j)
        ensures Merge(mem, ls)[j] == mem[j]
      {
        forall i | 0 <= i < |ls[1..]| ensures WordOf(ls[1..][i].addr) != j { assert ls[1..][i] == ls[i + 1]; }
      }
    }
  }

  // ----- Why the window matters -----

  /** Programming the word would change it. */
  predicate Changes(mem: seq<word>, l: Load)
    requires |mem| == WORDS && l.addr < SIZE
  {
    And(mem[WordOf(l.addr)], l.data) != mem[WordOf(l.addr)]
  }

  /** For loads of distinct words that each change their word, the buffered program is the word programs
      exactly when every load lies in the window. */
  lemma {:induction false} SameIffWindowed(f: Flash, latch: word, ls: seq<Load>)
    requires Accepts(f, latch, ls) && DistinctWords(ls)
    requires forall i :: 0 <= i < |ls| ==> Changes(f.mem, ls[i])
    ensures RunDefined(f, BufferedScript(latch, ls)) && RunDefined(f, WordScript(ls))
    ensures Run(f, BufferedScript(latch, ls)).mem == Run(f, WordScript(ls)).mem <==> Windowed(ls[0].addr, ls)
  {
    BufferedCommits(f, latch, ls);
    WordsMerge(f, ls, latch);
    if Windowed(ls[0].addr, ls) {
      BufferedEqualsWordByWord(f, latch, ls);
    } else {
      var i :| 0 <= i < |ls| && !InWindow(ls[0].addr, ls[i].addr);
      MergeAt(f.mem, ls);
      OutsideWindow(f.mem, ls[0].addr, LoadBuf(OnesBuffer(), ls), WordOf(ls[i].addr));
      assert Changes(f.mem, ls[i]);
    }
  }

  lemma {:induction false} OutsideWindow(mem: seq<word>, start: word, buf: seq<word>, j: nat)
    requires |buf| == BUFFER && j < |mem| && !(WordOf(start) <= j < WordOf(start) + BUFFER)
    ensures CommitBuffer(mem, WordOf(start), buf)[j] == mem[j]
  {
  }

  /** The slot of the write buffer a load goes to. */
  function Slot(l: Load): nat { WordOf(l.addr) % BUFFER }

  /** Load i is the last one of its slot. */
  predicate LastInSlot(ls: seq<Load>, i: int) {
    0 <= i < |ls| && forall k :: i < k < |ls| ==> Slot(ls[k]) != Slot(ls[i])
  }

  /** The buffer holds, for each slot, the data of its last load. */
  lemma {:induction false} LoadBufAt(buf: seq<word>, ls: seq<Load>, s: nat)
    requires |buf| == BUFFER && s < BUFFER
    ensures LoadBuf(buf, ls)[s] == buf[s] || exists i :: LastInSlot(ls, i) && Slot(ls[i]) == s
    ensures forall i :: LastInSlot(ls, i) && Slot(ls[i]) == s ==> LoadBuf(buf, ls)[s] == ls[i].data
    decreases |ls|
  {
    if ls != [] {
      var buf1, rest := buf[Slot(ls[0]) := ls[0].data], ls[1..];
      LoadBufAt(buf1, rest, s);
      forall i | LastInSlot(rest, i) && Slot(rest[i]) == s ensures LastInSlot(ls, i + 1) && Slot(ls[i + 1]) == s {
        assert forall k :: i + 1 < k < |ls| ==> ls[k] == rest[k - 1];
      }
      forall i | LastInSlot(ls, i) && Slot(ls[i]) == s ensures LoadBuf(buf, ls)[s] == ls[i].data {
        LastInTail(ls, i, buf1, s);
      }
      if Slot(ls[0]) == s && !LastInSlot(ls, 0) {
        var i := LastOf(rest, s);
      }
    }
  }

  /** The last load of a slot that some load uses. */
  lemma {:induction false} LastOf(ls: seq<Load>, s: nat) returns (i: int)
    requires exists k :: 0 <= k < |ls| && Slot(ls[k]) == s
    ensures LastInSlot(ls, i) && Slot(ls[i]) == s
    decreases |ls|
  {
    var n := |ls| - 1;
    if Slot(ls[n]) == s {
      i := n;
    } else {
      i := LastOf(ls[..n], s);
    }
  }

  lemma {:induction false} LastInTail(ls: seq<Load>, i: int, buf: seq<word>, s: nat)
    requires LastInSlot(ls, i) && Slot(ls[i]) == s < BUFFER && |buf| == BUFFER && buf[Slot(ls[0])] == ls[0].data
    requires forall k :: LastInSlot(ls[1..], k) && Slot(ls[1..][k]) == s ==> LoadBuf(buf, ls[1..])[s] == ls[1..][k].data
    ensures LoadBuf(buf, ls[1..])[s] == ls[i].data
  {
    if i > 0 {
      assert forall k :: i < k < |ls| ==> ls[1..][k - 1] == ls[k];
      assert LastInSlot(ls[1..], i - 1);
    } else {
      NoLoad(buf, ls[1..], s);
    }
  }

  lemma {:induction false} NoLoad(buf: seq<word>, ls: seq<Load>, s: nat)
    requires |buf| == BUFFER && s < BUFFER && forall k :: 0 <= k < |ls| ==> Slot(ls[k]) != s
    ensures LoadBuf(buf, ls)[s] == buf[s]
    decreases |ls|
  {
    if ls != [] { NoLoad(buf[Slot(ls[0]) := ls[0].data], ls[1..], s); }
  }

  /** The window word that slot s is committed to. */
  function Landing(w: nat, s: nat): nat {
    if s >= w % BUFFER then w / BUFFER * BUFFER + s else (w / BUFFER + 1) * BUFFER + s
  }

  lemma {:induction false} LandingIs(w: nat, j: nat, s: nat)
    requires s < BUFFER
    ensures w <= Landing(w, s) < w + BUFFER && Landing(w, s) % BUFFER == s
    ensures w <= j < w + BUFFER && j % BUFFER == s ==> j == Landing(w, s)
  {
    var p, q := w / BUFFER, w % BUFFER;
    InBlock(p, q);
    if s >= q { InBlock(p, s); } else { InBlock(p + 1, s); }
    if w <= j < w + BUFFER && j % BUFFER == s { WindowUnique(w, j, Landing(w, s)); }
  }

  /** No load goes to word j. */
  predicate Unloaded(ls: seq<Load>, j: nat) { forall k :: 0 <= k < |ls| ==> WordOf(ls[k].addr) != j }

  /** Load i, as committed, leaves in the word it lands on what the load of that word would leave there, or nothing
      new if that word is not loaded. */
  predicate LandsWell(mem: seq<word>, ls: seq<Load>, i: int)
    requires |mem| == WORDS && 0 <= i < |ls|
  {
    var j := Landing(WordOf(ls[0].addr), Slot(ls[i]));
    && (j < WORDS && Unloaded(ls, j) ==> And(mem[j], ls[i].data) == mem[j])
    && forall k :: 0 <= k < |ls| && WordOf(ls[k].addr) == j < WORDS ==>
                     And(mem[j], ls[i].data) == And(mem[j], ls[k].data)
  }

  /** A load outside the window would not have changed its word. */
  predicate Idle(mem: seq<word>, ls: seq<Load>, i: int)
    requires |mem| == WORDS && 0 <= i < |ls| && ls[i].addr < SIZE
  {
    InWindow(ls[0].addr, ls[i].addr) || !Changes(mem, ls[i])
  }

  /** One window word: the commit and the word programs agree on it exactly when the last load of its slot, if
      there is one, lands well. */
  lemma {:induction false} AgreeInWindow(mem: seq<word>, ls: seq<Load>, j: nat)
    requires ls != [] && |mem| == WORDS && DistinctWords(ls) && forall i :: 0 <= i < |ls| ==> ls[i].addr < SIZE
    requires WordOf(ls[0].addr) <= j < WordOf(ls[0].addr) + BUFFER && j < WORDS
    ensures CommitBuffer(mem, WordOf(ls[0].addr), LoadBuf(OnesBuffer(), ls))[j] == Merge(mem, ls)[j]
            <==> forall i :: LastInSlot(ls, i) && Slot(ls[i]) == j % BUFFER ==> LandsWell(mem, ls, i)
  {
    var w, s := WordOf(ls[0].addr), j % BUFFER;
    LoadBufAt(OnesBuffer(), ls, s);
    MergeAt(mem, ls);
    LandingIs(w, j, s);
    WordOnes(mem[j]);
    if exists i :: LastInSlot(ls, i) && Slot(ls[i]) == s {
      var i :| LastInSlot(ls, i) && Slot(ls[i]) == s;
      LastUnique(ls, i, s);
      LandingDecides(mem, ls, i, j);
    } else {
      forall k | 0 <= k < |ls| ensures WordOf(ls[k].addr) != j { SlotHasLast(ls, k, s); }
      assert Unloaded(ls, j);
    }
  }

  lemma {:induction false} SlotHasLast(ls: seq<Load>, k: int, s: nat)
    requires 0 <= k < |ls| && !exists i :: LastInSlot(ls, i) && Slot(ls[i]) == s
    ensures Slot(ls[k]) != s
  {
    if Slot(ls[k]) == s { var i := LastOf(ls, s); }
  }

  lemma {:induction false} LastUnique(ls: seq<Load>, i: int, s: nat)
    requires LastInSlot(ls, i) && Slot(ls[i]) == s
    ensures forall k :: LastInSlot(ls, k) && Slot(ls[k]) == s ==> k == i
  {
  }

  lemma {:induction false} LandingDecides(mem: seq<word>, ls: seq<Load>, i: int, j: nat)
    requires 0 <= i < |ls| && |mem| == WORDS && DistinctWords(ls) && forall i :: 0 <= i < |ls| ==> ls[i].addr < SIZE
    requires j == Landing(WordOf(ls[0].addr), Slot(ls[i])) < WORDS
    ensures And(mem[j], ls[i].data) == Merge(mem, ls)[j] <==> LandsWell(mem, ls, i)
  {
    MergeAt(mem, ls);
    if !Unloaded(ls, j) {
      var k :| 0 <= k < |ls| && WordOf(ls[k].addr) == j;
      assert forall m :: 0 <= m < |ls| && WordOf(ls[m].addr) == j ==> m == k;
    }
  }

  /** For any loads of distinct words: the buffered program and the word programs end with the same memory exactly
      when the loads outside the window would not have changed their words and the last load of each slot lands
      well. */
  lemma {:induction false} SameIffLandsWell(f: Flash, latch: word, ls: seq<Load>)
    requires Accepts(f, latch, ls) && DistinctWords(ls)
    ensures RunDefined(f, BufferedScript(latch, ls)) && RunDefined(f, WordScript(ls))
    ensures Run(f, BufferedScript(latch, ls)).mem == Run(f, WordScript(ls)).mem
            <==> (forall i :: 0 <= i < |ls| ==> Idle(f.mem, ls, i))
                 && (forall i :: LastInSlot(ls, i) ==> LandsWell(f.mem, ls, i))
  {
    BufferedCommits(f, latch, ls);
    WordsMerge(f, ls, latch);
    MergeAt(f.mem, ls);
    var w, buf := WordOf(ls[0].addr), LoadBuf(OnesBuffer(), ls);
    var m, n := CommitBuffer(f.mem, w, buf), Merge(f.mem, ls);
    forall j | w <= j < w + BUFFER
      ensures m[j] == n[j] <==> forall i :: LastInSlot(ls, i) && Slot(ls[i]) == j % BUFFER ==> LandsWell(f.mem, ls, i)
    {
      AgreeInWindow(f.mem, ls, j);
    }
    if m == n {
      forall i | LastInSlot(ls, i) ensures LandsWell(f.mem, ls, i) { LandingIs(w, 0, Slot(ls[i])); }
      forall i | 0 <= i < |ls| ensures Idle(f.mem, ls, i) { IdleIf(f.mem, ls, i); }
    }
    if && (forall i :: 0 <= i < |ls| ==> Idle(f.mem, ls, i))
       && (forall i :: LastInSlot(ls, i) ==> LandsWell(f.mem, ls, i)) {
      forall j | 0 <= j < WORDS ensures m[j] == n[j] {
        if !(w <= j < w + BUFFER) { AgreeOutside(f.mem, ls, j); }
      }
      assert m == n;
    }
  }

  lemma {:induction false} IdleIf(mem: seq<word>, ls: seq<Load>, i: int)
    requires |mem| == WORDS && 0 <= i < |ls| && DistinctWords(ls) && forall i :: 0 <= i < |ls| ==> ls[i].addr < SIZE
    requires CommitBuffer(mem, WordOf(ls[0].addr), LoadBuf(OnesBuffer(), ls)) == Merge(mem, ls)
    ensures Idle(mem, ls, i)
  {
    MergeAt(mem, ls);
    if !InWindow(ls[0].addr, ls[i].addr) {
      OutsideWindow(mem, ls[0].addr, LoadBuf(OnesBuffer(), ls), WordOf(ls[i].addr));
    }
  }

  lemma {:induction false} AgreeOutside(mem: seq<word>, ls: seq<Load>, j: nat)
    requires ls != [] && |mem| == WORDS && DistinctWords(ls) && forall i :: 0 <= i < |ls| ==> ls[i].addr < SIZE
    requires j < WORDS && !(WordOf(ls[0].addr) <= j < WordOf(ls[0].addr) + BUFFER)
    requires forall i :: 0 <= i < |ls| ==> Idle(mem, ls, i)
    ensures CommitBuffer(mem, WordOf(ls[0].addr), LoadBuf(OnesBuffer(), ls))[j] == Merge(mem, ls)[j]
  {
    MergeAt(mem, ls);
    OutsideWindow(mem, ls[0].addr, LoadBuf(OnesBuffer(), ls), j);
    if !Unloaded(ls, j) {
      var k :| 0 <= k < |ls| && WordOf(ls[k].addr) == j;
      assert Idle(mem, ls, k);
    }
  }

  /** A window word of another sector than the window's first word: the sector ends at the next multiple of 16
      after the start, and the word's slot is below the start's. */
  lemma {:induction false} Crossing(w: nat, j: nat)
    requires w <= j < w + BUFFER
    ensures j / SECTOR_WORDS != w / SECTOR_WORDS
            <==> (w / BUFFER + 1) * BUFFER % SECTOR_WORDS == 0 && j % BUFFER < w % BUFFER
    ensures j % BUFFER < w % BUFFER ==> j == (w / BUFFER + 1) * BUFFER + j % BUFFER
  {
    var p, q := w / BUFFER, w % BUFFER;
    InBlock(p, q);
    NextSector(p);
    if j < (p + 1) * BUFFER {
      InBlock(p, j - p * BUFFER);
    } else {
      InBlock(p + 1, j - (p + 1) * BUFFER);
    }
  }

  /** Sectors are whole 16-word blocks. */
  lemma {:induction false} InBlock(p: nat, r: nat)
    requires r < BUFFER
    ensures (p * BUFFER + r) / BUFFER == p && (p * BUFFER + r) % BUFFER == r
    ensures (p * BUFFER + r) / SECTOR_WORDS == p / 0x1000
  {
    var x := p * BUFFER + r;
    assert x / BUFFER == p;
    assert p == 0x1000 * (p / 0x1000) + p % 0x1000;
    assert x == SECTOR_WORDS * (p / 0x1000) + (p % 0x1000 * BUFFER + r);
  }

  lemma {:induction false} NextSector(p: nat)
    ensures (p + 1) * BUFFER % SECTOR_WORDS == 0 <==> (p + 1) / 0x1000 != p / 0x1000
  {
    var a, r := p / 0x1000, p % 0x1000;
    assert p == 0x1000 * a + r;
    if r == 0xfff {
      assert p + 1 == 0x1000 * (a + 1);
      assert (p + 1) * BUFFER == SECTOR_WORDS * (a + 1);
    } else {
      assert (p + 1) * BUFFER == SECTOR_WORDS * a + (r + 1) * BUFFER;
    }
  }

  /** Load i ends in the next sector: the window reaches that sector, the load's slot lies below the start's, no
      later load takes the slot, and its data clears a bit there. */
  predicate Spills(mem: seq<word>, ls: seq<Load>, i: int)
    requires ls != []
  {
    var w := WordOf(ls[0].addr);
    var next := (w / BUFFER + 1) * BUFFER;
    && LastInSlot(ls, i) && next % SECTOR_WORDS == 0 && Slot(ls[i]) < w % BUFFER
    && next + Slot(ls[i]) < |mem|
    && And(mem[next + Slot(ls[i])], ls[i].data) != mem[next + Slot(ls[i])]
  }

  /** A buffered program changes a word of another sector exactly when one of its loads spills. */
  lemma {:induction false} OtherSectorIffSpills(f: Flash, latch: word, ls: seq<Load>)
    requires Accepts(f, latch, ls)
    ensures RunDefined(f, BufferedScript(latch, ls))
    ensures var m := Run(f, BufferedScript(latch, ls)).mem;
            (exists j :: 0 <= j < |m| == WORDS && j / SECTOR_WORDS != latch / SECTOR && m[j] != f.mem[j])
            <==> exists i :: Spills(f.mem, ls, i)
  {
    BufferedCommits(f, latch, ls);
    var m := Run(f, BufferedScript(latch, ls)).mem;
    assert WordOf(ls[0].addr) / SECTOR_WORDS == latch / SECTOR;
    forall j | 0 <= j < WORDS && j / SECTOR_WORDS != latch / SECTOR && m[j] != f.mem[j]
      ensures exists i :: Spills(f.mem, ls, i)
    {
      var i := ChangedBySpill(f.mem, ls, j);
    }
    forall i | Spills(f.mem, ls, i)
      ensures exists j :: 0 <= j < WORDS && j / SECTOR_WORDS != latch / SECTOR && m[j] != f.mem[j]
    {
      var j := SpillChanges(f.mem, ls, i);
    }
  }

  lemma {:induction false} ChangedBySpill(mem: seq<word>, ls: seq<Load>, j: nat) returns (i: int)
    requires ls != [] && |mem| == WORDS && j < WORDS && j / SECTOR_WORDS != WordOf(ls[0].addr) / SECTOR_WORDS
    requires CommitBuffer(mem, WordOf(ls[0].addr), LoadBuf(OnesBuffer(), ls))[j] != mem[j]
    ensures Spills(mem, ls, i)
  {
    Crossing(WordOf(ls[0].addr), j);
    LoadBufAt(OnesBuffer(), ls, j % BUFFER);
    WordOnes(mem[j]);
    i :| LastInSlot(ls, i) && Slot(ls[i]) == j % BUFFER;
  }

  lemma {:induction false} SpillChanges(mem: seq<word>, ls: seq<Load>, i: int) returns (j: nat)
    requires ls != [] && |mem| == WORDS && Spills(mem, ls, i)
    ensures j < WORDS && j / SECTOR_WORDS != WordOf(ls[0].addr) / SECTOR_WORDS
    ensures CommitBuffer(mem, WordOf(ls[0].addr), LoadBuf(OnesBuffer(), ls))[j] != mem[j]
  {
    var w, s := WordOf(ls[0].addr), Slot(ls[i]);
    j := (w / BUFFER + 1) * BUFFER + s;
    NextBlock(w, s);
    Crossing(w, j);
    LoadBufAt(OnesBuffer(), ls, s);
  }

  lemma {:induction false} NextBlock(w: nat, s: nat)
    requires s < w % BUFFER
    ensures var j := (w / BUFFER + 1) * BUFFER + s; w <= j < w + BUFFER && j % BUFFER == s
  {
    var p, q := w / BUFFER, w % BUFFER;
    assert w == p * BUFFER + q;
  }

  /** A second load before the first one escapes into the next sector, even a locked one: word 0x10000
      is programmed although both loads went to sector 0. */
  lemma {:induction false} StrayLoadHitsLockedSector(f: Flash, data: word)
    requires f.Shaped() && f.mode == Ready && Quiet(f) && !f.lock[0] && f.lock[1]
    ensures var ls := [Load(0x3_fffc, ONES), Load(0, data)];
            && SameSector(0, ls) && !Windowed(ls[0].addr, ls)
            && RunDefined(f, BufferedScript(0, ls))
            && Run(f, BufferedScript(0, ls)).mem[0x1_0000] == And(f.mem[0x1_0000], data)
  {
    var ls := [Load(0x3_fffc, ONES), Load(0, data)];
    assert !InWindow(ls[0].addr, ls[1].addr);
    BufferedCommits(f, 0, ls);
    LoadBufAt(OnesBuffer(), ls, 0);
    assert LastInSlot(ls, 1) && Slot(ls[1]) == 0;
  }
}
