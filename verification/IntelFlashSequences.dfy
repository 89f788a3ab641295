/** Whole command sequences of the Intel flash: what each leaves in memory and lock bits, and what the next read of
    the status shows. */
module IntelFlashSequences {
  import opened Bits
  import opened IntelFlash
  import opened IntelFlashRuns

  /** Ready, with no operation pending and no error recorded. */
  predicate Idling(f: Flash) { f.Shaped() && f.mode == Ready && Quiet(f) && f.errors == NO_ERRORS }

  /** What a read at any address shows in status mode. */
  predicate Shows(f: Flash, x: word) {
    f.Shaped() && f.readMode == ReadStatus && forall a: word :: a < SIZE ==> ReadWord(f, a) == x
  }

  predicate SameArray(f: Flash, g: Flash) { g.mem == f.mem && g.lock == f.lock }

  // ----- Erasing -----

  /** 0x20 and 0xd0 in a sector that is not locked set each of its words to all ones and leave every other word. */
  lemma {:induction false} EraseSequence(f: Flash, a: word)
    requires f.Shaped() && f.mode == Ready && Quiet(f) && a < SIZE && !f.Locked(a)
    ensures var es := [Write(a, 0x20), Write(a, 0xd0)];
            && RunDefined(f, es) && Run(f, es).mode == Ready && Run(f, es).lock == f.lock && |Run(f, es).mem| == |f.mem|
            && forall j :: 0 <= j < |f.mem| ==>
                 Run(f, es).mem[j] == if j / 0x1_0000 == a / 0x4_0000 then 0xffff_ffff else f.mem[j]
  {
    Run2(f, Write(a, 0x20), Write(a, 0xd0));
  }

  /** In a locked sector they leave everything and report erase and protection errors. */
  lemma {:induction false} EraseLocked(f: Flash, a: word)
    requires Idling(f) && a < SIZE && f.Locked(a)
    ensures var es := [Write(a, 0x20), Write(a, 0xd0)];
            RunDefined(f, es) && SameArray(f, Run(f, es)) && Run(f, es).mode == Ready && Shows(Run(f, es), 0xa2_00a2)
  {
    Run2(f, Write(a, 0x20), Write(a, 0xd0));
  }

  /** Without the confirmation nothing happens. */
  lemma {:induction false} EraseUnconfirmed(f: Flash, a: word, d: word)
    requires Idling(f) && a < SIZE && d % 256 != 0xd0
    ensures var es := [Write(a, 0x20), Write(a, d)]; RunDefined(f, es) && Run(f, es) == f
  {
    Run2(f, Write(a, 0x20), Write(a, d));
  }

  // ----- Programming a word -----

  lemma {:induction false} ProgramOpens(f: Flash, cmd: word, a: word)
    requires Idling(f) && a < SIZE && (cmd == 0x40 || cmd == 0x10)
    ensures Defined(f, Write(a, cmd)) && Step(f, Write(a, cmd)) == f.(mode := InProgram)
  {
  }

  lemma {:induction false} ProgramEnds(f: Flash, a: word, d: word)
    requires f.Shaped() && f.mode == InProgram && Quiet(f) && f.errors == NO_ERRORS && a < SIZE && !f.Locked(a)
    ensures Defined(f, Write(a, d))
    ensures var g := Step(f, Write(a, d));
            Shows(g, 0x80_0080) && g.mode == Ready && g.lock == f.lock && g.mem == f.mem[a / 4 := And(f.mem[a / 4], d)]
  {
  }

  lemma {:induction false} ProgramRun(f: Flash, cmd: word, a: word, d: word)
    requires Idling(f) && a < SIZE && !f.Locked(a) && (cmd == 0x40 || cmd == 0x10)
    ensures var es := [Write(a, cmd), Write(a, d)];
            && RunDefined(f, es) && Shows(Run(f, es), 0x80_0080)
            && Run(f, es).mode == Ready && Run(f, es).lock == f.lock
            && Run(f, es).mem == f.mem[a / 4 := And(f.mem[a / 4], d)]
  {
    ProgramOpens(f, cmd, a);
    ProgramEnds(f.(mode := InProgram), a, d);
    Run2(f, Write(a, cmd), Write(a, d));
  }

  /** 0x40 or 0x10 and a word: in an unlocked sector each bit of the word stays set exactly when it was and the data
      has it set; the status then shows success. */
  lemma {:induction false} ProgramSequence(f: Flash, cmd: word, a: word, d: word)
    requires Idling(f) && a < SIZE && !f.Locked(a) && (cmd == 0x40 || cmd == 0x10)
    ensures var es := [Write(a, cmd), Write(a, d)];
            && RunDefined(f, es) && Shows(Run(f, es), 0x80_0080)
            && Run(f, es).mode == Ready && Run(f, es).lock == f.lock
            && |Run(f, es).mem| == |f.mem|
            && (forall k: nat :: BitOf(Run(f, es).mem[a / 4], k) == (BitOf(f.mem[a / 4], k) && BitOf(d, k)))
            && (forall j :: 0 <= j < |f.mem| && j != a / 4 ==> Run(f, es).mem[j] == f.mem[j])
  {
    ProgramRun(f, cmd, a, d);
    forall k: nat ensures BitOf(And(f.mem[a / 4], d), k) == (BitOf(f.mem[a / 4], k) && BitOf(d, k)) {
      AndBits(f.mem[a / 4], d, k);
    }
  }

  lemma {:induction false} ProgramLocked(f: Flash, cmd: word, a: word, d: word)
    requires Idling(f) && a < SIZE && f.Locked(a) && (cmd == 0x40 || cmd == 0x10)
    ensures var es := [Write(a, cmd), Write(a, d)];
            RunDefined(f, es) && SameArray(f, Run(f, es)) && Run(f, es).mode == Ready && Shows(Run(f, es), 0x92_0092)
  {
    Run2(f, Write(a, cmd), Write(a, d));
  }

  // ----- Lock bits -----

  /** 0x60 and 0x01 lock exactly the addressed sector. */
  lemma {:induction false} LockSequence(f: Flash, a: word)
    requires Idling(f) && a < SIZE
    ensures var es := [Write(a, 0x60), Write(a, 0x01)];
            && RunDefined(f, es) && Run(f, es).mem == f.mem && Shows(Run(f, es), 0x80_0080) && Run(f, es).mode == Ready
            && forall s :: 0 <= s < 128 ==> Run(f, es).lock[s] == (s == a / 0x4_0000 || f.lock[s])
  {
    Run2(f, Write(a, 0x60), Write(a, 0x01));
  }

  /** 0x60 and 0xd0 unlock every sector, whatever the address. */
  lemma {:induction false} UnlockSequence(f: Flash, a: word)
    requires Idling(f) && a < SIZE
    ensures var es := [Write(a, 0x60), Write(a, 0xd0)];
            && RunDefined(f, es) && Run(f, es).mem == f.mem && Shows(Run(f, es), 0x80_0080) && Run(f, es).mode == Ready
            && forall s :: 0 <= s < 128 ==> !Run(f, es).lock[s]
  {
    Run2(f, Write(a, 0x60), Write(a, 0xd0));
  }

  /** Anything else after 0x60 does nothing. */
  lemma {:induction false} LockUnconfirmed(f: Flash, a: word, d: word)
    requires Idling(f) && a < SIZE && d % 256 != 0x01 && d % 256 != 0xd0
    ensures var es := [Write(a, 0x60), Write(a, d)]; RunDefined(f, es) && Run(f, es) == f
  {
    Run2(f, Write(a, 0x60), Write(a, d));
  }

  // ----- Buffered programs that are refused -----

  /** The count is taken exactly when it is at most 16 words and does not leave the sector; else the sequence ends
      with both error bits. */
  lemma {:induction false} CountTaken(f: Flash, a: word, d: word)
    requires Idling(f) && a < SIZE
    ensures var es := [Write(a, 0xe8), Write(a, d)];
            && RunDefined(f, es) && SameArray(f, Run(f, es))
            && (if d % 256 < 16 && a / 0x4_0000 == (a + d % 256) / 0x4_0000
                then Run(f, es).mode == InWriteBuffer && Shows(Run(f, es), 0x80_0080)
                else Run(f, es).mode == Ready && Shows(Run(f, es), 0xb0_00b0))
  {
    Run2(f, Write(a, 0xe8), Write(a, d));
  }

  /** The device with a buffer opened for n words at address a, k of them loaded. */
  predicate Buffering(f: Flash, a: word, n: nat, k: nat) {
    && f.Shaped() && f.mode == InWriteBuffer && Quiet(f) && f.errors == NO_ERRORS && f.readMode == ReadStatus
    && a < SIZE && f.progbufLatch == a && f.pbCount == n && f.pbLoaded == k && 0 < n
  }

  /** A load in another sector ends the sequence with both error bits. */
  lemma {:induction false} LoadElsewhere(f: Flash, a: word, n: nat, k: nat, b: word, d: word)
    requires Buffering(f, a, n, k) && k < n && b < SIZE && b / 0x4_0000 != a / 0x4_0000
    ensures Defined(f, Write(b, d))
    ensures var g := Step(f, Write(b, d)); SameArray(f, g) && g.mode == Ready && Shows(g, 0xb0_00b0)
  {
  }

  /** So does anything but 0xd0 once the loads are done. */
  lemma {:induction false} CommitUnconfirmed(f: Flash, a: word, n: nat, b: word, d: word)
    requires Buffering(f, a, n, n) && b < SIZE && d % 256 != 0xd0
    ensures Defined(f, Write(b, d))
    ensures var g := Step(f, Write(b, d)); SameArray(f, g) && g.mode == Ready && Shows(g, 0xb0_00b0)
  {
  }

  /** The commit in a locked sector leaves everything and reports program and protection errors. */
  lemma {:induction false} CommitLocked(f: Flash, a: word, n: nat, b: word)
    requires Buffering(f, a, n, n) && b < SIZE && f.Locked(a)
    ensures Defined(f, Write(b, 0xd0))
    ensures var g := Step(f, Write(b, 0xd0)); SameArray(f, g) && g.mode == Ready && Shows(g, 0x92_0092)
  {
  }

  // ----- Read modes and errors -----

  /** What a read shows after each read command: the memory, the two identification codes, or the status. */
  lemma {:induction false} ReadCommands(f: Flash, x: word, d: word, a: word)
    requires Idling(f) && x < SIZE && a < SIZE
    ensures Defined(f, Write(x, d))
    ensures var g := Step(f, Write(x, d));
            && (d % 256 in {0xff, 0x70, 0x90, 0x50} ==> SameArray(f, g) && g.mode == Ready && g.readMode != ReadQuery)
            && (d % 256 == 0xff || d % 256 == 0x50 ==> ReadWord(g, a) == f.mem[a / 4])
            && (d % 256 == 0x70 ==> ReadWord(g, a) == 0x80_0080)
            && (d % 256 == 0x90 ==> ReadWord(g, a) == if a / 4 % 2 == 0 then 0x89_0089 else 0x18_0018)
  {
  }

  /** The identification mode never shows a lock bit: whatever the locks, a read there depends on the parity of the
      word address alone. */
  lemma {:induction false} IdentificationHidesLocks(f: Flash, lock: seq<bool>, a: word, b: word)
    requires f.Shaped() && f.readMode == ReadId && |lock| == SECTORS && a < SIZE && b < SIZE && a / 4 % 2 == b / 4 % 2
    ensures ReadWord(f.(lock := lock), a) == ReadWord(f, b)
  {
  }

  /** No recorded error is missing from the later ones. */
  predicate ErrorsWithin(a: Errors, b: Errors) {
    && (a.protection ==> b.protection) && (a.setlb ==> b.setlb) && (a.clearlb ==> b.clearlb) && (a.volt ==> b.volt)
  }

  /** The event clears the error bits. */
  predicate ClearsErrors(f: Flash, e: Event) { e == ResetLine || (f.mode == Ready && e.data % 256 == 0x50) }

  predicate NeverClears(f: Flash, es: seq<Event>)
    requires RunDefined(f, es)
    decreases |es|
  {
    es != [] ==> !ClearsErrors(f, es[0]) && NeverClears(Step(f, es[0]), es[1..])
  }

  /** Errors stay recorded over every run until they are cleared. */
  lemma {:induction false} ErrorsStick(f: Flash, es: seq<Event>)
    requires RunDefined(f, es) && NeverClears(f, es)
    ensures ErrorsWithin(f.errors, Run(f, es).errors)
    decreases |es|
  {
    if es != [] {
      ErrorsStep(f, es[0]);
      ErrorsStick(Step(f, es[0]), es[1..]);
    }
  }

  lemma {:induction false} ErrorsStep(f: Flash, e: Event)
    requires Defined(f, e) && !ClearsErrors(f, e)
    ensures ErrorsWithin(f.errors, Step(f, e).errors)
  {
  }

  /** 0x50 clears them, whatever was recorded. */
  lemma {:induction false} ErrorsCleared(f: Flash, a: word)
    requires f.Shaped() && f.mode == Ready && Quiet(f) && a < SIZE
    ensures var es := [Write(a, 0x50), Write(a, 0x70)];
            RunDefined(f, es) && SameArray(f, Run(f, es)) && Run(f, es).mode == Ready && Shows(Run(f, es), 0x80_0080)
  {
    Run2(f, Write(a, 0x50), Write(a, 0x70));
  }

  /** A reset shows the memory as it was, with no lock and no error. */
  lemma {:induction false} ResetShows(f: Flash, a: word)
    requires f.Shaped() && a < SIZE
    ensures var g := Reset(f);
            && Idling(g) && g.mem == f.mem && ReadWord(g, a) == f.mem[a / 4]
            && forall s :: 0 <= s < 128 ==> !g.lock[s]
  {
  }
}
