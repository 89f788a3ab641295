/** The memory banks of the ARM machine: a table of real and alias banks, searched through a one-entry
    cache, with word arrays behind the real banks. */
module MemBanks {
  import opened Bits

  const SPACE := 0x1_0000_0000

  datatype Kind = Real | Alias(dest: word)
  datatype Bank = Bank(addr: word, len: nat, kind: Kind)

  predicate Contains(b: Bank, a: word) { b.addr <= a && a - b.addr < b.len }

  // ----- Finding a bank -----

  /** The plain search: index of the first bank holding a, |bs| if none does. */
  function FirstMatch(bs: seq<Bank>, a: word): (i: nat)
    ensures i <= |bs|
    ensures i < |bs| ==> Contains(bs[i], a)
    ensures forall j :: 0 <= j < i ==> !Contains(bs[j], a)
  {
    if bs == [] then 0 else if Contains(bs[0], a) then 0 else 1 + FirstMatch(bs[1..], a)
  }

  /** The cached search: the cached bank is tried first; a full search refills the cache. The value |bs|
      stands for the terminating entry and for no bank. */
  function CachedMatch(bs: seq<Bank>, cache: nat, a: word): nat {
    if cache < |bs| && Contains(bs[cache], a) then cache else FirstMatch(bs, a)
  }

  /** The cache after a history of lookups from the empty cache. */
  function CacheAfter(bs: seq<Bank>, history: seq<word>): nat
    decreases |history|
  {
    if history == [] then |bs|
    else CachedMatch(bs, CacheAfter(bs, history[..|history| - 1]), history[|history| - 1])
  }

  // ----- Words and byte lanes -----

  datatype Width = Byte | Half | Word {
    function Size(): nat { match this case Byte => 1 case Half => 2 case Word => 4 }
    predicate Aligned(a: word) { match this case Byte => true case Half => a % 2 == 0 case Word => a % 4 == 0 }
  }

  /** The lane that holds address a. */
  function LaneOf(big: bool, a: word): nat { if big then 3 - a % 4 else a % 4 }

  /** Which half of the word holds the halfword at a. */
  function HalfOf(big: bool, a: word): nat { if big then 1 - a / 2 % 2 else a / 2 % 2 }

  function Extract(w: word, big: bool, a: word, s: Width): word {
    match s
    case Byte => Lane(w, LaneOf(big, a))
    case Half => if HalfOf(big, a) == 0 then w % 0x1_0000 else w / 0x1_0000
    case Word => w
  }

  /** Mask the field out, or the new value in. */
  function Insert(w: word, big: bool, a: word, s: Width, v: word): word {
    match s
    case Byte =>
      var b := v % 0x100;
      var l := LaneOf(big, a);
      if l == 0 then w / 0x100 * 0x100 + b
      else if l == 1 then w / 0x1_0000 * 0x1_0000 + b * 0x100 + w % 0x100
      else if l == 2 then w / 0x100_0000 * 0x100_0000 + b * 0x1_0000 + w % 0x1_0000
      else b * 0x100_0000 + w % 0x100_0000
    case Half =>
      var h := v % 0x1_0000;
      if HalfOf(big, a) == 0 then w / 0x1_0000 * 0x1_0000 + h else h * 0x1_0000 + w % 0x1_0000
    case Word => v
  }

  // ----- Accesses -----

  datatype Mem = Mem(banks: seq<Bank>, rom: seq<seq<word>>, big: bool)

  /** Word-aligned and not empty, and so is the target of an alias. */
  predicate BankOk(b: Bank) {
    && 0 < b.len && b.addr % 4 == 0 && b.len % 4 == 0 && b.addr + b.len <= SPACE
    && (b.kind.Alias? ==> b.kind.dest % 4 == 0 && b.kind.dest + b.len <= SPACE)
  }

  predicate OnReal(bs: seq<Bank>, a: word) {
    var i := FirstMatch(bs, a);
    i < |bs| && bs[i].kind == Real
  }

  /** The bank table the machine is configured with: banks without overlap, aliases onto real banks. */
  ghost predicate Configured(m: Mem) {
    && |m.rom| == |m.banks|
    && (forall i :: 0 <= i < |m.banks| ==> BankOk(m.banks[i]))
    && (forall i, j, a: word :: 0 <= i < j < |m.banks| && Contains(m.banks[i], a) ==> !Contains(m.banks[j], a))
    && (forall i :: 0 <= i < |m.banks| && m.banks[i].kind == Real ==> |m.rom[i]| * 4 == m.banks[i].len)
    && (forall i :: 0 <= i < |m.banks| && m.banks[i].kind.Alias? ==> LeadsToReal(m.banks, m.banks[i]))
  }

  /** Every address of an alias bank lies, at the same offset from its destination, on a real bank. */
  ghost predicate LeadsToReal(bs: seq<Bank>, b: Bank)
    requires BankOk(b) && b.kind.Alias?
  {
    forall a: word :: Contains(b, a) ==> OnReal(bs, a - b.addr + b.kind.dest)
  }

  /** The address an alias bank passes on. */
  function Forward(b: Bank, a: word): word
  {
    if b.kind.Alias? then (a - b.addr + b.kind.dest) % SPACE else a
  }

  /** The real address behind a, through at most one alias. */
  function Target(bs: seq<Bank>, a: word): word {
    var i := FirstMatch(bs, a);
    if i < |bs| then Forward(bs[i], a) else a
  }

  /** The word at a real address. */
  function WordAt(m: Mem, t: word): word
    requires Configured(m) && OnReal(m.banks, t)
  {
    var i := FirstMatch(m.banks, t);
    m.rom[i][(t - m.banks[i].addr) / 4]
  }

  function WithWord(row: seq<word>, k: nat, v: word): seq<word>
    requires k < |row|
  {
    row[k := v]
  }

  function Load(m: Mem, a: word, s: Width): word
    requires Configured(m)
  {
    var t := Target(m.banks, a);
    if OnReal(m.banks, t) then Extract(WordAt(m, t), m.big, t, s) else 0
  }

  /** The word at a real address replaced. */
  function Poke(m: Mem, t: word, w: word): Mem
    requires Configured(m) && OnReal(m.banks, t)
  {
    var i := FirstMatch(m.banks, t);
    m.(rom := m.rom[i := WithWord(m.rom[i], (t - m.banks[i].addr) / 4, w)])
  }

  function Store(m: Mem, a: word, s: Width, v: word): Mem
    requires Configured(m)
  {
    var t := Target(m.banks, a);
    if OnReal(m.banks, t) then Poke(m, t, Insert(WordAt(m, t), m.big, t, s, v)) else m
  }

  // ----- The machine -----

  class Memory {
    const banks: seq<Bank>
    const big: bool
    var rom: seq<seq<word>>
    var cache: nat       // last bank found; |banks| for none
    var current: nat     // the bank of the access being made

    ghost function View(): Mem
      reads this
    {
      Mem(banks, rom, big)
    }

    ghost predicate Valid()
      reads this
    {
      Configured(View())
    }

    constructor (banks: seq<Bank>, big: bool, rom: seq<seq<word>>)
      requires Configured(Mem(banks, rom, big))
      ensures Valid() && View() == Mem(banks, rom, big) && cache == |banks|
    {
      this.banks := banks;
      this.big := big;
      this.rom := rom;
      cache := |banks|;
      current := |banks|;
    }

    method BankPtr(a: word) returns (i: nat)
      modifies this`cache
      ensures i == cache == CachedMatch(banks, old(cache), a)
    {
      if cache < |banks| && banks[cache].addr <= a && a - banks[cache].addr < banks[cache].len {
        return cache;
      }
      for j := 0 to |banks|
        invariant forall k :: 0 <= k < j ==> !Contains(banks[k], a)
      {
        if banks[j].addr <= a && a - banks[j].addr < banks[j].len {
          MatchUnique(banks, a, j);
          cache := j;
          return j;
        }
      }
      MatchUnique(banks, a, |banks|);
      cache := |banks|;
      return |banks|;
    }

    method RealRead(a: word, s: Width) returns (v: word)
      requires Valid() && OnReal(banks, a) && current == FirstMatch(banks, a)
      ensures v == Load(View(), a, s)
    {
      IndexOk(View(), a);
      v := Extract(rom[current][(a - banks[current].addr) / 4], big, a, s);
    }

    method Read(a: word, s: Width) returns (v: word)
      requires Valid()
      modifies this`cache, this`current
      ensures v == Load(View(), a, s)
      decreases if OnReal(banks, a) then 0 else 1
    {
      DisjointCache(View(), cache, a);
      current := BankPtr(a);
      if current == |banks| { OffBank(View(), a, s); return 0; }
      var b := banks[current];
      if b.kind.Alias? {
        ThroughAlias(View(), a, s);
        v := Read(Forward(b, a), s);
      } else {
        v := RealRead(a, s);
      }
    }

    method RealWrite(a: word, s: Width, v: word)
      requires Valid() && OnReal(banks, a) && current == FirstMatch(banks, a)
      modifies this`rom
      ensures View() == Store(old(View()), a, s, v)
    {
      IndexOk(View(), a);
      var k := (a - banks[current].addr) / 4;
      rom := rom[current := WithWord(rom[current], k, Insert(rom[current][k], big, a, s, v))];
    }

    /** A byte write outside every bank ends the emulation; wider ones are dropped. */
    method Write(a: word, s: Width, v: word)
      requires Valid() && (s == Byte ==> FirstMatch(banks, a) < |banks|)
      modifies this
      ensures View() == Store(old(View()), a, s, v)
      decreases if OnReal(banks, a) then 0 else 1
    {
      DisjointCache(View(), cache, a);
      current := BankPtr(a);
      if current == |banks| { OffBank(View(), a, s); return; }
      var b := banks[current];
      if b.kind.Alias? {
        ThroughAlias(View(), a, s);
        Write(Forward(b, a), s, v);
      } else {
        RealWrite(a, s, v);
      }
    }
  }

  /** A real address indexes a word of its bank. */
  lemma {:induction false} IndexOk(m: Mem, t: word)
    requires Configured(m) && OnReal(m.banks, t)
    ensures var i := FirstMatch(m.banks, t);
            i < |m.rom| && 0 <= (t - m.banks[i].addr) / 4 < |m.rom[i]|
    ensures Target(m.banks, t) == t
  {
  }

  /** An access outside every bank reads 0 and writes nothing. */
  lemma {:induction false} OffBank(m: Mem, a: word, s: Width)
    requires Configured(m) && FirstMatch(m.banks, a) == |m.banks|
    ensures Load(m, a, s) == 0 && forall v: word :: Store(m, a, s, v) == m
  {
  }

  /** An access to an alias is the access to the address it forwards to, which is real. */
  lemma {:induction false} ThroughAlias(m: Mem, a: word, s: Width)
    requires Configured(m)
    requires var i := FirstMatch(m.banks, a); i < |m.banks| && m.banks[i].kind.Alias?
    ensures var f := Forward(m.banks[FirstMatch(m.banks, a)], a);
            && OnReal(m.banks, f) && !OnReal(m.banks, a)
            && Load(m, a, s) == Load(m, f, s)
            && forall v: word :: Store(m, a, s, v) == Store(m, f, s, v)
  {
    var i := FirstMatch(m.banks, a);
    var f := AliasReal(m, i, a);
    IndexOk(m, f);
    assert Target(m.banks, a) == f == Target(m.banks, f);
  }

  /** An alias passes an address on to the same offset from its destination, which is real. */
  lemma {:induction false} AliasReal(m: Mem, i: nat, a: word) returns (f: word)
    requires Configured(m) && i == FirstMatch(m.banks, a) < |m.banks| && m.banks[i].kind.Alias?
    ensures f == Forward(m.banks[i], a) == a - m.banks[i].addr + m.banks[i].kind.dest
    ensures OnReal(m.banks, f) && !OnReal(m.banks, a)
  {
    f := ForwardsToReal(m.banks, m.banks[i], a);
  }

  lemma {:induction false} ForwardsToReal(bs: seq<Bank>, b: Bank, a: word) returns (f: word)
    requires BankOk(b) && b.kind.Alias? && LeadsToReal(bs, b) && Contains(b, a)
    ensures f == Forward(b, a) == a - b.addr + b.kind.dest && OnReal(bs, f)
  {
    Forwarded(b, a);
    f := Forward(b, a);
  }

  lemma {:induction false} Forwarded(b: Bank, a: word)
    requires BankOk(b) && b.kind.Alias? && Contains(b, a)
    ensures Forward(b, a) == a - b.addr + b.kind.dest
  {
  }

  lemma {:induction false} MatchUnique(bs: seq<Bank>, a: word, i: nat)
    requires i <= |bs| && (i < |bs| ==> Contains(bs[i], a)) && forall j :: 0 <= j < i ==> !Contains(bs[j], a)
    ensures FirstMatch(bs, a) == i
  {
  }

  /** Without overlap the cache cannot change the answer. */
  lemma {:induction false} DisjointCache(m: Mem, cache: nat, a: word)
    requires Configured(m)
    ensures CachedMatch(m.banks, cache, a) == FirstMatch(m.banks, a)
  {
  }
}
