/** The banked memory agrees with one flat byte memory, and the lookup cache with the plain search. */
module MemBanksFlat {
  import opened Bits
  import opened MemBanks

  // ----- The lookup cache -----

  /** Every address of bank i belongs to an earlier bank, so that the plain search never returns it. */
  ghost predicate Hidden(bs: seq<Bank>, i: nat)
    requires i < |bs|
  {
    forall y: word :: Contains(bs[i], y) ==> FirstMatch(bs, y) < i
  }

  /** A bank overlaps an earlier one only if it is hidden. */
  ghost predicate Unambiguous(bs: seq<Bank>) {
    forall i, j, x: word :: 0 <= j < i < |bs| && Contains(bs[i], x) && Contains(bs[j], x) ==> Hidden(bs, i)
  }

  lemma {:induction false} CacheIsAMatch(bs: seq<Bank>, history: seq<word>)
    ensures CacheAfter(bs, history) == |bs| || exists y: word :: FirstMatch(bs, y) == CacheAfter(bs, history) < |bs|
    decreases |history|
  {
    if history != [] {
      CacheIsAMatch(bs, history[..|history| - 1]);
      var a := history[|history| - 1];
      assert FirstMatch(bs, a) == FirstMatch(bs, a);
    }
  }

  ghost predicate CacheAgrees(bs: seq<Bank>) {
    forall h: seq<word>, a: word :: CachedMatch(bs, CacheAfter(bs, h), a) == FirstMatch(bs, a)
  }

  /** The plain search returns the bank of y for every address of that bank. */
  lemma {:induction false} SameBank(bs: seq<Bank>, x: word, y: word)
    requires Unambiguous(bs) && FirstMatch(bs, y) < |bs| && Contains(bs[FirstMatch(bs, y)], x)
    ensures FirstMatch(bs, x) == FirstMatch(bs, y)
  {
    var i, j := FirstMatch(bs, y), FirstMatch(bs, x);
    assert j < i ==> Hidden(bs, i);
  }

  /** Looking up y and then x shows that an overlap hides the later bank. */
  lemma {:induction false} AgreementHides(bs: seq<Bank>, i: nat, j: nat, x: word, y: word)
    requires CacheAgrees(bs) && j < i < |bs| && Contains(bs[i], x) && Contains(bs[j], x) && Contains(bs[i], y)
    ensures FirstMatch(bs, y) < i
  {
    var h: seq<word> := [y];
    assert h[..0] == [];
    assert CacheAfter(bs, h) == CachedMatch(bs, CacheAfter(bs, []), y) == FirstMatch(bs, y);
    assert CachedMatch(bs, CacheAfter(bs, h), x) == FirstMatch(bs, x);
  }

  /** The cached lookup agrees with the plain search after every call history exactly when the bank
      table is unambiguous. */
  lemma {:induction false} CacheAgreesIffUnambiguous(bs: seq<Bank>)
    ensures CacheAgrees(bs) <==> Unambiguous(bs)
  {
    if Unambiguous(bs) {
      forall h: seq<word>, a: word ensures CachedMatch(bs, CacheAfter(bs, h), a) == FirstMatch(bs, a) {
        CacheIsAMatch(bs, h);
        var c := CacheAfter(bs, h);
        if c < |bs| && Contains(bs[c], a) {
          var y: word :| FirstMatch(bs, y) == c;
          SameBank(bs, a, y);
        }
      }
    }
    if CacheAgrees(bs) {
      forall i, j, x: word | 0 <= j < i < |bs| && Contains(bs[i], x) && Contains(bs[j], x) ensures Hidden(bs, i) {
        forall y: word | Contains(bs[i], y) ensures FirstMatch(bs, y) < i { AgreementHides(bs, i, j, x, y); }
      }
    }
  }

  /** A table on which they disagree: a small bank in front of a large one that contains it. After a lookup in the
      large bank the cache keeps it for an address that the plain search gives to the small one. */
  lemma {:induction false} CacheCanDisagree(bs: seq<Bank>)
    requires bs == [Bank(0x1000, 0x1000, Real), Bank(0, 0x4000, Real)]
    ensures CachedMatch(bs, CacheAfter(bs, [0]), 0x1800) == 1 && FirstMatch(bs, 0x1800) == 0
    ensures !CacheAgrees(bs) && !Unambiguous(bs)
  {
    var h: seq<word> := [0];
    assert h[..0] == [];
    MatchUnique(bs, 0, 1);
    MatchUnique(bs, 0x1800, 0);
    assert CacheAfter(bs, h) == 1;
    assert CachedMatch(bs, CacheAfter(bs, h), 0x1800) != FirstMatch(bs, 0x1800);
    CacheAgreesIffUnambiguous(bs);
  }

  /** On every configured table the cached lookup is the plain search. */
  lemma {:induction false} ConfiguredCacheAgrees(m: Mem)
    requires Configured(m)
    ensures CacheAgrees(m.banks) && Unambiguous(m.banks)
  {
    forall h: seq<word>, a: word ensures CachedMatch(m.banks, CacheAfter(m.banks, h), a) == FirstMatch(m.banks, a) {
      DisjointCache(m, CacheAfter(m.banks, h), a);
    }
    CacheAgreesIffUnambiguous(m.banks);
  }

  // ----- Flat byte memory -----

  /** The byte memory behind the real banks. */
  ghost function Flat(m: Mem): imap<word, byte>
    requires Configured(m)
  {
    imap a: word | OnReal(m.banks, a) :: Lane(WordAt(m, a), LaneOf(m.big, a))
  }

  /** The byte of v that goes to offset i in address order. */
  function Digit(v: word, s: Width, big: bool, i: nat): byte
    requires i < s.Size()
  {
    Lane(v, if big then s.Size() - 1 - i else i)
  }

  ghost predicate HoldsAll(flat: imap<word, byte>, t: word, s: Width) {
    t + s.Size() <= SPACE && forall x: word :: t <= x < t + s.Size() ==> x in flat
  }

  /** The value of the bytes from t on, most significant first when big. */
  ghost function FlatLoad(flat: imap<word, byte>, big: bool, t: word, s: Width): nat
    requires HoldsAll(flat, t, s)
  {
    match s
    case Byte => flat[t]
    case Half =>
      var b0: nat, b1: nat := flat[t], flat[t + 1];
      if big then b0 * 0x100 + b1 else b1 * 0x100 + b0
    case Word =>
      var b0: nat, b1: nat, b2: nat, b3: nat := flat[t], flat[t + 1], flat[t + 2], flat[t + 3];
      if big then b0 * 0x100_0000 + b1 * 0x1_0000 + b2 * 0x100 + b3
      else b3 * 0x100_0000 + b2 * 0x1_0000 + b1 * 0x100 + b0
  }

  ghost function FlatStore(flat: imap<word, byte>, big: bool, t: word, s: Width, v: word): imap<word, byte> {
    imap x: word | x in flat :: if t <= x < t + s.Size() then Digit(v, s, big, x - t) else flat[x]
  }

  // ----- One word -----

  lemma {:induction false} Quarter(t: word)
    ensures t % 2 == t % 4 % 2 && t / 2 % 2 == t % 4 / 2
  {
    var q, r := t / 4, t % 4;
    assert t == 4 * q + r;
    assert t / 2 == 2 * q + r / 2;
  }

  lemma {:induction false} Offset(t: word, i: nat)
    requires t % 4 + i < 4
    ensures (t + i) / 4 == t / 4 && (t + i) % 4 == t % 4 + i && t + i < SPACE
  {
  }

  lemma {:induction false} AlignedFits(t: word, s: Width, x: word)
    requires s.Aligned(t) && t <= x < t + s.Size()
    ensures x / 4 == t / 4 && t + s.Size() <= SPACE && t % 4 + s.Size() <= 4
  {
    Quarter(t);
    assert t % 4 + s.Size() <= 4;
    Offset(t, x - t);
    Offset(t, s.Size() - 1);
  }

  /** Inserting a value replaces exactly the lanes of its addresses. */
  lemma {:induction false} InsertLanes(w: word, big: bool, t: word, s: Width, v: word, x: word)
    requires s.Aligned(t) && x / 4 == t / 4
    ensures Lane(Insert(w, big, t, s, v), LaneOf(big, x))
         == if t <= x < t + s.Size() then Digit(v, s, big, x - t) else Lane(w, LaneOf(big, x))
  {
    var d := x % 4 - t % 4;
    assert x - t == d;
    Quarter(t);
    match s
    case Byte => ByteLanes(w, big, t, v, LaneOf(big, x));
    case Half =>
      HalfLanes(w, big, t, v, LaneOf(big, x));
      HalfPlace(big, t, x);
    case Word =>
      assert t % 4 == 0;
  }

  /** The halfword at t consists of the addresses t and t + 1 of its word. */
  lemma {:induction false} HalfPlace(big: bool, t: word, x: word)
    requires t % 2 == 0 && x / 4 == t / 4
    ensures LaneOf(big, x) / 2 == HalfOf(big, t) <==> t <= x < t + 2
    ensures t <= x < t + 2 ==> LaneOf(big, x) % 2 == if big then 1 - (x - t) else x - t
  {
    Quarter(t);
    var p, q := t % 4, x % 4;
    assert x - t == q - p;
    assert p == 0 || p == 2;
    assert q == 0 || q == 1 || q == 2 || q == 3;
  }

  lemma {:induction false} ByteLanes(w: word, big: bool, t: word, v: word, l: nat)
    requires l < 4
    ensures Lane(Insert(w, big, t, Byte, v), l) == if l == LaneOf(big, t) then Lane(v, 0) else Lane(w, l)
  {
    var a, b, c, d, e := Lane(w, 0), Lane(w, 1), Lane(w, 2), Lane(w, 3), v % 0x100;
    InsertByte(w, big, t, v);
    match LaneOf(big, t)
    case 0 => LanesAre(e, b, c, d);
    case 1 => LanesAre(a, e, c, d);
    case 2 => LanesAre(a, b, e, d);
    case _ => LanesAre(a, b, c, e);
  }

  lemma {:induction false} HalfLanes(w: word, big: bool, t: word, v: word, l: nat)
    requires l < 4
    ensures Lane(Insert(w, big, t, Half, v), l) == if l / 2 == HalfOf(big, t) then Lane(v, l % 2) else Lane(w, l)
  {
    InsertHalf(w, big, t, v);
    if HalfOf(big, t) == 0 {
      LanesAre(Lane(v, 0), Lane(v, 1), Lane(w, 2), Lane(w, 3));
    } else {
      LanesAre(Lane(w, 0), Lane(w, 1), Lane(v, 0), Lane(v, 1));
    }
  }

  lemma {:induction false} Halves(w: word)
    ensures w / 0x1_0000 == Lane(w, 3) * 0x100 + Lane(w, 2) && w % 0x1_0000 == Lane(w, 1) * 0x100 + Lane(w, 0)
  {
    LanesOf(w);
    var hi: nat, lo: nat := Lane(w, 3) * 0x100 + Lane(w, 2), Lane(w, 1) * 0x100 + Lane(w, 0);
    assert lo < 0x1_0000 && w == hi * 0x1_0000 + lo;
  }

  lemma {:induction false} Ends(w: word)
    ensures w / 0x100 * 0x100 == Lane(w, 3) * 0x100_0000 + Lane(w, 2) * 0x1_0000 + Lane(w, 1) * 0x100
    ensures w % 0x100_0000 == Lane(w, 2) * 0x1_0000 + Lane(w, 1) * 0x100 + Lane(w, 0)
  {
    LanesOf(w);
    var lo: nat := Lane(w, 2) * 0x1_0000 + Lane(w, 1) * 0x100 + Lane(w, 0);
    assert lo < 0x100_0000 && w == Lane(w, 3) * 0x100_0000 + lo;
    assert w / 0x100 * 0x100 == w - w % 0x100;
  }

  lemma {:induction false} InsertByte(w: word, big: bool, t: word, v: word)
    ensures var l, e, r := LaneOf(big, t), v % 0x100, Insert(w, big, t, Byte, v);
            var a, b, c, d := Lane(w, 0), Lane(w, 1), Lane(w, 2), Lane(w, 3);
            && (l == 0 ==> r == d * 0x100_0000 + c * 0x1_0000 + b * 0x100 + e)
            && (l == 1 ==> r == d * 0x100_0000 + c * 0x1_0000 + e * 0x100 + a)
            && (l == 2 ==> r == d * 0x100_0000 + e * 0x1_0000 + b * 0x100 + a)
            && (l == 3 ==> r == e * 0x100_0000 + c * 0x1_0000 + b * 0x100 + a)
  {
    Halves(w);
    Ends(w);
  }

  lemma {:induction false} InsertHalf(w: word, big: bool, t: word, v: word)
    ensures var r := Insert(w, big, t, Half, v);
            var a, b, c, d := Lane(w, 0), Lane(w, 1), Lane(w, 2), Lane(w, 3);
            && (HalfOf(big, t) == 0 ==> r == d * 0x100_0000 + c * 0x1_0000 + Lane(v, 1) * 0x100 + Lane(v, 0))
            && (HalfOf(big, t) == 1 ==> r == Lane(v, 1) * 0x100_0000 + Lane(v, 0) * 0x1_0000 + b * 0x100 + a)
  {
    Halves(w);
    Halves(v);
  }

  // ----- One access -----

  /** The addresses of one word are in the same bank and share its word. */
  lemma {:induction false} SameWord(m: Mem, t: word, x: word)
    requires Configured(m) && OnReal(m.banks, t) && x / 4 == t / 4
    ensures FirstMatch(m.banks, x) == FirstMatch(m.banks, t)
    ensures OnReal(m.banks, x) && WordAt(m, x) == WordAt(m, t)
  {
    var b := m.banks[FirstMatch(m.banks, t)];
    assert BankOk(b);
    assert Contains(b, x);
    DisjointCache(m, FirstMatch(m.banks, t), x);
    assert (x - b.addr) / 4 == x / 4 - b.addr / 4 && (t - b.addr) / 4 == t / 4 - b.addr / 4;
  }

  /** Different words of the real banks are stored in different places. */
  lemma {:induction false} OtherWord(m: Mem, t: word, x: word)
    requires Configured(m) && OnReal(m.banks, t) && OnReal(m.banks, x) && x / 4 != t / 4
    ensures var i, j := FirstMatch(m.banks, t), FirstMatch(m.banks, x);
            i != j || (t - m.banks[i].addr) / 4 != (x - m.banks[j].addr) / 4
  {
    var i := FirstMatch(m.banks, t);
    assert BankOk(m.banks[i]);
    if i == FirstMatch(m.banks, x) {
      var b := m.banks[i];
      assert (x - b.addr) / 4 == x / 4 - b.addr / 4 && (t - b.addr) / 4 == t / 4 - b.addr / 4;
    }
  }

  /** The real address behind an aligned one is aligned. */
  lemma {:induction false} TargetAligned(m: Mem, a: word, s: Width)
    requires Configured(m) && s.Aligned(a)
    ensures s.Aligned(Target(m.banks, a))
  {
    var i := FirstMatch(m.banks, a);
    if i < |m.banks| && m.banks[i].kind.Alias? {
      var b := m.banks[i];
      assert BankOk(b);
      SumAligned(a - b.addr, a, b.addr, b.kind.dest);
    }
  }

  lemma {:induction false} SumAligned(d: nat, a: word, from: word, dest: word)
    requires d == a - from && from % 4 == 0 && dest % 4 == 0 && d + dest < SPACE
    ensures var t := (a - from + dest) % SPACE;
            t == d + dest && (a % 2 == 0 ==> t % 2 == 0) && (a % 4 == 0 ==> t % 4 == 0)
  {
    var p, q := from / 4, dest / 4;
    assert from == 4 * p && dest == 4 * q;
    if a % 2 == 0 { Multiple2(d + dest, a / 2 + 2 * q - 2 * p); }
    if a % 4 == 0 { Multiple4(d + dest, a / 4 + q - p); }
  }

  lemma {:induction false} Multiple2(x: int, k: int)
    requires x == 2 * k
    ensures x % 2 == 0
  {
  }

  lemma {:induction false} Multiple4(x: int, k: int)
    requires x == 4 * k
    ensures x % 4 == 0
  {
  }

  lemma {:induction false} FlatHolds(m: Mem, t: word, s: Width)
    requires Configured(m) && OnReal(m.banks, t) && s.Aligned(t)
    ensures HoldsAll(Flat(m), t, s)
  {
    AlignedFits(t, s, t);
    forall x: word | t <= x < t + s.Size() ensures x in Flat(m) {
      AlignedFits(t, s, x);
      SameWord(m, t, x);
    }
  }

  // ----- Where an access goes -----

  /** The address in flat memory: an address of an alias bank moves to the same offset from its destination. */
  function Where(bs: seq<Bank>, a: word): word
    requires forall i :: 0 <= i < |bs| ==> BankOk(bs[i])
  {
    var i := FirstMatch(bs, a);
    if i < |bs| && bs[i].kind.Alias? then
      assert BankOk(bs[i]) && Contains(bs[i], a);
      a - bs[i].addr + bs[i].kind.dest
    else a
  }

  lemma {:induction false} WhereIsTarget(m: Mem, a: word)
    requires Configured(m)
    ensures Where(m.banks, a) == Target(m.banks, a)
  {
    var i := FirstMatch(m.banks, a);
    if i < |m.banks| && m.banks[i].kind.Alias? { var f := AliasReal(m, i, a); }
  }

  /** The only bank that contains an address is the one found. */
  lemma {:induction false} OnlyMatch(m: Mem, i: nat, a: word)
    requires Configured(m) && i < |m.banks| && Contains(m.banks[i], a)
    ensures FirstMatch(m.banks, a) == i
  {
    MatchUnique(m.banks, a, i);
  }

  /** Every access to an alias bank is the access at the same offset from the bank's destination. */
  lemma {:induction false} AliasAccess(m: Mem, i: nat, a: word, s: Width, v: word)
    requires Configured(m) && i < |m.banks| && m.banks[i].kind.Alias? && Contains(m.banks[i], a)
    ensures var b := m.banks[i];
            && a - b.addr + b.kind.dest < SPACE
            && Load(m, a, s) == Load(m, a - b.addr + b.kind.dest, s)
            && Store(m, a, s, v) == Store(m, a - b.addr + b.kind.dest, s, v)
  {
    OnlyMatch(m, i, a);
    var f := AliasReal(m, i, a);
    ThroughAlias(m, a, s);
  }

  /** A word of a real bank is the word of its array at the offset from the bank's start. */
  lemma {:induction false} RealAccess(m: Mem, i: nat, a: word, v: word)
    requires Configured(m) && i < |m.banks| && m.banks[i].kind == Real && Contains(m.banks[i], a) && a % 4 == 0
    ensures var k := (a - m.banks[i].addr) / 4;
            && k < |m.rom[i]| && Load(m, a, Word) == m.rom[i][k]
            && |Store(m, a, Word, v).rom| == |m.rom|
            && (forall j :: 0 <= j < |m.rom| && j != i ==> Store(m, a, Word, v).rom[j] == m.rom[j])
            && |Store(m, a, Word, v).rom[i]| == |m.rom[i]|
            && (forall n :: 0 <= n < |m.rom[i]| ==> Store(m, a, Word, v).rom[i][n] == if n == k then v else m.rom[i][n])
  {
    OnlyMatch(m, i, a);
    IndexOk(m, a);
  }

  /** The words of an image file, in the machine's endianness. */
  predicate HoldsFile(rom: seq<word>, big: bool, file: seq<byte>) {
    && |rom| * 4 == |file|
    && forall i :: 0 <= i < |file| ==> Lane(rom[i / 4], if big then 3 - i % 4 else i % 4) == file[i]
  }

  /** A real bank that holds an image reads back as the file, byte by byte. */
  lemma {:induction false} ImageReadsBack(m: Mem, i: nat, file: seq<byte>, k: nat)
    requires Configured(m) && i < |m.banks| && m.banks[i].kind == Real && HoldsFile(m.rom[i], m.big, file)
    requires k < |file|
    ensures m.banks[i].addr + k < SPACE && Load(m, m.banks[i].addr + k, Byte) == file[k]
  {
    var b := m.banks[i];
    assert BankOk(b);
    var a: word := b.addr + k;
    OnlyMatch(m, i, a);
    IndexOk(m, a);
    SameRest(b.addr, k);
  }

  lemma {:induction false} SameRest(addr: nat, k: nat)
    requires addr % 4 == 0
    ensures (addr + k) % 4 == k % 4
  {
    var q := addr / 4;
    assert addr + k == 4 * (q + k / 4) + k % 4;
  }

  /** A load returns what the flat memory holds. */
  lemma {:induction false} LoadIsFlat(m: Mem, a: word, s: Width)
    requires Configured(m) && s.Aligned(a)
    ensures var t := Where(m.banks, a);
            if t in Flat(m) then HoldsAll(Flat(m), t, s) && Load(m, a, s) == FlatLoad(Flat(m), m.big, t, s)
            else Load(m, a, s) == 0
  {
    WhereIsTarget(m, a);
    var t := Target(m.banks, a);
    TargetAligned(m, a, s);
    if OnReal(m.banks, t) {
      FlatHolds(m, t, s);
      var w := WordAt(m, t);
      LanesOf(w);
      forall x: word | t <= x < t + s.Size() ensures Flat(m)[x] == Lane(w, LaneOf(m.big, x)) {
        AlignedFits(t, s, x);
        SameWord(m, t, x);
      }
      ExtractIsFlat(w, m.big, t, s, Flat(m));
    }
  }

  lemma {:induction false} ExtractIsFlat(w: word, big: bool, t: word, s: Width, flat: imap<word, byte>)
    requires s.Aligned(t) && HoldsAll(flat, t, s)
    requires forall x: word :: t <= x < t + s.Size() ==> flat[x] == Lane(w, LaneOf(big, x))
    ensures Extract(w, big, t, s) == FlatLoad(flat, big, t, s)
  {
    LanesOf(w);
    AlignedFits(t, s, t);
    Quarter(t);
    match s
    case Byte =>
    case Half =>
      Offset(t, 1);
      HalfExtract(w, big, t);
    case Word =>
      Offset(t, 1); Offset(t, 2); Offset(t, 3);
      assert flat[t + 1] == Lane(w, LaneOf(big, t + 1)) && flat[t + 2] == Lane(w, LaneOf(big, t + 2))
          && flat[t + 3] == Lane(w, LaneOf(big, t + 3));
  }

  lemma {:induction false} HalfExtract(w: word, big: bool, t: word)
    requires t % 2 == 0 && t + 1 < SPACE
    ensures Extract(w, big, t, Half)
         == if big then Lane(w, LaneOf(big, t)) * 0x100 + Lane(w, LaneOf(big, t + 1))
            else Lane(w, LaneOf(big, t + 1)) * 0x100 + Lane(w, LaneOf(big, t))
  {
    LanesOf(w);
    Quarter(t);
    assert t % 4 == 0 || t % 4 == 2;
    assert (t + 1) % 4 == t % 4 + 1;
    assert w % 0x1_0000 == Lane(w, 1) * 0x100 + Lane(w, 0);
    assert w / 0x1_0000 == Lane(w, 3) * 0x100 + Lane(w, 2);
  }

  lemma {:induction false} PokeKeeps(m: Mem, t: word, w: word)
    requires Configured(m) && OnReal(m.banks, t)
    ensures Configured(Poke(m, t, w)) && Poke(m, t, w).banks == m.banks && Poke(m, t, w).big == m.big
  {
  }

  lemma {:induction false} StoreKeepsConfigured(m: Mem, a: word, s: Width, v: word)
    requires Configured(m)
    ensures Configured(Store(m, a, s, v)) && Store(m, a, s, v).banks == m.banks && Store(m, a, s, v).big == m.big
  {
    var t := Target(m.banks, a);
    if OnReal(m.banks, t) { PokeKeeps(m, t, Insert(WordAt(m, t), m.big, t, s, v)); }
  }

  /** Poking replaces one word and no other. */
  lemma {:induction false} PokedWord(m: Mem, t: word, w: word, x: word)
    requires Configured(m) && OnReal(m.banks, t) && OnReal(m.banks, x)
    ensures Configured(Poke(m, t, w))
    ensures WordAt(Poke(m, t, w), x) == if x / 4 == t / 4 then w else WordAt(m, x)
  {
    PokeKeeps(m, t, w);
    if x / 4 == t / 4 {
      PokedSame(m, t, w, x);
    } else {
      PokedOther(m, t, w, x);
    }
  }

  lemma {:induction false} PokedSame(m: Mem, t: word, w: word, x: word)
    requires Configured(m) && OnReal(m.banks, t) && OnReal(m.banks, x) && x / 4 == t / 4 && Configured(Poke(m, t, w))
    ensures WordAt(Poke(m, t, w), x) == w
  {
    IndexOk(m, t);
    SameWord(m, t, x);
    SameIndex(m, t, x);
    PokedThere(m, t, w);
  }

  lemma {:induction false} PokedThere(m: Mem, t: word, w: word)
    requires Configured(m) && OnReal(m.banks, t) && Configured(Poke(m, t, w))
    ensures WordAt(Poke(m, t, w), t) == w
  {
    IndexOk(m, t);
  }

  lemma {:induction false} PokedOther(m: Mem, t: word, w: word, x: word)
    requires Configured(m) && OnReal(m.banks, t) && OnReal(m.banks, x) && x / 4 != t / 4 && Configured(Poke(m, t, w))
    ensures WordAt(Poke(m, t, w), x) == WordAt(m, x)
  {
    IndexOk(m, t);
    IndexOk(m, x);
    OtherWord(m, t, x);
  }

  lemma {:induction false} SameIndex(m: Mem, t: word, x: word)
    requires Configured(m) && OnReal(m.banks, t) && x / 4 == t / 4
    ensures var b := m.banks[FirstMatch(m.banks, t)]; (x - b.addr) / 4 == (t - b.addr) / 4
  {
    var b := m.banks[FirstMatch(m.banks, t)];
    assert BankOk(b);
    assert (x - b.addr) / 4 == x / 4 - b.addr / 4 && (t - b.addr) / 4 == t / 4 - b.addr / 4;
  }

  lemma {:induction false} PokedByte(m: Mem, t: word, s: Width, v: word, x: word)
    requires Configured(m) && s.Aligned(t) && OnReal(m.banks, t) && OnReal(m.banks, x)
    ensures var g := Poke(m, t, Insert(WordAt(m, t), m.big, t, s, v));
            && Configured(g)
            && Lane(WordAt(g, x), LaneOf(m.big, x))
               == if t <= x < t + s.Size() then Digit(v, s, m.big, x - t) else Lane(WordAt(m, x), LaneOf(m.big, x))
  {
    PokedWord(m, t, Insert(WordAt(m, t), m.big, t, s, v), x);
    if x / 4 == t / 4 {
      SameWord(m, t, x);
      InsertLanes(WordAt(m, t), m.big, t, s, v, x);
    } else if t <= x < t + s.Size() {
      AlignedFits(t, s, x);
    }
  }

  lemma {:induction false} FlatStoreAt(m: Mem, t: word, s: Width, v: word, x: word)
    requires Configured(m)
    ensures x in FlatStore(Flat(m), m.big, t, s, v) <==> OnReal(m.banks, x)
    ensures OnReal(m.banks, x) ==>
              FlatStore(Flat(m), m.big, t, s, v)[x]
              == if t <= x < t + s.Size() then Digit(v, s, m.big, x - t) else Lane(WordAt(m, x), LaneOf(m.big, x))
  {
    FlatAt(m, x);
    StoreAt(Flat(m), m.big, t, s, v, x);
  }

  lemma {:induction false} FlatAt(m: Mem, x: word)
    requires Configured(m)
    ensures x in Flat(m) <==> OnReal(m.banks, x)
    ensures OnReal(m.banks, x) ==> Flat(m)[x] == Lane(WordAt(m, x), LaneOf(m.big, x))
  {
  }

  lemma {:induction false} StoreAt(flat: imap<word, byte>, big: bool, t: word, s: Width, v: word, x: word)
    ensures x in FlatStore(flat, big, t, s, v) <==> x in flat
    ensures x in flat ==>
              FlatStore(flat, big, t, s, v)[x] == if t <= x < t + s.Size() then Digit(v, s, big, x - t) else flat[x]
  {
  }

  lemma {:induction false} PokeIsFlat(m: Mem, t: word, s: Width, v: word, g: Mem)
    requires Configured(m) && s.Aligned(t) && OnReal(m.banks, t)
    requires g == Poke(m, t, Insert(WordAt(m, t), m.big, t, s, v))
    requires Configured(g) && g.banks == m.banks && g.big == m.big
    ensures Flat(g) == FlatStore(Flat(m), m.big, t, s, v)
  {
    var flat := FlatStore(Flat(m), m.big, t, s, v);
    forall x: word ensures x in flat <==> OnReal(g.banks, x) { FlatStoreAt(m, t, s, v, x); }
    forall x: word | OnReal(g.banks, x) ensures flat[x] == Lane(WordAt(g, x), LaneOf(g.big, x)) {
      FlatStoreAt(m, t, s, v, x);
      PokedByte(m, t, s, v, x);
    }
    FlatByPoints(g, flat);
  }

  /** A store changes exactly the bytes of its target. */
  lemma {:induction false} StoreIsFlat(m: Mem, a: word, s: Width, v: word)
    requires Configured(m) && s.Aligned(a)
    ensures var t := Where(m.banks, a);
            && Configured(Store(m, a, s, v))
            && Flat(Store(m, a, s, v)) == if t in Flat(m) then FlatStore(Flat(m), m.big, t, s, v) else Flat(m)
  {
    WhereIsTarget(m, a);
    TargetAligned(m, a, s);
    StoreKeepsConfigured(m, a, s, v);
    if OnReal(m.banks, Target(m.banks, a)) { PokeIsFlat(m, Target(m.banks, a), s, v, Store(m, a, s, v)); }
  }

  lemma {:induction false} FlatByPoints(g: Mem, flat: imap<word, byte>)
    requires Configured(g)
    requires forall x: word :: x in flat <==> OnReal(g.banks, x)
    requires forall x: word :: OnReal(g.banks, x) ==> flat[x] == Lane(WordAt(g, x), LaneOf(g.big, x))
    ensures Flat(g) == flat
  {
  }

  // ----- Runs -----

  datatype Access = Get(a: word, s: Width) | Put(a: word, s: Width, v: word)

  /** Values returned by the gets, in order; the banked memory. */
  ghost function Answers(m: Mem, xs: seq<Access>): seq<nat>
    requires Configured(m)
    decreases |xs|
  {
    if xs == [] then []
    else match xs[0]
      case Get(a, s) => [Load(m, a, s)] + Answers(m, xs[1..])
      case Put(a, s, v) => StoreKeepsConfigured(m, a, s, v); Answers(Store(m, a, s, v), xs[1..])
  }

  /** The same for a flat memory; bs only says which addresses are aliases. */
  ghost function FlatAnswers(flat: imap<word, byte>, bs: seq<Bank>, big: bool, xs: seq<Access>): seq<nat>
    requires forall i :: 0 <= i < |bs| ==> BankOk(bs[i])
    decreases |xs|
  {
    if xs == [] then []
    else
      var t := Where(bs, xs[0].a);
      match xs[0]
      case Get(a, s) =>
        [if HoldsAll(flat, t, s) then FlatLoad(flat, big, t, s) else 0] + FlatAnswers(flat, bs, big, xs[1..])
      case Put(a, s, v) =>
        FlatAnswers(if t in flat then FlatStore(flat, big, t, s, v) else flat, bs, big, xs[1..])
  }

  /** Every sequence of aligned accesses to real banks and aliases of them gets the answers of one flat
      byte memory, in either endianness. */
  lemma {:induction false} BanksAreFlat(m: Mem, xs: seq<Access>)
    requires Configured(m) && forall i :: 0 <= i < |xs| ==> xs[i].s.Aligned(xs[i].a)
    ensures Answers(m, xs) == FlatAnswers(Flat(m), m.banks, m.big, xs)
    decreases |xs|
  {
    if xs != [] {
      match xs[0]
      case Get(a, s) =>
        LoadIsFlat(m, a, s);
        BanksAreFlat(m, xs[1..]);
      case Put(a, s, v) =>
        StoreKeepsConfigured(m, a, s, v);
        StoreIsFlat(m, a, s, v);
        BanksAreFlat(Store(m, a, s, v), xs[1..]);
    }
  }

  // ----- Loading an image -----

  /** The byte-order loop over a loaded image: afterwards the byte at offset i of the bank, read in the
      machine's endianness, is byte i of the file. */
  method LoadImage(file: seq<byte>, big: bool) returns (rom: seq<word>)
    requires |file| % 4 == 0
    ensures HoldsFile(rom, big, file)
  {
    rom := [];
    for n := 0 to |file| / 4
      invariant |rom| == n
      invariant forall i :: 0 <= i < 4 * n ==> Lane(rom[i / 4], if big then 3 - i % 4 else i % 4) == file[i]
    {
      var p0: nat, p1: nat, p2: nat, p3: nat := file[4 * n], file[4 * n + 1], file[4 * n + 2], file[4 * n + 3];
      LanesAre(p0, p1, p2, p3);
      LanesAre(p3, p2, p1, p0);
      var swap := if big then p0 * 0x100_0000 + p1 * 0x1_0000 + p2 * 0x100 + p3
                  else p3 * 0x100_0000 + p2 * 0x1_0000 + p1 * 0x100 + p0;
      rom := rom + [swap];
    }
  }
}
