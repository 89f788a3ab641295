/** The section-code flag of the controller, together with the code itself: what a flagged program stores, what a
    flagged read delivers, and what the two say about bits that changed in between. */
module StarletCodes {
  import opened Bits
  import opened NandChip
  import opened NandRuns
  import opened StarletNand
  import opened StarletPrograms
  import SectionCode
  import SectionRepair

  // ----- The four codes in guest memory -----

  /** Section i of a page or buffer. */
  function Section(page: seq<byte>, i: nat): seq<byte>
    requires i < 4 && |page| >= 0x800
  {
    page[i * 512..i * 512 + 512]
  }

  /** The code of section i of a page lies at its place behind `at`. */
  predicate HoldsCode(guest: seq<byte>, at: nat, page: seq<byte>, i: nat)
    requires i < 4 && at + 16 <= |guest| && |page| >= 0x800
  {
    guest[at + 4 * i..at + 4 * i + 4] == EccBytes(Section(page, i))
  }

  /** The four codes of a page lie one after the other at `at`. */
  predicate HoldsCodes(guest: seq<byte>, at: nat, page: seq<byte>) {
    && at + 16 <= |guest| && |page| >= 0x800
    && forall i: nat :: i < 4 ==> HoldsCode(guest, at, page, i)
  }

  lemma {:induction false} PutElsewhere(mem: seq<byte>, at: nat, bytes: seq<byte>, from: nat, to: nat)
    requires at + |bytes| <= |mem| && from <= to <= |mem| && (to <= at || at + |bytes| <= from)
    ensures Put(mem, at, bytes)[from..to] == mem[from..to]
  {
  }

  lemma {:induction false} PutThere(mem: seq<byte>, at: nat, bytes: seq<byte>)
    requires at + |bytes| <= |mem|
    ensures Put(mem, at, bytes)[at..at + |bytes|] == bytes
  {
  }

  /** Later codes leave an earlier one in place. */
  lemma {:induction false} CodeStays(mem: seq<byte>, at: nat, buf: seq<byte>, m: nat, n: nat, lo: nat)
    requires m <= n <= 4 && |buf| == BUFFER && at + 4 * n <= |mem| && lo + 4 <= at + 4 * m
    ensures PutEcc(mem, at, buf, n)[lo..lo + 4] == PutEcc(mem, at, buf, m)[lo..lo + 4]
    decreases n
  {
    if m < n {
      CodeStays(mem, at, buf, m, n - 1, lo);
      OlderCode(mem, at, buf, n, lo);
    }
  }

  lemma {:induction false} NewCode(mem: seq<byte>, at: nat, buf: seq<byte>, n: nat)
    requires 0 < n <= 4 && |buf| == BUFFER && at + 4 * n <= |mem|
    ensures var p := at + 4 * (n - 1); PutEcc(mem, at, buf, n)[p..p + 4] == EccBytes(Section(buf, n - 1))
  {
    var before, code := LastCode(mem, at, buf, n);
    PutThere(before, at + (n - 1) * 4, code);
  }

  lemma {:induction false} OlderCode(mem: seq<byte>, at: nat, buf: seq<byte>, n: nat, lo: nat)
    requires 0 < n <= 4 && |buf| == BUFFER && at + 4 * n <= |mem| && lo + 4 <= at + 4 * (n - 1)
    ensures PutEcc(mem, at, buf, n)[lo..lo + 4] == PutEcc(mem, at, buf, n - 1)[lo..lo + 4]
  {
    var before, code := LastCode(mem, at, buf, n);
    PutElsewhere(before, at + (n - 1) * 4, code, lo, lo + 4);
  }

  lemma {:induction false} SameSection(buf: seq<byte>, page: seq<byte>, from: nat)
    requires from + 512 <= |page| <= |buf| && buf[..|page|] == page
    ensures buf[from..from + 512] == page[from..from + 512]
  {
    assert buf[..|page|][from..from + 512] == buf[from..from + 512];
  }

  lemma {:induction false} CodesStored(mem: seq<byte>, at: nat, buf: seq<byte>, page: seq<byte>)
    requires |buf| == BUFFER && at + 16 <= |mem| && 0x800 <= |page| <= BUFFER && buf[..|page|] == page
    ensures HoldsCodes(PutEcc(mem, at, buf, 4), at, page)
  {
    forall i: nat | i < 4
      ensures HoldsCode(PutEcc(mem, at, buf, 4), at, page, i)
    {
      NewCode(mem, at, buf, i + 1);
      CodeStays(mem, at, buf, i + 1, 4, at + 4 * i);
      SameSection(buf, page, i * 512);
    }
  }

  lemma {:induction false} CodesElsewhere(mem: seq<byte>, at: nat, buf: seq<byte>, n: nat, from: nat, to: nat)
    requires n <= 4 && |buf| == BUFFER && at + 16 <= |mem| && from <= to <= |mem| && (to <= at || at + 16 <= from)
    ensures PutEcc(mem, at, buf, n)[from..to] == mem[from..to]
  {
    if n > 0 {
      CodesElsewhere(mem, at, buf, n - 1, from, to);
      var before, code := LastCode(mem, at, buf, n);
      PutElsewhere(before, at + (n - 1) * 4, code, from, to);
    }
  }

  /** The last code stored, and the memory before it. */
  lemma {:induction false} LastCode(mem: seq<byte>, at: nat, buf: seq<byte>, n: nat)
    returns (before: seq<byte>, code: seq<byte>)
    requires 0 < n <= 4 && |buf| == BUFFER && at + 4 * n <= |mem|
    ensures before == PutEcc(mem, at, buf, n - 1) && |before| == |mem|
    ensures code == EccBytes(Section(buf, n - 1)) && |code| == 4
    ensures PutEcc(mem, at, buf, n) == Put(before, at + (n - 1) * 4, code)
  {
    before, code := PutEcc(mem, at, buf, n - 1), EccBytes(Section(buf, n - 1));
    assert n * 512 == (n - 1) * 512 + 512;
  }

  // ----- Where spare area and codes lie -----

  /** The codes stored at the code register with bit 6 flipped stay clear of the spare area at the register. */
  predicate Apart(t: Ctrl) { t.ecc + 0x40 <= EccAddress(t) || EccAddress(t) + 0x40 <= t.ecc }

  lemma {:induction false} XorDouble(a: nat, b: nat)
    ensures Xor(2 * a, 2 * b) == 2 * Xor(a, b)
  {
  }

  /** A register that is a multiple of 0x40 keeps them apart. */
  lemma {:induction false} AlignedApart(t: Ctrl)
    requires t.ecc % 0x40 == 0
    ensures Apart(t)
  {
    var k := t.ecc / 0x40;
    assert t.ecc == 0x40 * k;
    XorEight(8 * k, 8);
    XorEight(k, 1);
    XorOne(k);
  }

  lemma {:induction false} XorEight(a: nat, b: nat)
    ensures Xor(8 * a, 8 * b) == 8 * Xor(a, b)
  {
    XorDouble(4 * a, 4 * b);
    XorDouble(2 * a, 2 * b);
    XorDouble(a, b);
  }

  lemma {:induction false} XorOne(k: nat)
    ensures Xor(k, 1) == if k % 2 == 0 then k + 1 else k - 1
  {
  }

  // ----- A flagged read of a whole page -----

  /** The order of a flagged whole-page read. */
  predicate CodeRead(o: Order) {
    o.bitmask == 0 && o.command == READ0B && o.read && !o.write && o.ecc && o.size == 0x840
  }

  /** Guest memory holds the codes of the page and, if it stays clear of them, its spare area. */
  predicate Told(t: Ctrl, v: Ctrl, page: seq<byte>) {
    && |v.guest| == |t.guest| && |page| == PAGE && t.ecc + 0x40 <= |t.guest|
    && HoldsCodes(v.guest, EccAddress(t), page)
    && (Apart(t) ==> v.guest[t.ecc..t.ecc + 0x40] == page[0x800..])
  }

  /** The read phase of a flagged whole-page read. Whatever overlaps, the codes are written last. */
  lemma {:induction false} CodeReadPhase(t: Ctrl, o: Order) returns (v: Ctrl)
    requires CodeRead(o) && |t.buf| == BUFFER && Reachable(t, 0x840)
    requires EccAddress(t) + 16 <= |t.guest| && ReadsDefined(t.chip, 0x840)
    ensures ReadPhaseDefined(t, o) && v == ReadPhase(t, o)
    ensures v.chip == AfterReads(t.chip, 0x840) && Told(t, v, BytesRead(t.chip, 0x840))
  {
    v := ReadPhase(t, o);
    var bytes := BytesRead(t.chip, 0x840);
    var buf := bytes + t.buf[0x840..];
    var guest := Put(Put(t.guest, t.data, bytes[..0x800]), t.ecc, bytes[0x800..]);
    assert buf[..|bytes|] == bytes;
    CodesStored(guest, EccAddress(t), buf, bytes);
    if Apart(t) {
      PutThere(Put(t.guest, t.data, bytes[..0x800]), t.ecc, bytes[0x800..]);
      CodesElsewhere(guest, EccAddress(t), buf, 4, t.ecc, t.ecc + 0x40);
    }
  }

  lemma {:induction false} CodeReadAfter(t0: Ctrl, s: seq<(nat, word)>, t: Ctrl, row: nat, at: nat, o: Order,
                                         flags: nat)
    returns (v: Ctrl)
    requires ScriptDefined(t0, s) && Script(t0, s) == t && CodeRead(o) && HasFlags(o, flags)
    requires Ready(t) && PageInside(t.chip, row) && t.chip.pagenum == row && t.chip.pageoffset == 0
    requires Reachable(t, 0x840) && EccAddress(t) + 16 <= |t.guest| && at == row * t.chip.fmt
    ensures var all := s + [(NFCMD, OrderWord(o.bitmask, o.command, flags, o.size))];
            ScriptDefined(t0, all) && v == Script(t0, all)
    ensures v.chip.image == t.chip.image && at + PAGE <= |t.chip.image| && Told(t, v, t.chip.image[at..at + PAGE])
  {
    var c := ReadIssued(t, row, o);
    PageBytes(c, row, 0x840, at);
    var u := t.(chip := c);
    v := CodeReadPhase(u, o);
    SameTold(t, u, v, t.chip.image[at..at + PAGE]);
    ScriptReads(t0, s, t, o, flags, c, v);
  }

  lemma {:induction false} SameTold(t: Ctrl, u: Ctrl, v: Ctrl, page: seq<byte>)
    requires u.ecc == t.ecc && |u.guest| == |t.guest| && Told(u, v, page)
    ensures Told(t, v, page)
  {
  }

  /** A script whose last order only reads. */
  lemma {:induction false} ScriptReads(t0: Ctrl, s: seq<(nat, word)>, t: Ctrl, o: Order, flags: nat, c: Chip, v: Ctrl)
    requires ScriptDefined(t0, s) && Script(t0, s) == t && HasFlags(o, flags) && o.bitmask < 32
    requires |t.address| == 6 && |t.buf| == BUFFER && 0 < o.size < BUFFER && o.read && !o.write
    requires RunDefined(t.chip, IssueEvents(t, o)) && c == Run(t.chip, IssueEvents(t, o))
    requires ReadPhaseDefined(t.(chip := c), o) && v == ReadPhase(t.(chip := c), o)
    ensures var all := s + [(NFCMD, OrderWord(o.bitmask, o.command, flags, o.size))];
            ScriptDefined(t0, all) && v == Script(t0, all)
  {
    ScriptOrder(t0, s, t, o, flags, v);
  }

  /** The script of a flagged whole-page read. */
  function CodeReadScript(row: nat, dst: word): seq<(nat, word)>
    requires row < 0x100_0000
  {
    ReadScript(row, 0, dst, 0x840, READ_CODES)
  }

  /** A flagged read of any page leaves the codes of its four sections, as they are in the image, in guest memory,
      and the spare area at the code register. */
  lemma {:induction false} ReadWithCodes(t: Ctrl, row: nat, dst: word) returns (v: Ctrl)
    requires Ready(t) && PageInside(t.chip, row) && Reachable(t.(data := dst), 0x840)
    requires EccAddress(t) + 16 <= |t.guest|
    ensures ScriptDefined(t, CodeReadScript(row, dst)) && v == Script(t, CodeReadScript(row, dst))
    ensures v.chip.image == t.chip.image
    ensures var at := row * t.chip.fmt; Told(t, v, t.chip.image[at..at + PAGE])
  {
    v := ReadByOrder(t, row, dst, row * t.chip.fmt, Order(0, READ0B, true, false, true, 0x840), READ_CODES);
  }

  lemma {:induction false} ReadByOrder(t: Ctrl, row: nat, dst: word, at: nat, o: Order, flags: nat) returns (v: Ctrl)
    requires Ready(t) && PageInside(t.chip, row) && Reachable(t.(data := dst), 0x840)
    requires EccAddress(t) + 16 <= |t.guest| && CodeRead(o) && HasFlags(o, flags) && at == row * t.chip.fmt
    ensures ScriptDefined(t, ReadScript(row, 0, dst, o.size, flags))
    ensures v == Script(t, ReadScript(row, 0, dst, o.size, flags)) && v.chip.image == t.chip.image
    ensures at + PAGE <= |t.chip.image| && Told(t, v, t.chip.image[at..at + PAGE])
  {
    var u := ReadSetup(t, row, 0);
    v := CodeFetch(u, row, dst, at, o, flags);
    ReadEnds(t, row, 0, dst, o.size, flags, u, v);
  }

  lemma {:induction false} CodeFetch(t: Ctrl, row: nat, dst: word, at: nat, o: Order, flags: nat) returns (v: Ctrl)
    requires Ready(t) && PageInside(t.chip, row) && t.chip.pagenum == row && t.chip.pageoffset == 0
    requires Reachable(t.(data := dst), 0x840) && EccAddress(t) + 16 <= |t.guest|
    requires CodeRead(o) && HasFlags(o, flags) && at == row * t.chip.fmt
    ensures ScriptDefined(t, FetchScript(dst, o.size, flags)) && v == Script(t, FetchScript(dst, o.size, flags))
    ensures v.chip.image == t.chip.image && at + PAGE <= |t.chip.image| && Told(t, v, t.chip.image[at..at + PAGE])
  {
    Script1(t, (NF_DATA, dst));
    v := CodeReadAfter(t, [(NF_DATA, dst)], t.(data := dst), row, at, o, flags);
  }

  // ----- A flagged program -----

  /** The order of a flagged program of the data area. */
  predicate CodeOpen(o: Order) {
    o.bitmask == 31 && o.command == SEQIN && !o.read && o.write && o.ecc && o.size == 0x800
  }

  /** Nothing but registers, buffers and guest bytes differs. */
  predicate SameDevice(t: Ctrl, v: Ctrl) {
    && v.ecc == t.ecc && |v.guest| == |t.guest|
    && v.chip.image == t.chip.image && v.chip.fmt == t.chip.fmt && v.chip.device == t.chip.device
  }

  /** The script of a flagged program of the data area, up to the data. */
  function CodeOpenScript(row: nat, src: word): seq<(nat, word)>
    requires row < 0x100_0000
  {
    OpenScript(row, Part(0, src, 0x800), WRITE_CODES)
  }

  /** A flagged 0x80 opens the page with the data area and stores the codes of its sections, so that the guest can
      add them to the spare area with a later part. */
  lemma {:induction false} OpenWithCodes(t: Ctrl, row: nat, src: word) returns (v: Ctrl)
    requires Ready(t) && row < 0x100_0000 && src + 0x800 <= |t.guest| && EccAddress(t) + 16 <= |t.guest|
    ensures ScriptDefined(t, CodeOpenScript(row, src)) && v == Script(t, CodeOpenScript(row, src))
    ensures var data := t.guest[src..src + 0x800];
            Loading(v, row, Put(Blank(), 0, data)) && HoldsCodes(v.guest, EccAddress(t), data)
    ensures SameDevice(t, v)
  {
    var p := Part(0, src, 0x800);
    var u := OpenRegisters(t, row, p);
    var o := Order(31, SEQIN, false, true, true, 0x800);
    v := CodeOpenAfter(t, [(NFADDR0, p.col), (NFADDR1, row), (NF_DATA, p.src)], u, row, o, WRITE_CODES);
  }

  lemma {:induction false} CodeOpenAfter(t0: Ctrl, s: seq<(nat, word)>, t: Ctrl, row: nat, o: Order, flags: nat)
    returns (v: Ctrl)
    requires ScriptDefined(t0, s) && Script(t0, s) == t && CodeOpen(o) && HasFlags(o, flags)
    requires Ready(t) && row < 0x100_0000 && Reachable(t, 0x800) && EccAddress(t) + 16 <= |t.guest|
    requires t.address[..5] == [0, 0, row % 256, row / 256 % 256, row / 0x1_0000 % 256]
    ensures var all := s + [(NFCMD, OrderWord(o.bitmask, o.command, flags, o.size))];
            ScriptDefined(t0, all) && v == Script(t0, all)
    ensures Loading(v, row, Put(Blank(), 0, Payload(t, 0x800))) && HoldsCodes(v.guest, EccAddress(t), Payload(t, 0x800))
    ensures SameDevice(t, v)
  {
    var c := CodeOpenIssued(t, row, o);
    var u := t.(chip := c);
    assert EccAddress(u) == EccAddress(t) && Payload(u, 0x800) == Payload(t, 0x800);
    v := CodeWritePhase(u, row, o);
    ScriptWrites(t0, s, t, o, flags, c, v);
  }

  lemma {:induction false} CodeOpenIssued(t: Ctrl, row: nat, o: Order) returns (c: Chip)
    requires CodeOpen(o) && Ready(t) && row < 0x100_0000
    requires t.address[..5] == [0, 0, row % 256, row / 256 % 256, row / 0x1_0000 % 256]
    ensures RunDefined(t.chip, IssueEvents(t, o)) && c == Run(t.chip, IssueEvents(t, o))
    ensures Loading(t.(chip := c), row, Blank()) && c.pageoffset == 0
    ensures c.image == t.chip.image && c.fmt == t.chip.fmt && c.device == t.chip.device
  {
    OpenCycles(t, 0, row, o);
    c := Run(t.chip, IssueEvents(t, o));
  }

  /** A script whose last order only writes. */
  lemma {:induction false} ScriptWrites(t0: Ctrl, s: seq<(nat, word)>, t: Ctrl, o: Order, flags: nat, c: Chip, v: Ctrl)
    requires ScriptDefined(t0, s) && Script(t0, s) == t && HasFlags(o, flags) && o.bitmask < 32
    requires |t.address| == 6 && |t.buf| == BUFFER && 0 < o.size < BUFFER && o.write && !o.read
    requires RunDefined(t.chip, IssueEvents(t, o)) && c == Run(t.chip, IssueEvents(t, o))
    requires WritePhaseDefined(t.(chip := c), o) && v == WritePhase(t.(chip := c), o)
    ensures var all := s + [(NFCMD, OrderWord(o.bitmask, o.command, flags, o.size))];
            ScriptDefined(t0, all) && v == Script(t0, all)
  {
    ScriptOrder(t0, s, t, o, flags, v);
  }

  lemma {:induction false} CodeWritePhase(t: Ctrl, row: nat, o: Order) returns (v: Ctrl)
    requires CodeOpen(o) && Loading(t, row, Blank()) && t.chip.pageoffset == 0
    requires Reachable(t, 0x800) && EccAddress(t) + 16 <= |t.guest|
    ensures WritePhaseDefined(t, o) && v == WritePhase(t, o)
    ensures Loading(v, row, Put(Blank(), 0, Payload(t, 0x800))) && HoldsCodes(v.guest, EccAddress(t), Payload(t, 0x800))
    ensures SameDevice(t, v)
  {
    var bytes := Payload(t, 0x800);
    LoadBytes(t.chip, bytes, 0, 0x800);
    assert bytes[0..0x800] == bytes;
    v := WritePhase(t, o);
    var buf := bytes + t.buf[0x800..];
    assert buf[..|bytes|] == bytes;
    CodesStored(t.guest, EccAddress(t), buf, bytes);
  }

  /** A whole program with a flagged first part: the codes of the data area are in guest memory before the other
      parts are taken from it, and the image receives the data area with those parts over it. */
  lemma {:induction false} ProgramWithCodes(t: Ctrl, row: nat, src: word, more: seq<Part>) returns (v: Ctrl, w: Ctrl)
    requires Ready(t) && PageInside(t.chip, row) && src + 0x800 <= |t.guest| && EccAddress(t) + 16 <= |t.guest|
    requires forall p :: p in more ==> PartFits(t, p)
    ensures ScriptDefined(t, CodeOpenScript(row, src)) && v == Script(t, CodeOpenScript(row, src))
    ensures HoldsCodes(v.guest, EccAddress(t), t.guest[src..src + 0x800]) && SameDevice(t, v)
    ensures ScriptDefined(v, MoreScript(more)) && w == Script(v, MoreScript(more))
    ensures Ready(w) && w.guest == v.guest && w.ecc == v.ecc
    ensures w.chip.fmt == t.chip.fmt && w.chip.device == t.chip.device
    ensures forall p :: p in more ==> PartFits(v, p)
    ensures var page := Overlay(v, Put(Blank(), 0, t.guest[src..src + 0x800]), more);
            w.chip.image == AndAt(t.chip.image, row * t.chip.fmt, page)
  {
    v := OpenWithCodes(t, row, src);
    forall p | p in more ensures PartFits(v, p) { SameFit(t, v, p); }
    LoadAndConfirm(v, row, Put(Blank(), 0, t.guest[src..src + 0x800]), more);
    w := Script(v, MoreScript(more));
  }

  lemma {:induction false} SameFit(t: Ctrl, v: Ctrl, p: Part)
    requires PartFits(t, p) && SameDevice(t, v)
    ensures PartFits(v, p)
  {
  }

  // ----- From programming to reading -----

  /** The twelve-bit halves a code word carries. */
  function Half0(code: seq<byte>): nat
    requires |code| == 4
  {
    var lo: nat, hi: nat := code[0], code[1];
    lo + 256 * (hi % 16)
  }

  function Half1(code: seq<byte>): nat
    requires |code| == 4
  {
    var lo: nat, hi: nat := code[2], code[3];
    lo + 256 * (hi % 16)
  }

  lemma {:induction false} CodeHalves(section: seq<byte>)
    requires |section| == SectionCode.SECTION
    ensures Half0(EccBytes(section)) == SectionCode.Half(section, false)
    ensures Half1(EccBytes(section)) == SectionCode.Half(section, true)
  {
    SectionCode.HalfBound(section, false);
    SectionCode.HalfBound(section, true);
  }

  /** What a comparison of two code words says. */
  ghost function Compare(stored: seq<byte>, computed: seq<byte>): SectionRepair.Verdict
    requires |stored| == 4 && |computed| == 4
  {
    SectionRepair.Verdicts(Half0(stored), Half1(stored), Half0(computed), Half1(computed))
  }

  /** The code of section i in the spare area of a page: the last sixteen bytes hold the four codes. */
  function SpareCode(page: seq<byte>, i: nat): seq<byte>
    requires |page| == PAGE && i < 4
  {
    page[0x830 + 4 * i..0x830 + 4 * i + 4]
  }

  /** A page whose spare area carries the codes of its sections. */
  predicate Protected(page: seq<byte>) {
    |page| == PAGE && forall i: nat :: i < 4 ==> SpareCode(page, i) == EccBytes(Section(page, i))
  }

  /** The flips that turned section i of a protected page into that of another one: in the data, and in the two
      halves of the code in the spare area. */
  ghost predicate Flipped(page: seq<byte>, found: seq<byte>, i: nat, flips: set<nat>, ks0: set<nat>, ks1: set<nat>)
    requires |page| == PAGE == |found| && i < 4
  {
    var code := SpareCode(found, i);
    SectionRepair.Read(Section(page, i), Section(found, i), flips, Half0(code), ks0, Half1(code), ks1)
  }

  /** The part that adds the codes to the spare area, from where the flagged part left them. */
  function CodePart(t: Ctrl): Part {
    AddressIsWord(t);
    Part(0x830, EccAddress(t), 16)
  }

  lemma {:induction false} AddressIsWord(t: Ctrl)
    ensures EccAddress(t) < 0x1_0000_0000
  {
    Pow2Of32();
    XorBound(t.ecc, 0x40, 32);
  }

  /** Parts for the spare area, and then the codes. */
  function SpareParts(t: Ctrl, spare: seq<Part>): seq<Part> { spare + [CodePart(t)] }

  lemma {:induction false} OverlaySnoc(t: Ctrl, page: seq<byte>, parts: seq<Part>, p: Part)
    requires |page| == PAGE && (forall q :: q in parts ==> PartFits(t, q)) && PartFits(t, p)
    ensures forall q :: q in parts + [p] ==> PartFits(t, q)
    ensures Overlay(t, page, parts + [p]) == Put(Overlay(t, page, parts), p.col, PartBytes(t, p))
    decreases |parts|
  {
    if parts == [] {
      assert parts + [p] == [p] && [p][1..] == [];
    } else {
      assert (parts + [p])[1..] == parts[1..] + [p];
      OverlaySnoc(t, Put(page, parts[0].col, PartBytes(t, parts[0])), parts[1..], p);
    }
  }

  /** Parts for the spare area leave the data area alone. */
  lemma {:induction false} OverlayKeepsData(t: Ctrl, page: seq<byte>, parts: seq<Part>)
    requires |page| == PAGE && forall p :: p in parts ==> PartFits(t, p) && p.col >= 0x800
    ensures Overlay(t, page, parts)[..0x800] == page[..0x800]
    decreases |parts|
  {
    if parts != [] {
      assert parts[0] in parts;
      var next := Put(page, parts[0].col, PartBytes(t, parts[0]));
      PutElsewhere(page, parts[0].col, PartBytes(t, parts[0]), 0, 0x800);
      assert next[0..0x800] == next[..0x800] && page[0..0x800] == page[..0x800];
      OverlayKeepsData(t, next, parts[1..]);
    }
  }

  /** Data area, spare parts and codes make a protected page. */
  lemma {:induction false} OverlayProtects(v: Ctrl, data: seq<byte>, spare: seq<Part>, p: Part)
    requires |data| == 0x800 && p == CodePart(v)
    requires HoldsCodes(v.guest, EccAddress(v), data) && PartFits(v, p)
    requires forall q :: q in spare ==> PartFits(v, q) && q.col >= 0x800
    ensures forall q :: q in spare + [p] ==> PartFits(v, q)
    ensures var page := Overlay(v, Put(Blank(), 0, data), spare + [p]); Protected(page) && page[..0x800] == data
  {
    var start := Put(Blank(), 0, data);
    var before := Overlay(v, start, spare);
    OverlaySnoc(v, start, spare, p);
    OverlayKeepsData(v, start, spare);
    assert start[..0x800] == data;
    var codes := PartBytes(v, p);
    var page := Put(before, 0x830, codes);
    PutElsewhere(before, 0x830, codes, 0, 0x800);
    assert page[..0x800] == page[0..0x800] == before[0..0x800] == before[..0x800];
    forall i: nat | i < 4 ensures SpareCode(page, i) == EccBytes(Section(page, i)) {
      assert HoldsCode(v.guest, EccAddress(v), data, i);
      CodeCopied(v.guest, EccAddress(v), before, codes, i);
      SameSection(page, data, i * 512);
    }
  }

  lemma {:induction false} CodeCopied(guest: seq<byte>, at: nat, before: seq<byte>, codes: seq<byte>, i: nat)
    requires i < 4 && |before| == PAGE && at + 16 <= |guest| && codes == guest[at..at + 16]
    ensures SpareCode(Put(before, 0x830, codes), i) == guest[at + 4 * i..at + 4 * i + 4]
  {
    SliceOfSlice(guest, at, at + 16, 4 * i, 4 * i + 4);
    PutThere(before, 0x830, codes);
    SliceOfSlice(Put(before, 0x830, codes), 0x830, 0x840, 4 * i, 4 * i + 4);
  }

  lemma {:induction false} SliceOfSlice(s: seq<byte>, a: nat, b: nat, i: nat, j: nat)
    requires a <= b <= |s| && i <= j <= b - a
    ensures s[a..b][i..j] == s[a + i..a + j]
  {
    var x, y, z := s[a..b][i..j], s[a + i..a + j], s[a..b];
    forall k | 0 <= k < j - i ensures x[k] == y[k] { assert x[k] == z[i + k] == s[a + i + k]; }
    assert x == y;
  }

  /** Programming an erased page with the code flag, parts for the spare area, and the codes it left in guest
      memory puts a protected page in place. */
  lemma {:induction false} ProgramProtected(t: Ctrl, row: nat, src: word, spare: seq<Part>)
    returns (v: Ctrl, w: Ctrl, page: seq<byte>)
    requires Ready(t) && PageInside(t.chip, row) && src + 0x800 <= |t.guest| && EccAddress(t) + 16 <= |t.guest|
    requires forall p :: p in spare ==> PartFits(t, p) && p.col >= 0x800
    requires var base := row * t.chip.fmt; t.chip.image[base..base + PAGE] == Blank()
    ensures ScriptDefined(t, CodeOpenScript(row, src)) && v == Script(t, CodeOpenScript(row, src))
    ensures ScriptDefined(v, MoreScript(SpareParts(t, spare))) && w == Script(v, MoreScript(SpareParts(t, spare)))
    ensures Ready(w) && w.ecc == t.ecc && |w.guest| == |t.guest|
    ensures w.chip.fmt == t.chip.fmt && w.chip.device == t.chip.device
    ensures Protected(page) && page[..0x800] == t.guest[src..src + 0x800]
    ensures w.chip.image == Put(t.chip.image, row * t.chip.fmt, page)
  {
    var more, data := SpareParts(t, spare), t.guest[src..src + 0x800];
    forall p | p in more ensures PartFits(t, p) { }
    v, w := ProgramWithCodes(t, row, src, more);
    forall p | p in spare ensures PartFits(v, p) { assert p in more; }
    assert CodePart(t) in more && EccAddress(v) == EccAddress(t);
    OverlayProtects(v, data, spare, CodePart(t));
    page := Overlay(v, Put(Blank(), 0, data), more);
    AndOnBlank(t.chip.image, row * t.chip.fmt, page);
  }

  /** The two code words of section i in guest memory after a flagged read: the one from the spare area, which the
      read put at the code register, and the one computed, at the register with bit 6 flipped. */
  ghost function GuestVerdict(t: Ctrl, guest: seq<byte>, i: nat): SectionRepair.Verdict
    requires i < 4 && t.ecc + 0x40 <= |guest| && EccAddress(t) + 16 <= |guest|
  {
    Compare(guest[t.ecc + 0x30 + 4 * i..t.ecc + 0x30 + 4 * i + 4],
            guest[EccAddress(t) + 4 * i..EccAddress(t) + 4 * i + 4])
  }

  lemma {:induction false} GuestTells(t: Ctrl, v: Ctrl, page: seq<byte>, found: seq<byte>, i: nat,
                                      flips: set<nat>, ks0: set<nat>, ks1: set<nat>)
    requires Told(t, v, found) && Apart(t) && |page| == PAGE && i < 4
    requires Flipped(page, found, i, flips, ks0, ks1) && |flips| + |ks0| + |ks1| <= 2
    ensures SectionRepair.Tells(GuestVerdict(t, v.guest, i), flips, ks0, ks1)
  {
    VerdictOf(t, v, found, i);
    CodesTell(page, found, i, flips, ks0, ks1);
  }

  /** The verdict compares the spare area's code with the code of the section. */
  lemma {:induction false} VerdictOf(t: Ctrl, v: Ctrl, found: seq<byte>, i: nat)
    requires Told(t, v, found) && Apart(t) && i < 4
    ensures GuestVerdict(t, v.guest, i) == Compare(SpareCode(found, i), EccBytes(Section(found, i)))
  {
    SpareSlice(v.guest, t.ecc, found, i);
    assert HoldsCode(v.guest, EccAddress(t), found, i);
  }

  lemma {:induction false} CodesTell(page: seq<byte>, found: seq<byte>, i: nat,
                                     flips: set<nat>, ks0: set<nat>, ks1: set<nat>)
    requires |page| == PAGE == |found| && i < 4
    requires Flipped(page, found, i, flips, ks0, ks1) && |flips| + |ks0| + |ks1| <= 2
    ensures SectionRepair.Tells(Compare(SpareCode(found, i), EccBytes(Section(found, i))), flips, ks0, ks1)
  {
    var code := SpareCode(found, i);
    CodeHalves(Section(found, i));
    SectionRepair.SecDed(Section(page, i), Section(found, i), flips, Half0(code), ks0, Half1(code), ks1);
  }

  lemma {:induction false} SpareSlice(guest: seq<byte>, ecc: nat, found: seq<byte>, i: nat)
    requires i < 4 && |found| == PAGE && ecc + 0x40 <= |guest| && guest[ecc..ecc + 0x40] == found[0x800..]
    ensures guest[ecc + 0x30 + 4 * i..ecc + 0x30 + 4 * i + 4] == SpareCode(found, i)
  {
    SliceOfSlice(guest, ecc, ecc + 0x40, 0x30 + 4 * i, 0x30 + 4 * i + 4);
    SliceOfSlice(found, 0x800, 0x840, 0x30 + 4 * i, 0x30 + 4 * i + 4);
    assert found[0x800..0x840] == found[0x800..];
  }

  /** Guest memory tells the flips of every section that has at most two. */
  ghost predicate GuestKnows(t: Ctrl, guest: seq<byte>, page: seq<byte>, found: seq<byte>)
    requires t.ecc + 0x40 <= |guest| && EccAddress(t) + 16 <= |guest| && |page| == PAGE == |found|
  {
    forall i: nat, flips: set<nat>, ks0: set<nat>, ks1: set<nat> ::
      i < 4 && Flipped(page, found, i, flips, ks0, ks1) && |flips| + |ks0| + |ks1| <= 2 ==>
        SectionRepair.Tells(GuestVerdict(t, guest, i), flips, ks0, ks1)
  }

  lemma {:induction false} EverySectionTold(t: Ctrl, v: Ctrl, page: seq<byte>, found: seq<byte>)
    requires Told(t, v, found) && Apart(t) && |page| == PAGE
    ensures GuestKnows(t, v.guest, page, found)
  {
    forall i: nat, flips: set<nat>, ks0: set<nat>, ks1: set<nat> |
      i < 4 && Flipped(page, found, i, flips, ks0, ks1) && |flips| + |ks0| + |ks1| <= 2
      ensures SectionRepair.Tells(GuestVerdict(t, v.guest, i), flips, ks0, ks1)
    {
      GuestTells(t, v, page, found, i, flips, ks0, ks1);
    }
  }

  /** The closed loop. A page is programmed with the code flag and its codes are added to the spare area; bits of the
      image change, in the data or in the spare area; the page is read with the code flag. Then guest memory alone
      tells, for each section with at most two flips, that there is none, which data or code bit it is, or that there
      are two. */
  lemma {:induction false} FlipsToldToGuest(t: Ctrl, row: nat, src: word, spare: seq<Part>, image: seq<byte>, dst: word)
    returns (v: Ctrl, w: Ctrl, x: Ctrl)
    requires Ready(t) && PageInside(t.chip, row) && src + 0x800 <= |t.guest| && t.ecc % 0x40 == 0
    requires EccAddress(t) + 16 <= |t.guest|
    requires Reachable(t.(data := dst), 0x840) && |image| == |t.chip.image|
    requires forall p :: p in spare ==> PartFits(t, p) && p.col >= 0x800
    requires var base := row * t.chip.fmt; t.chip.image[base..base + PAGE] == Blank()
    ensures ScriptDefined(t, CodeOpenScript(row, src)) && v == Script(t, CodeOpenScript(row, src))
    ensures ScriptDefined(v, MoreScript(SpareParts(t, spare))) && w == Script(v, MoreScript(SpareParts(t, spare)))
    ensures var aged := w.(chip := w.chip.(image := image));
            ScriptDefined(aged, CodeReadScript(row, dst)) && x == Script(aged, CodeReadScript(row, dst))
    ensures |x.guest| == |t.guest| && t.ecc + 0x40 <= |t.guest| && |w.chip.image| == |t.chip.image|
    ensures var base := row * t.chip.fmt;
            var page, found := w.chip.image[base..base + PAGE], image[base..base + PAGE];
            Protected(page) && page[..0x800] == t.guest[src..src + 0x800] && GuestKnows(t, x.guest, page, found)
  {
    var page;
    v, w, page := ProgramProtected(t, row, src, spare);
    var base := row * t.chip.fmt;
    PutThere(t.chip.image, base, page);
    var found := image[base..base + PAGE];
    x := ReadWithCodes(w.(chip := w.chip.(image := image)), row, dst);
    AlignedApart(t);
    EverySectionTold(t, x, page, found);
  }
}
