/** The RTL8019 receive ring: packets are stored in 256-byte pages between PSTART and PSTOP, each behind
    a four-byte header that links to the page of the next packet. */
module ReceiveRing {
  import opened Bits

  const START_PAGE := 0x40
  const END_PAGE := 0x80
  const PAGE := 256
  const SRAM := 0x4000
  const MTU := 1600

  const ISR_PRX := 0x01
  const ISR_OVW := 0x10
  const RSR_RXOK := 0x01

  type packet = p: seq<byte> | |p| <= MTU

  // ----- Geometry -----

  datatype Ring = Ring(pstart: byte, pstop: byte) {
    predicate Valid() { START_PAGE <= pstart < pstop <= END_PAGE }
    function Pages(): int { pstop - pstart }
    predicate Has(p: int) { pstart <= p < pstop }

    /** The page j pages further on. */
    function Next(p: int, j: int): int { if p + j >= pstop then p + j - Pages() else p + j }

    /** The SRAM position of byte k counted from the start of page p, around the ring. */
    function Slot(p: int, k: int): (x: int)
      requires Valid() && Has(p) && 0 <= k < Pages() * PAGE
      ensures (pstart - START_PAGE) * PAGE <= x < (pstop - START_PAGE) * PAGE <= SRAM
    {
      var x := (p - START_PAGE) * PAGE + k;
      if x >= (pstop - START_PAGE) * PAGE then x - Pages() * PAGE else x
    }
  }

  // ----- State -----

  datatype Nic = Nic(ring: Ring, cr: byte, tcr: byte, isr: byte, rsr: byte, bnry: byte, curr: byte, sram: seq<byte>) {
    predicate Sane() {
      ring.Valid() && ring.Has(bnry) && ring.Has(curr) && |sram| == SRAM
    }

    /** Stopped, or in a loopback mode. */
    predicate Deaf() { cr % 2 == 1 || tcr / 2 % 4 != 0 }

    function FreePages(): int {
      if curr < bnry then bnry - curr else ring.Pages() - (curr - bnry)
    }
  }

  /** A short packet is padded with zeros to 60 bytes. */
  function Padded(p: packet): (r: packet)
    ensures |r| >= 60
  {
    if |p| < 60 then p + seq(60 - |p|, i => 0) else p
  }

  /** Pages a padded packet and its header occupy. */
  function Occupies(p: packet): (n: int)
    ensures 0 < n <= 7 && (n - 1) * PAGE < |p| + 4 <= n * PAGE
  {
    (|p| + 4 + 255) / PAGE
  }

  /** Status, the next packet's page, and the length including the header, low byte first. */
  function Header(p: packet, next: byte): (h: seq<byte>)
    ensures |h| == 4
  {
    [RSR_RXOK, next, (|p| + 4) % 256, (|p| + 4) / 256]
  }

  function Frame(p: packet, next: byte): (f: seq<byte>)
    ensures |f| == |p| + 4
  {
    Header(p, next) + p
  }

  /** The copies the device makes: one stretch, or two when the frame passes PSTOP. */
  function Stored(n: Nic, p: packet, next: byte): (r: seq<byte>)
    requires n.Sane() && Occupies(p) <= n.ring.Pages() && next == n.ring.Next(n.curr, Occupies(p))
    ensures |r| == SRAM
  {
    var at := (n.curr - START_PAGE) * PAGE;
    var f := Frame(p, next);
    if next > n.curr || n.curr + Occupies(p) == n.ring.pstop then Put(n.sram, at, f)
    else
      var cut := (n.ring.pstop - n.curr) * PAGE;
      Put(Put(n.sram, at, f[..cut]), (n.ring.pstart - START_PAGE) * PAGE, f[cut..])
  }

  /** A packet arrives. */
  function Receive(n: Nic, raw: packet): Nic
    requires n.Sane()
  {
    var p := Padded(raw);
    if n.Deaf() then n
    else if Occupies(p) > n.FreePages() then n.(isr := Or(n.isr, ISR_OVW) % 256)
    else
      var next := n.ring.Next(n.curr, Occupies(p));
      n.(sram := Stored(n, p, next), curr := next, rsr := Or(n.rsr, RSR_RXOK) % 256, isr := Or(n.isr, ISR_PRX) % 256)
  }

  lemma {:induction false} CutFrame(p: packet, next: byte, cut: nat)
    requires 4 <= cut <= |p| + 4
    ensures Frame(p, next)[..cut] == Header(p, next) + p[..cut - 4]
    ensures Frame(p, next)[cut..] == p[cut - 4..]
  {
  }

  lemma {:induction false} StoredStraight(n: Nic, p: packet, next: byte)
    requires n.Sane() && Occupies(p) <= n.ring.Pages() && next == n.ring.Next(n.curr, Occupies(p))
    requires next > n.curr || n.curr + Occupies(p) == n.ring.pstop
    ensures (n.curr - START_PAGE) * PAGE + (|p| + 4) <= SRAM
    ensures Stored(n, p, next) == Put(n.sram, (n.curr - START_PAGE) * PAGE, Frame(p, next))
  {
  }

  lemma {:induction false} StoredAround(n: Nic, p: packet, next: byte, cut: nat)
    requires n.Sane() && Occupies(p) <= n.ring.Pages() && next == n.ring.Next(n.curr, Occupies(p))
    requires next <= n.curr && n.curr + Occupies(p) != n.ring.pstop && cut == (n.ring.pstop - n.curr) * PAGE
    ensures 4 <= cut <= |p| + 4 && (n.curr - START_PAGE) * PAGE + cut <= SRAM
    ensures (n.ring.pstart - START_PAGE) * PAGE + (|p| + 4 - cut) <= SRAM
    ensures Stored(n, p, next) == Put(Put(n.sram, (n.curr - START_PAGE) * PAGE, Frame(p, next)[..cut]),
                                      (n.ring.pstart - START_PAGE) * PAGE, Frame(p, next)[cut..])
  {
  }

  // ----- The device -----

  class NicDevice {
    var ring: Ring
    var cr: byte
    var tcr: byte
    var isr: byte
    var rsr: byte
    var bnry: byte
    var curr: byte
    const sram: array<byte>

    ghost function View(): Nic
      reads this, sram
    {
      Nic(ring, cr, tcr, isr, rsr, bnry, curr, sram[..])
    }

    constructor ()
      ensures fresh(sram) && View() == Nic(Ring(0, 0), 0x21, 0, 0x80, 0, 0, 0, seq(SRAM, i => 0))
    {
      ring, cr, tcr, isr, rsr, bnry, curr := Ring(0, 0), 0x21, 0, 0x80, 0, 0, 0;
      sram := new byte[SRAM](i => 0);
      new;
      assert sram[..] == seq(SRAM, i => 0);
    }

    method CopyIn(at: nat, bytes: seq<byte>)
      requires at + |bytes| <= sram.Length
      modifies sram
      ensures sram[..] == Put(old(sram[..]), at, bytes)
    {
      for i := 0 to |bytes|
        invariant sram[..] == Put(old(sram[..]), at, bytes[..i])
      {
        sram[at + i] := bytes[i];
        PutNext(old(sram[..]), at, bytes, i);
      }
      assert bytes[..|bytes|] == bytes;
    }

    /** Copy header and packet to CURR, wrapping at PSTOP. */
    method Store(p: packet, occupy: int, next: byte)
      requires View().Sane() && occupy == Occupies(p) <= ring.Pages() && next == ring.Next(curr, occupy)
      modifies sram
      ensures sram[..] == Stored(old(View()), p, next)
    {
      if next > curr || curr + occupy == ring.pstop {
        StoreStraight(p, next);
      } else {
        StoreAround(p, next);
      }
    }

    method StoreStraight(p: packet, next: byte)
      requires View().Sane() && Occupies(p) <= ring.Pages() && next == ring.Next(curr, Occupies(p))
      requires next > curr || curr + Occupies(p) == ring.pstop
      modifies sram
      ensures sram[..] == Stored(old(View()), p, next)
    {
      StoredStraight(View(), p, next);
      CopyTwo((curr - START_PAGE) * PAGE, Header(p, next), p);
    }

    method StoreAround(p: packet, next: byte)
      requires View().Sane() && Occupies(p) <= ring.Pages() && next == ring.Next(curr, Occupies(p))
      requires next <= curr && curr + Occupies(p) != ring.pstop
      modifies sram
      ensures sram[..] == Stored(old(View()), p, next)
    {
      var cut := (ring.pstop - curr) * PAGE;
      StoredAround(View(), p, next, cut);
      CopyAround((curr - START_PAGE) * PAGE, p, next, cut, (ring.pstart - START_PAGE) * PAGE);
    }

    /** Copy the part of header and packet that fits before PSTOP, and the rest to PSTART. */
    method CopyAround(at: nat, p: packet, next: byte, cut: nat, start: nat)
      requires 4 <= cut <= |p| + 4 && at + cut <= sram.Length && start + (|p| + 4 - cut) <= sram.Length
      modifies sram
      ensures sram[..] == Put(Put(old(sram[..]), at, Frame(p, next)[..cut]), start, Frame(p, next)[cut..])
    {
      CutFrame(p, next, cut);
      CopyTwo(at, Header(p, next), p[..cut - 4]);
      CopyIn(start, p[cut - 4..]);
    }

    /** Copy the header and, behind it, packet bytes. */
    method CopyTwo(at: nat, header: seq<byte>, bytes: seq<byte>)
      requires at + |header| + |bytes| <= sram.Length
      modifies sram
      ensures sram[..] == Put(old(sram[..]), at, header + bytes)
    {
      PutPut(sram[..], at, header, bytes);
      CopyIn(at, header);
      CopyIn(at + |header|, bytes);
    }

    /** The input handler, given what the network interface returned. */
    method Input(raw: packet)
      requires View().Sane()
      modifies this, sram
      ensures View() == Receive(old(View()), raw)
    {
      if cr % 2 == 1 || tcr / 2 % 4 != 0 { return; }
      var free := if curr < bnry then bnry - curr else (ring.pstop - ring.pstart) - (curr - bnry);
      var p := Padded(raw);
      var occupy := (|p| + 4 + 255) / PAGE;
      if occupy > free {
        isr := Or(isr, ISR_OVW) % 256;
        return;
      }
      var next := curr + occupy;
      if next >= ring.pstop { next := next - (ring.pstop - ring.pstart); }
      Store(p, occupy, next);
      curr := next;
      rsr := Or(rsr, RSR_RXOK) % 256;
      isr := Or(isr, ISR_PRX) % 256;
    }
  }
}
