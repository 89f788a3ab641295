/** The receive ring refines a first-in first-out queue of packets, as long as it never fills exactly. */
module ReceiveRingFifo {
  import opened Bits
  import opened ReceiveRing

  // ----- Walking the ring -----

  lemma {:induction false} SlotShift(r: Ring, p: int, j: int, k: int)
    requires r.Valid() && r.Has(p) && 0 <= j <= r.Pages() && 0 <= k && j * PAGE + k < r.Pages() * PAGE
    ensures r.Has(r.Next(p, j)) && r.Slot(r.Next(p, j), k) == r.Slot(p, j * PAGE + k)
  {
  }

  /** Reading around the ring from page p gives the bytes f. */
  predicate Reads(r: Ring, sram: seq<byte>, p: int, f: seq<byte>)
    requires r.Valid() && |sram| == SRAM
  {
    r.Has(p) && |f| <= r.Pages() * PAGE && forall k :: 0 <= k < |f| ==> sram[r.Slot(p, k)] == f[k]
  }

  /** Following links from page p lists the packets q in order and ends at page e. */
  predicate Chain(r: Ring, sram: seq<byte>, p: int, q: seq<packet>, e: int)
    requires r.Valid() && |sram| == SRAM
    decreases |q|
  {
    if q == [] then p == e && r.Has(p)
    else
      var next := r.Next(p, Occupies(q[0]));
      r.Has(next) && Reads(r, sram, p, Frame(q[0], next)) && Chain(r, sram, next, q[1..], e)
  }

  function TotalPages(q: seq<packet>): int {
    if q == [] then 0 else Occupies(q[0]) + TotalPages(q[1..])
  }

  /** The unread packets are q: they lie linked from BNRY to CURR and leave at least one page. */
  ghost predicate Fifo(n: Nic, q: seq<packet>) {
    n.Sane() && Chain(n.ring, n.sram, n.bnry, q, n.curr) && TotalPages(q) < n.ring.Pages()
  }

  lemma {:induction false} ChainLength(r: Ring, sram: seq<byte>, p: int, q: seq<packet>, e: int)
    requires r.Valid() && |sram| == SRAM && Chain(r, sram, p, q, e) && TotalPages(q) < r.Pages()
    ensures 0 <= TotalPages(q) && e == r.Next(p, TotalPages(q)) && r.Has(p)
    decreases |q|
  {
    if q != [] {
      var next := r.Next(p, Occupies(q[0]));
      TotalNonNegative(q[1..]);
      ChainLength(r, sram, next, q[1..], e);
    }
  }

  lemma {:induction false} TotalNonNegative(q: seq<packet>)
    ensures TotalPages(q) >= 0
    decreases |q|
  {
    if q != [] { TotalNonNegative(q[1..]); }
  }

  /** The free pages the device computes are the pages the queue leaves. */
  lemma {:induction false} FreeIsRest(n: Nic, q: seq<packet>)
    requires Fifo(n, q)
    ensures n.FreePages() == n.ring.Pages() - TotalPages(q)
  {
    ChainLength(n.ring, n.sram, n.bnry, q, n.curr);
  }

  /** A chain only depends on the bytes it spans. */
  lemma {:induction false} ChainFrame(r: Ring, sram: seq<byte>, sram': seq<byte>, p: int, q: seq<packet>, e: int)
    requires r.Valid() && |sram| == SRAM == |sram'| && Chain(r, sram, p, q, e) && TotalPages(q) <= r.Pages() && r.Has(p)
    requires forall x :: 0 <= x < TotalPages(q) * PAGE ==> sram'[r.Slot(p, x)] == sram[r.Slot(p, x)]
    ensures Chain(r, sram', p, q, e)
    decreases |q|
  {
    if q != [] {
      var j := Occupies(q[0]);
      TotalNonNegative(q[1..]);
      forall x | 0 <= x < TotalPages(q[1..]) * PAGE
        ensures sram'[r.Slot(r.Next(p, j), x)] == sram[r.Slot(r.Next(p, j), x)]
      {
        SlotShift(r, p, j, x);
      }
      ChainFrame(r, sram, sram', r.Next(p, j), q[1..], e);
    }
  }

  lemma {:induction false} ChainSnoc(r: Ring, sram: seq<byte>, p: int, q: seq<packet>, e: int, m: packet)
    requires r.Valid() && |sram| == SRAM && Chain(r, sram, p, q, e)
    requires var next := r.Next(e, Occupies(m)); r.Has(next) && Reads(r, sram, e, Frame(m, next))
    ensures Chain(r, sram, p, q + [m], r.Next(e, Occupies(m)))
    ensures TotalPages(q + [m]) == TotalPages(q) + Occupies(m)
    decreases |q|
  {
    if q == [] {
      assert q + [m] == [m] && [m][1..] == [];
    } else {
      assert (q + [m])[1..] == q[1..] + [m];
      ChainSnoc(r, sram, r.Next(p, Occupies(q[0])), q[1..], e, m);
    }
  }

  // ----- One packet -----

  /** The stored frame reads back from CURR, and every other slot is untouched. */
  lemma {:induction false} StoredReads(n: Nic, p: packet, next: byte)
    requires n.Sane() && Occupies(p) <= n.ring.Pages() && next == n.ring.Next(n.curr, Occupies(p))
    ensures Reads(n.ring, Stored(n, p, next), n.curr, Frame(p, next))
    ensures forall x :: |p| + 4 <= x < n.ring.Pages() * PAGE ==>
              Stored(n, p, next)[n.ring.Slot(n.curr, x)] == n.sram[n.ring.Slot(n.curr, x)]
  {
  }

  /** Every accepted packet is stored behind the unread ones, which it leaves as they were. */
  lemma {:induction false} AcceptedIsStored(n: Nic, q: seq<packet>, raw: packet)
    requires Fifo(n, q) && !n.Deaf() && Occupies(Padded(raw)) <= n.FreePages()
    ensures var m := Receive(n, raw);
            && Chain(n.ring, m.sram, n.bnry, q, n.curr)
            && Chain(n.ring, m.sram, n.bnry, q + [Padded(raw)], m.curr)
            && m.curr == n.ring.Next(n.curr, Occupies(Padded(raw))) && m.bnry == n.bnry && m.ring == n.ring
    ensures TotalPages(q + [Padded(raw)]) == TotalPages(q) + Occupies(Padded(raw))
  {
    var p := Padded(raw);
    FreeIsRest(n, q);
    ChainLength(n.ring, n.sram, n.bnry, q, n.curr);
    var t := TotalPages(q);
    var next := n.ring.Next(n.curr, Occupies(p));
    var m := Receive(n, raw);
    StoredReads(n, p, next);
    forall x | 0 <= x < t * PAGE
      ensures m.sram[n.ring.Slot(n.bnry, x)] == n.sram[n.ring.Slot(n.bnry, x)]
    {
      UnreadSlot(n.ring, n.bnry, t, x);
    }
    ChainFrame(n.ring, n.sram, m.sram, n.bnry, q, n.curr);
    ChainSnoc(n.ring, m.sram, n.bnry, q, n.curr, p);
  }

  /** Accepting a packet that leaves a page free appends it to the queue. */
  lemma {:induction false} ReceiveAppends(n: Nic, q: seq<packet>, raw: packet)
    requires Fifo(n, q) && !n.Deaf() && Occupies(Padded(raw)) < n.FreePages()
    ensures Fifo(Receive(n, raw), q + [Padded(raw)])
    ensures Receive(n, raw).bnry == n.bnry && Receive(n, raw).ring == n.ring
  {
    AcceptedIsStored(n, q, raw);
    FreeIsRest(n, q);
  }

  /** Byte x of the unread span is byte x - t*256 + size of the ring seen from CURR. */
  lemma {:induction false} UnreadSlot(r: Ring, p: int, t: int, x: int)
    requires r.Valid() && r.Has(p) && 0 <= t < r.Pages() && 0 <= x < t * PAGE
    ensures r.Has(r.Next(p, t)) && r.Slot(p, x) == r.Slot(r.Next(p, t), (r.Pages() - t) * PAGE + x)
  {
  }

  // ----- What arrives, byte by byte -----

  /** The chip takes no packets: stopped, or one of the two loop-back bits is set. */
  predicate NotListening(n: Nic) { n.cr % 2 == 1 || n.tcr / 2 % 2 == 1 || n.tcr / 4 % 2 == 1 }

  function Length(raw: packet): nat { if |raw| < 60 then 60 else |raw| }

  /** Pages for the packet and its header. */
  function Wanted(raw: packet): nat { (Length(raw) + 4 + 255) / 256 }

  /** Flag k of a register is set and the other flags are as before. */
  ghost predicate Sets(before: byte, after: byte, k: nat) {
    forall j: nat :: BitOf(after, j) == (BitOf(before, j) || j == k)
  }

  lemma {:induction false} SetsFlag(x: byte, k: nat, flag: byte)
    requires (k == 0 && flag == 1) || (k == 4 && flag == 16)
    ensures Or(x, flag) % 256 == Or(x, flag) && Sets(x, Or(x, flag), k)
  {
    assert Pow2(8) == 256;
    OrBound(x, flag, 8);
    forall j: nat ensures BitOf(Or(x, flag), j) == (BitOf(x, j) || j == k) {
      OrBits(x, flag, j);
      FlagBit(k, flag, j);
    }
  }

  lemma {:induction false} FlagBit(k: nat, flag: byte, j: nat)
    requires (k == 0 && flag == 1) || (k == 4 && flag == 16)
    ensures BitOf(flag, j) <==> j == k
  {
    if j > 4 {
      assert BitOf(flag, j) == BitOf(flag / 2, j - 1) == BitOf(flag / 4, j - 2) == BitOf(flag / 8, j - 3);
      assert BitOf(flag / 8, j - 3) == BitOf(flag / 16, j - 4) == BitOf(flag / 32, j - 5);
      ZeroBits(j - 5);
    } else {
      assert j == 0 || j == 1 || j == 2 || j == 3 || j == 4;
    }
  }

  /** A chip that is not listening, and a packet that does not fit, leave everything but the overflow flag. */
  lemma {:induction false} NotTaken(n: Nic, raw: packet)
    requires n.Sane()
    ensures NotListening(n) ==> Receive(n, raw) == n
    ensures !NotListening(n) && Wanted(raw) > n.FreePages() ==>
              Receive(n, raw) == n.(isr := Receive(n, raw).isr) && Sets(n.isr, Receive(n, raw).isr, 4)
  {
    Listening(n);
    SetsFlag(n.isr, 4, 16);
  }

  lemma {:induction false} Listening(n: Nic)
    ensures n.Deaf() <==> NotListening(n)
  {
    var x := n.tcr / 2;
    assert n.tcr / 4 == x / 2;
    assert x % 4 == 2 * (x / 2 % 2) + x % 2;
  }

  /** The ring address of byte j behind CURR: after the last byte below PSTOP comes the first one of PSTART. */
  function Around(n: Nic, j: nat): int {
    var x := (n.curr - 0x40) * 256 + j;
    if x >= (n.ring.pstop - 0x40) * 256 then x - (n.ring.pstop - n.ring.pstart) * 256 else x
  }

  /** The byte of SRAM at ring address j behind CURR. */
  function RingByte(n: Nic, sram: seq<byte>, j: nat): byte
    requires n.Sane() && |sram| == SRAM && j < n.ring.Pages() * PAGE
  {
    sram[Around(n, j)]
  }

  /** An accepted packet is in the ring from the old CURR on: a header of status 1, the page behind the packet and the
      length, then the bytes that arrived, then zeros up to 60 bytes. CURR moves to that page, the receive flags are
      set, and nothing else changes. */
  lemma {:induction false} ArrivesWhole(n: Nic, raw: packet)
    requires n.Sane() && !NotListening(n) && Wanted(raw) <= n.FreePages()
    ensures var m := Receive(n, raw); var end := n.curr + Wanted(raw);
            && m == n.(sram := m.sram, curr := m.curr, isr := m.isr, rsr := m.rsr)
            && m.curr == (if end < n.ring.pstop then end else end - (n.ring.pstop - n.ring.pstart))
            && Sets(n.isr, m.isr, 0) && Sets(n.rsr, m.rsr, 0) && |m.sram| == SRAM
            && Length(raw) + 4 <= n.ring.Pages() * PAGE && HoldsPacket(n, m.sram, m.curr, raw)
  {
    Listening(n);
    SetsFlag(n.isr, 0, 1);
    SetsFlag(n.rsr, 0, 1);
    PacketInRing(n, raw, n.ring.Next(n.curr, Occupies(Padded(raw))));
  }

  predicate HoldsPacket(n: Nic, sram: seq<byte>, next: byte, raw: packet)
    requires n.Sane() && |sram| == SRAM && Length(raw) + 4 <= n.ring.Pages() * PAGE
  {
    && RingByte(n, sram, 0) == 1 && RingByte(n, sram, 1) == next
    && RingByte(n, sram, 2) == (Length(raw) + 4) % 256 && RingByte(n, sram, 3) == (Length(raw) + 4) / 256
    && forall j: nat :: 4 <= j < Length(raw) + 4 ==>
         RingByte(n, sram, j) == if j - 4 < |raw| then raw[j - 4] else 0
  }

  lemma {:induction false} PacketInRing(n: Nic, raw: packet, next: byte)
    requires n.Sane() && Occupies(Padded(raw)) <= n.ring.Pages() && next == n.ring.Next(n.curr, Occupies(Padded(raw)))
    ensures Length(raw) + 4 <= n.ring.Pages() * PAGE && HoldsPacket(n, Stored(n, Padded(raw), next), next, raw)
  {
    var p := Padded(raw);
    var sram := Stored(n, p, next);
    StoredReads(n, p, next);
    forall j: nat | j < |p| + 4 ensures RingByte(n, sram, j) == Frame(p, next)[j] { SameSlot(n, j); }
    FrameSpelled(raw, next);
  }

  lemma {:induction false} SameSlot(n: Nic, j: nat)
    requires n.Sane() && j < n.ring.Pages() * PAGE
    ensures Around(n, j) == n.ring.Slot(n.curr, j)
  {
  }

  /** The frame of a padded packet, byte by byte. */
  lemma {:induction false} FrameSpelled(raw: packet, next: byte)
    ensures var f := Frame(Padded(raw), next);
            && |f| == Length(raw) + 4 && f[0] == 1 && f[1] == next
            && f[2] == (Length(raw) + 4) % 256 && f[3] == (Length(raw) + 4) / 256
            && forall j: nat :: 4 <= j < |f| ==> f[j] == if j - 4 < |raw| then raw[j - 4] else 0
  {
  }

  // ----- The driver -----

  /** The driver takes the packet at BNRY and moves BNRY to the page its header links to. */
  function Take(n: Nic): Nic
    requires n.Sane()
  {
    n.(bnry := n.sram[n.ring.Slot(n.bnry, 1)])
  }

  /** Taking a packet delivers the oldest one, whole, and leaves the rest; the link stays in the ring. */
  lemma {:induction false} TakeRemovesOldest(n: Nic, q: seq<packet>)
    requires Fifo(n, q) && q != []
    ensures n.ring.Has(Take(n).bnry)
    ensures Reads(n.ring, n.sram, n.bnry, Frame(q[0], Take(n).bnry))
    ensures Fifo(Take(n), q[1..])
  {
    var next := n.ring.Next(n.bnry, Occupies(q[0]));
    assert n.sram[n.ring.Slot(n.bnry, 1)] == Frame(q[0], next)[1];
    TotalNonNegative(q[1..]);
  }

  // ----- A packet that takes all the free pages -----

  /** What the driver does: nothing while BNRY meets CURR, else take a packet. */
  function FetchNext(n: Nic): Nic
    requires n.Sane()
  {
    if n.bnry == n.curr then n else Take(n)
  }

  /** After an accepted packet the driver finds something to fetch exactly when the packet left a page; a
      packet that took all free pages makes CURR meet BNRY, and the full ring is taken for an empty one. */
  lemma {:induction false} SeenIffPageLeft(n: Nic, q: seq<packet>, raw: packet)
    requires Fifo(n, q) && !n.Deaf() && Occupies(Padded(raw)) <= n.FreePages()
    ensures var m := Receive(n, raw);
            && m.Sane()
            && (FetchNext(m) != m <==> Occupies(Padded(raw)) < n.FreePages())
            && (m.FreePages() == n.ring.Pages() <==> Occupies(Padded(raw)) == n.FreePages())
  {
    var m, p := Receive(n, raw), Padded(raw);
    AcceptedIsStored(n, q, raw);
    FreeIsRest(n, q);
    ChainLength(n.ring, n.sram, n.bnry, q, n.curr);
    if Occupies(p) < n.FreePages() {
      ReceiveAppends(n, q, raw);
      var all := q + [p];
      TakeRemovesOldest(m, all);
      TotalNonNegative(all[1..]);
      FirstLink(m, all);
    }
  }

  lemma {:induction false} FirstLink(n: Nic, q: seq<packet>)
    requires Fifo(n, q) && q != []
    ensures Take(n).bnry == n.ring.Next(n.bnry, Occupies(q[0]))
  {
    var next := n.ring.Next(n.bnry, Occupies(q[0]));
    assert n.sram[n.ring.Slot(n.bnry, 1)] == Frame(q[0], next)[1];
  }

  /** The unread packets survive every next arrival. */
  ghost predicate Safe(m: Nic, q: seq<packet>)
    requires m.Sane()
  {
    forall raw: packet :: Chain(m.ring, Receive(m, raw).sram, m.bnry, q, m.curr)
  }

  /** After an accepted packet the unread packets survive every next arrival exactly when the packet left a
      page; otherwise some next packet is accepted over the oldest one. */
  lemma {:induction false} SafeIffPageLeft(n: Nic, q: seq<packet>, raw: packet)
    requires Fifo(n, q) && !n.Deaf() && Occupies(Padded(raw)) <= n.FreePages()
    ensures var m := Receive(n, raw);
            && m.Sane()
            && (Safe(m, q + [Padded(raw)]) <==> Occupies(Padded(raw)) < n.FreePages())
  {
    var m, all := Receive(n, raw), q + [Padded(raw)];
    AcceptedIsStored(n, q, raw);
    SeenIffPageLeft(n, q, raw);
    if Occupies(Padded(raw)) < n.FreePages() {
      ReceiveAppends(n, q, raw);
      forall next: packet ensures Chain(m.ring, Receive(m, next).sram, m.bnry, all, m.curr) {
        if Occupies(Padded(next)) <= m.FreePages() { AcceptedIsStored(m, all, next); }
      }
    } else {
      FreeIsRest(n, q);
      ChainLength(n.ring, n.sram, n.bnry, q, n.curr);
      var next := Other(all[0]);
      Overwrites(m, all, next);
    }
  }

  /** A packet of 60 bytes whose frame differs from the frame of p. */
  function Other(p: packet): (o: packet)
    ensures |o| == 60 && (|p| == 60 ==> o[0] != p[0])
  {
    seq(60, i => if p != [] && p[0] == 0 then 1 else 0)
  }

  /** With BNRY at CURR and the ring counted as empty, the next packet lands on the oldest frame. */
  lemma {:induction false} Overwrites(m: Nic, q: seq<packet>, raw: packet)
    requires m.Sane() && !m.Deaf() && m.bnry == m.curr && q != [] && Chain(m.ring, m.sram, m.bnry, q, m.curr)
    requires raw == Other(q[0])
    ensures !Chain(m.ring, Receive(m, raw).sram, m.bnry, q, m.curr)
  {
    var next := m.ring.Next(m.curr, Occupies(raw));
    assert Padded(raw) == raw && Occupies(raw) == 1;
    StoredReads(m, raw, next);
    var s := Receive(m, raw).sram;
    assert s == Stored(m, raw, next);
    FramesDiffer(m.ring, s, m.bnry, q[0], m.ring.Next(m.bnry, Occupies(q[0])), raw, next);
  }

  /** No page holds both frames. */
  lemma {:induction false} FramesDiffer(r: Ring, sram: seq<byte>, p: int, a: packet, na: byte, b: packet, nb: byte)
    requires r.Valid() && |sram| == SRAM && Reads(r, sram, p, Frame(b, nb)) && b == Other(a)
    ensures !Reads(r, sram, p, Frame(a, na))
  {
    var f, g := Frame(a, na), Frame(b, nb);
    var k := if f[2] != g[2] then 2 else if f[3] != g[3] then 3 else 4;
    assert f[2] == g[2] && f[3] == g[3] ==> |a| == 60;
    assert f[k] != g[k] == sram[r.Slot(p, k)];
  }

  /** It happens: 1600 bytes and their header take all seven pages of an empty seven-page ring. */
  lemma {:induction false} LargePacketFillsRing(n: Nic, raw: packet)
    requires n.ring == Ring(0x40, 0x47) && n.Sane() && n.bnry == n.curr && !n.Deaf() && |raw| == 1600
    ensures Fifo(n, []) && Occupies(Padded(raw)) == n.FreePages() == 7
    ensures var m := Receive(n, raw);
            && Chain(m.ring, m.sram, m.bnry, [raw], m.curr) && FetchNext(m) == m
            && !Safe(m, [raw])
  {
    AcceptedIsStored(n, [], raw);
    assert [] + [raw] == [raw];
    SeenIffPageLeft(n, [], raw);
    SafeIffPageLeft(n, [], raw);
  }

  // ----- Runs -----

  datatype Move = Arrive(raw: packet) | Fetch

  function Act(n: Nic, m: Move): Nic
    requires n.Sane()
  {
    match m
    case Arrive(raw) => Receive(n, raw)
    case Fetch => FetchNext(n)
  }

  /** A queue of at most `pages` pages; a deaf one takes no packets. */
  function QueueAct(pages: int, deaf: bool, q: seq<packet>, m: Move): seq<packet> {
    match m
    case Arrive(raw) =>
      if !deaf && TotalPages(q) + Occupies(Padded(raw)) <= pages then q + [Padded(raw)] else q
    case Fetch => if q == [] then [] else q[1..]
  }

  function QueueRun(pages: int, deaf: bool, q: seq<packet>, ms: seq<Move>): seq<packet>
    decreases |ms|
  {
    if ms == [] then q else QueueRun(pages, deaf, QueueAct(pages, deaf, q, ms[0]), ms[1..])
  }

  /** The queue never fills exactly. */
  predicate NeverFull(pages: int, deaf: bool, q: seq<packet>, ms: seq<Move>)
    decreases |ms|
  {
    TotalPages(q) != pages && (ms != [] ==> NeverFull(pages, deaf, QueueAct(pages, deaf, q, ms[0]), ms[1..]))
  }

  /** The registers stay in the ring along the run. */
  predicate RunSane(n: Nic, ms: seq<Move>)
    decreases |ms|
  {
    n.Sane() && (ms != [] ==> RunSane(Act(n, ms[0]), ms[1..]))
  }

  function RunNic(n: Nic, ms: seq<Move>): Nic
    requires RunSane(n, ms)
    decreases |ms|
  {
    if ms == [] then n else RunNic(Act(n, ms[0]), ms[1..])
  }

  lemma {:induction false} EmptyIffMeeting(n: Nic, q: seq<packet>)
    requires Fifo(n, q)
    ensures q == [] <==> n.bnry == n.curr
  {
    ChainLength(n.ring, n.sram, n.bnry, q, n.curr);
    if q != [] { TotalNonNegative(q[1..]); }
  }

  lemma {:induction false} ActRefines(n: Nic, q: seq<packet>, m: Move)
    requires Fifo(n, q) && TotalPages(QueueAct(n.ring.Pages(), n.Deaf(), q, m)) != n.ring.Pages()
    ensures Fifo(Act(n, m), QueueAct(n.ring.Pages(), n.Deaf(), q, m))
    ensures Act(n, m).ring == n.ring && Act(n, m).Deaf() == n.Deaf()
  {
    FreeIsRest(n, q);
    match m
    case Arrive(raw) =>
      TotalSnoc(q, Padded(raw));
      if !n.Deaf() && Occupies(Padded(raw)) <= n.FreePages() { ReceiveAppends(n, q, raw); }
    case Fetch =>
      EmptyIffMeeting(n, q);
      if q != [] { TakeRemovesOldest(n, q); }
  }

  lemma {:induction false} TotalSnoc(q: seq<packet>, m: packet)
    ensures TotalPages(q + [m]) == TotalPages(q) + Occupies(m)
    decreases |q|
  {
    if q == [] {
      assert q + [m] == [m] && [m][1..] == [];
    } else {
      assert (q + [m])[1..] == q[1..] + [m];
      TotalSnoc(q[1..], m);
    }
  }

  /** In every run of arrivals and fetches in which the queue never fills exactly, the registers stay in the
      ring and the linked packets from BNRY to CURR are exactly the accepted packets not yet fetched, in order
      of arrival. */
  lemma {:induction false} RingIsFifo(n: Nic, q: seq<packet>, ms: seq<Move>)
    requires Fifo(n, q) && NeverFull(n.ring.Pages(), n.Deaf(), q, ms)
    ensures RunSane(n, ms) && Fifo(RunNic(n, ms), QueueRun(n.ring.Pages(), n.Deaf(), q, ms))
    decreases |ms|
  {
    if ms != [] {
      var q1 := QueueAct(n.ring.Pages(), n.Deaf(), q, ms[0]);
      assert NeverFull(n.ring.Pages(), n.Deaf(), q1, ms[1..]);
      ActRefines(n, q, ms[0]);
      RingIsFifo(Act(n, ms[0]), q1, ms[1..]);
    }
  }
}
