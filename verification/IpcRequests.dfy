/** IPC requests that own guest-heap blocks: every outstanding request holds the block of its message
    and one block per buffer it had to copy out. */
module IpcRequests {
  import opened GuestHeap
  import opened GuestHeapLaws

  // ----- What a request copies to the guest -----

  /** A buffer argument: none, an address the caller owns, or data to copy. */
  datatype Arg = NoBuffer | Given(addr: nat, size: nat) | Data(len: nat)

  datatype Kind =
    | Open(pathLength: nat)
    | Plain  // close and seek
    | ReadWrite(buf: Arg)
    | Ioctl(bufi: Arg, bufo: Arg)
    | Ioctlv(vector: seq<Arg>)

  const MESSAGE := 32  // the packed request: eight 32-bit words

  function Copied(a: Arg): seq<nat> { if a.Data? then [a.len] else [] }

  function CopiedAll(v: seq<Arg>): seq<nat> {
    if v == [] then [] else Copied(v[0]) + CopiedAll(v[1..])
  }

  /** Sizes of the buffers `prepare` allocates, in order. A path gets a terminator; a vector request
      appends the table of (address, size) pairs. */
  function Buffers(k: Kind): seq<nat> {
    match k
    case Open(n) => [n + 1]
    case Plain => []
    case ReadWrite(b) => Copied(b)
    case Ioctl(i, o) => Copied(i) + Copied(o)
    case Ioctlv(v) => CopiedAll(v) + [8 * |v|]
  }

  predicate NonEmpty(sizes: seq<nat>) { forall i :: 0 <= i < |sizes| ==> sizes[i] > 0 }

  lemma {:induction false} NonEmptyTail(sizes: seq<nat>)
    requires NonEmpty(sizes) && sizes != []
    ensures sizes[0] > 0 && NonEmpty(sizes[1..])
  {
  }

  // ----- The live map by address -----

  function LiveSet(h: Heap): set<nat> {
    set s | s in Live(h.blocks) :: AddressOf(h, s)
  }

  lemma {:induction false} LiveSetCells(h: Heap)
    requires h.Shaped()
    ensures forall a :: a in LiveSet(h) ==>
              a >= h.offset && (a - h.offset) / h.block in Live(h.blocks) && a == AddressOf(h, (a - h.offset) / h.block)
  {
    forall a | a in LiveSet(h)
      ensures a >= h.offset && (a - h.offset) / h.block in Live(h.blocks) && a == AddressOf(h, (a - h.offset) / h.block)
    {
      var s :| s in Live(h.blocks) && a == AddressOf(h, s);
      AddressCell(h, s);
    }
  }

  /** Address of every live block to its size in cells. */
  function LiveMap(h: Heap): (m: map<nat, nat>)
    requires h.Shaped()
    ensures m.Keys == LiveSet(h)
  {
    LiveSetCells(h);
    map a | a in LiveSet(h) :: Live(h.blocks)[(a - h.offset) / h.block]
  }

  lemma {:induction false} LiveMapAt(h: Heap, s: nat)
    requires h.Shaped()
    ensures AddressOf(h, s) in LiveMap(h) <==> s in Live(h.blocks)
    ensures s in Live(h.blocks) ==> LiveMap(h)[AddressOf(h, s)] == Live(h.blocks)[s]
  {
    AddressCell(h, s);
    if AddressOf(h, s) in LiveMap(h) {
      var t :| t in Live(h.blocks) && AddressOf(h, s) == AddressOf(h, t);
      AddressInjective(h, s, t);
    }
  }

  lemma {:induction false} MallocMap(h: Heap, size: nat)
    requires h.Valid() && size > 0
    ensures var (g, r) := h.Malloc(size);
            && g.Valid() && SameArena(h, g)
            && (r.Err? ==> g == h)
            && (r.Ok? ==> r.value !in LiveMap(h) && LiveMap(g) == LiveMap(h)[r.value := h.Needed(size)])
  {
    var s := MallocKeeps(h, size);
    var (g, r) := h.Malloc(size);
    if r.Ok? {
      LiveMapAt(h, s);
      LiveMapAt(g, s);
      MapsByCell(h, g, LiveMap(h)[r.value := h.Needed(size)], s, true);
    }
  }

  lemma {:induction false} FreeMap(h: Heap, addr: nat)
    requires h.Valid()
    ensures var (g, r) := h.Free(addr);
            && g.Valid() && SameArena(h, g)
            && (r.Err? ==> g == h)
            && (r.Ok? <==> addr in LiveMap(h))
            && (r.Ok? ==> LiveMap(g) == LiveMap(h) - {addr})
  {
    var s := FreeIsExact(h, addr);
    var (g, r) := h.Free(addr);
    if r.Ok? {
      LiveMapAt(h, s);
      LiveMapAt(g, s);
      MapsByCell(h, g, LiveMap(h) - {addr}, s, false);
    }
  }

  /** The address map of g follows from its cell map when only cell s differs from h. */
  lemma {:induction false} MapsByCell(h: Heap, g: Heap, m: map<nat, nat>, s: nat, added: bool)
    requires h.Shaped() && g.Shaped() && SameArena(h, g)
    requires forall t :: t != s ==> (t in Live(g.blocks) <==> t in Live(h.blocks))
    requires forall t :: t != s && t in Live(g.blocks) ==> Live(g.blocks)[t] == Live(h.blocks)[t]
    requires s in Live(g.blocks) <==> added
    requires AddressOf(h, s) in m <==> added
    requires added ==> m[AddressOf(h, s)] == Live(g.blocks)[s]
    requires forall a :: a != AddressOf(h, s) ==> (a in m <==> a in LiveMap(h))
    requires forall a :: a != AddressOf(h, s) && a in m ==> m[a] == LiveMap(h)[a]
    ensures LiveMap(g) == m
  {
    forall a | a in LiveMap(g) ensures a in m && m[a] == LiveMap(g)[a] {
      var t :| t in Live(g.blocks) && a == AddressOf(g, t);
      LiveMapAt(g, t);
      LiveMapAt(h, t);
      if a == AddressOf(h, s) { AddressInjective(h, s, t); }
    }
    forall a | a in m ensures a in LiveMap(g) {
      if a == AddressOf(h, s) {
        LiveMapAt(g, s);
      } else {
        var t :| t in Live(h.blocks) && a == AddressOf(h, t);
        LiveMapAt(g, t);
      }
    }
  }

  lemma {:induction false} SameLiveMapSameHeap(h: Heap, g: Heap)
    requires h.Valid() && g.Valid() && SameArena(h, g) && LiveMap(h) == LiveMap(g)
    ensures h == g
  {
    forall s: nat
      ensures s in Live(h.blocks) <==> s in Live(g.blocks)
      ensures s in Live(h.blocks) ==> Live(h.blocks)[s] == Live(g.blocks)[s]
    {
      LiveMapAt(h, s);
      LiveMapAt(g, s);
      assert AddressOf(h, s) == AddressOf(g, s);
    }
    assert Live(h.blocks) == Live(g.blocks);
    Canonical(h, g);
  }

  // ----- Several allocations, several frees -----

  datatype Allocation = Allocation(heap: Heap, addrs: seq<nat>, ok: bool)

  /** Allocate in order; the first failure raises and leaves the earlier blocks allocated. */
  function AllocAll(h: Heap, sizes: seq<nat>): (r: Allocation)
    requires h.Shaped()
    ensures r.heap.Shaped() && SameArena(h, r.heap)
    ensures |r.addrs| <= |sizes| && (r.ok <==> |r.addrs| == |sizes|)
    decreases |sizes|
  {
    if sizes == [] then Allocation(h, [], true)
    else
      var (g, a) := h.Malloc(sizes[0]);
      if a.Err? then Allocation(g, [], false)
      else
        var rest := AllocAll(g, sizes[1..]);
        Allocation(rest.heap, [a.value] + rest.addrs, rest.ok)
  }

  /** Free in order; the first failure raises. */
  function FreeAll(h: Heap, addrs: seq<nat>): (r: (Heap, bool))
    requires h.Shaped()
    ensures r.0.Shaped() && SameArena(h, r.0)
    decreases |addrs|
  {
    if addrs == [] then (h, true)
    else
      var (g, a) := h.Free(addrs[0]);
      if a.Err? then (g, false) else FreeAll(g, addrs[1..])
  }

  predicate Distinct(s: seq<nat>) {
    forall i, j :: 0 <= i < j < |s| ==> s[i] != s[j]
  }

  function Elements(s: seq<nat>): set<nat> { set x | x in s }

  /** The allocated blocks are distinct, were not live before, and are all that was added. */
  ghost predicate AddsExactly(h: Heap, r: Allocation)
    requires h.Shaped() && r.heap.Shaped()
  {
    && r.heap.Valid()
    && Distinct(r.addrs)
    && (forall a :: a in r.addrs ==> a !in LiveMap(h))
    && LiveMap(r.heap) - Elements(r.addrs) == LiveMap(h)
    && LiveMap(r.heap).Keys == LiveMap(h).Keys + Elements(r.addrs)
  }

  lemma {:induction false} AllocAllKeeps(h: Heap, sizes: seq<nat>)
    requires h.Valid() && NonEmpty(sizes)
    ensures AddsExactly(h, AllocAll(h, sizes))
    decreases |sizes|
  {
    if sizes == [] {
      NoAllocation(h, true);
    } else {
      NonEmptyTail(sizes);
      MallocMap(h, sizes[0]);
      var (g, a) := h.Malloc(sizes[0]);
      if a.Err? {
        NoAllocation(h, false);
      } else {
        AllocAllKeeps(g, sizes[1..]);
        ConsAllocation(h, g, a.value, h.Needed(sizes[0]), AllocAll(g, sizes[1..]));
      }
    }
  }

  lemma {:induction false} NoAllocation(h: Heap, ok: bool)
    requires h.Valid()
    ensures AddsExactly(h, Allocation(h, [], ok))
  {
    assert Elements([]) == {};
    assert LiveMap(h) - {} == LiveMap(h);
  }

  lemma {:induction false} ConsAllocation(h: Heap, g: Heap, a: nat, n: nat, rest: Allocation)
    requires h.Shaped() && g.Shaped() && rest.heap.Shaped() && AddsExactly(g, rest)
    requires a !in LiveMap(h) && LiveMap(g) == LiveMap(h)[a := n]
    ensures AddsExactly(h, Allocation(rest.heap, [a] + rest.addrs, rest.ok))
  {
    ElementsCons(a, rest.addrs);
    MapCons(LiveMap(h), LiveMap(rest.heap), a, n, Elements(rest.addrs));
  }

  lemma {:induction false} ElementsCons(a: nat, s: seq<nat>)
    ensures Elements([a] + s) == {a} + Elements(s)
    ensures Distinct(s) && a !in s ==> Distinct([a] + s)
  {
  }

  lemma {:induction false} MapCons(m: map<nat, nat>, end: map<nat, nat>, a: nat, n: nat, rest: set<nat>)
    requires a !in m && end - rest == m[a := n] && end.Keys == m[a := n].Keys + rest
    ensures end - ({a} + rest) == m && end.Keys == m.Keys + ({a} + rest)
  {
    assert end - ({a} + rest) == (end - rest) - {a};
  }

  lemma {:induction false} FreeAllExact(h: Heap, addrs: seq<nat>)
    requires h.Valid() && Distinct(addrs) && forall a :: a in addrs ==> a in LiveMap(h)
    ensures FreeAll(h, addrs).1 && FreeAll(h, addrs).0.Valid()
    ensures LiveMap(FreeAll(h, addrs).0) == LiveMap(h) - Elements(addrs)
    decreases |addrs|
  {
    if addrs != [] {
      assert addrs[0] in addrs;
      var g := FreeOne(h, addrs[0]);
      forall a | a in addrs[1..] ensures a in LiveMap(g) { assert a in addrs && a != addrs[0]; }
      FreeAllExact(g, addrs[1..]);
      MinusCons(LiveMap(h), addrs);
    }
  }

  lemma {:induction false} FreeOne(h: Heap, a: nat) returns (g: Heap)
    requires h.Valid() && a in LiveMap(h)
    ensures h.Free(a) == (g, Ok(())) && g.Valid() && LiveMap(g) == LiveMap(h) - {a}
  {
    FreeMap(h, a);
    g := h.Free(a).0;
  }

  lemma {:induction false} MinusCons(m: map<nat, nat>, s: seq<nat>)
    requires s != []
    ensures m - {s[0]} - Elements(s[1..]) == m - Elements(s)
  {
    assert Elements(s) == {s[0]} + Elements(s[1..]);
  }

  // ----- The request table -----

  /** The heap, and for every outstanding request the buffers it owns, by message address. */
  datatype Ipc = Ipc(heap: Heap, requests: map<nat, seq<nat>>) {
    /** All blocks request a owns. */
    function Owned(a: nat): seq<nat>
      requires a in requests
    {
      requests[a] + [a]
    }

    /** Requests own distinct live blocks, each block one owner. */
    ghost predicate Valid() {
      && heap.Valid()
      && (forall a :: a in requests ==> Distinct(Owned(a)) && forall b :: b in Owned(a) ==> b in LiveMap(heap))
      && (forall a, c, b :: a in requests && c in requests && b in Owned(a) && b in Owned(c) ==> a == c)
    }
  }

  /** async(): allocate the buffers and the message, then record the request under its address. */
  function Submit(d: Ipc, sizes: seq<nat>): (r: (Ipc, Result<nat>))
    requires d.heap.Shaped()
    ensures r.0.heap.Shaped()
  {
    var x := AllocAll(d.heap, sizes + [MESSAGE]);
    if x.ok then
      var addr := x.addrs[|sizes|];
      (Ipc(x.heap, d.requests[addr := x.addrs[..|sizes|]]), Ok(addr))
    else (Ipc(x.heap, d.requests), Err(OutOfMemory))
  }

  /** ipcreply(): free the buffers, free the message, forget the request. */
  function Reply(d: Ipc, addr: nat): (r: (Ipc, bool))
    requires d.heap.Shaped()
    ensures r.0.heap.Shaped()
  {
    if addr !in d.requests then (d, true)
    else
      var (h, ok) := FreeAll(d.heap, d.requests[addr]);
      if !ok then (Ipc(h, d.requests), false)
      else
        var (g, a) := h.Free(addr);
        if a.Err? then (Ipc(g, d.requests[addr := []]), false) else (Ipc(g, d.requests - {addr}), true)
  }

  /** A submission adds one request that owns exactly the new blocks. */
  lemma {:induction false} SubmitKeeps(d: Ipc, sizes: seq<nat>)
    requires d.Valid() && NonEmpty(sizes)
    ensures var (e, r) := Submit(d, sizes);
            && e.Valid() && SameArena(d.heap, e.heap)
            && (r.Err? ==> e.requests == d.requests && LiveMap(d.heap).Keys <= LiveMap(e.heap).Keys)
            && (r.Ok? ==>
                  && r.value !in d.requests
                  && e.requests == d.requests[r.value := e.requests[r.value]]
                  && (forall b :: b in e.Owned(r.value) ==> b !in LiveMap(d.heap))
                  && LiveMap(e.heap) - Elements(e.Owned(r.value)) == LiveMap(d.heap))
  {
    var x := Allocated(d.heap, sizes);
    if x.ok {
      var addr := x.addrs[|sizes|];
      assert x.addrs == x.addrs[..|sizes|] + [addr];
      AddOwner(d, x.heap, x.addrs[..|sizes|], addr);
    } else {
      SameOwners(d, x.heap);
    }
  }

  /** What the buffers and the message add to the heap. */
  lemma {:induction false} Allocated(h: Heap, sizes: seq<nat>) returns (x: Allocation)
    requires h.Valid() && NonEmpty(sizes)
    ensures x == AllocAll(h, sizes + [MESSAGE]) && AddsExactly(h, x)
    ensures x.heap.Valid() && SameArena(h, x.heap) && LiveMap(h).Keys <= LiveMap(x.heap).Keys
  {
    var all := sizes + [MESSAGE];
    assert NonEmpty(all);
    AllocAllKeeps(h, all);
    x := AllocAll(h, all);
    assert LiveMap(x.heap).Keys >= LiveMap(h).Keys;
  }

  /** More live blocks do not disturb the owners. */
  lemma {:induction false} SameOwners(d: Ipc, h: Heap)
    requires d.Valid() && h.Valid() && LiveMap(d.heap).Keys <= LiveMap(h).Keys
    ensures d.(heap := h).Valid()
  {
    forall a | a in d.requests ensures d.(heap := h).Owned(a) == d.Owned(a) {}
  }

  lemma {:induction false} OwnsItself(d: Ipc, a: nat)
    requires a in d.requests
    ensures a in d.Owned(a)
  {
    assert d.Owned(a)[|d.requests[a]|] == a;
  }

  /** A new request whose blocks were not live before becomes their only owner. */
  lemma {:induction false} AddOwner(d: Ipc, h: Heap, bufs: seq<nat>, addr: nat)
    requires d.Valid() && h.Valid() && LiveMap(d.heap).Keys <= LiveMap(h).Keys
    requires Distinct(bufs + [addr])
    requires forall b :: b in bufs + [addr] ==> b !in LiveMap(d.heap) && b in LiveMap(h)
    ensures addr !in d.requests && Ipc(h, d.requests[addr := bufs]).Valid()
  {
    var e := Ipc(h, d.requests[addr := bufs]);
    assert addr in bufs + [addr];
    forall a | a in d.requests ensures a != addr { OwnsItself(d, a); }
    assert e.Owned(addr) == bufs + [addr];
    forall a | a in d.requests ensures e.Owned(a) == d.Owned(a) {}
  }

  /** A reply to an outstanding request succeeds and releases exactly the blocks it owns. */
  lemma {:induction false} ReplyReleases(d: Ipc, addr: nat)
    requires d.Valid()
    ensures var (e, ok) := Reply(d, addr);
            && ok && e.Valid() && SameArena(d.heap, e.heap)
            && e.requests == d.requests - {addr}
            && (addr !in d.requests ==> e == d)
            && (addr in d.requests ==> LiveMap(e.heap) == LiveMap(d.heap) - Elements(d.Owned(addr)))
  {
    if addr in d.requests {
      var bufs := d.requests[addr];
      assert d.Owned(addr)[|bufs|] == addr;
      forall i, j | 0 <= i < j < |bufs| ensures bufs[i] != bufs[j] {
        assert d.Owned(addr)[i] == bufs[i] && d.Owned(addr)[j] == bufs[j];
      }
      forall b | b in bufs ensures b in LiveMap(d.heap) && b != addr {
        var i :| 0 <= i < |bufs| && bufs[i] == b;
        assert d.Owned(addr)[i] == b;
      }
      FreeAllExact(d.heap, bufs);
      var h := FreeAll(d.heap, bufs).0;
      assert addr in d.Owned(addr) && addr in LiveMap(h);
      FreeMap(h, addr);
      assert Elements(d.Owned(addr)) == Elements(bufs) + {addr};
      var e := Reply(d, addr).0;
      forall a, b | a in e.requests && b in e.Owned(a) ensures b in LiveMap(e.heap) {
        assert e.Owned(a) == d.Owned(a);
        assert b !in d.Owned(addr);
      }
    }
  }

  /** A request answered at once leaves the heap's block list exactly as it was. */
  lemma {:induction false} SubmitThenReply(d: Ipc, sizes: seq<nat>)
    requires d.Valid() && NonEmpty(sizes) && Submit(d, sizes).1.Ok?
    ensures var (e, r) := Submit(d, sizes); Reply(e, r.value) == (d, true)
  {
    SubmitKeeps(d, sizes);
    var (e, r) := Submit(d, sizes);
    ReplyReleases(e, r.value);
    var f := Reply(e, r.value).0;
    SameLiveMapSameHeap(f.heap, d.heap);
    assert f.requests == d.requests;
  }

  // ----- What a submission allocates, argument by argument -----

  /** A live block of at least n bytes. */
  predicate Room(h: Heap, addr: nat, n: nat)
    requires h.Shaped()
  {
    addr in LiveMap(h) && LiveMap(h)[addr] * h.block >= n
  }

  /** How many of the arguments carry data to copy. */
  function Copies(v: seq<Arg>): nat {
    if v == [] then 0 else Copies(v[..|v| - 1]) + if v[|v| - 1].Data? then 1 else 0
  }

  /** Request a owns, in order, a block for each argument that carries data, blocks for the extra sizes, and its own
      message of 32 bytes; all are new, all are distinct, and nothing else is. */
  ghost predicate OwnsCopies(d: Ipc, e: Ipc, a: nat, v: seq<Arg>, extra: seq<nat>)
    requires d.heap.Shaped() && e.heap.Shaped()
  {
    && a in e.requests && |e.requests[a]| == Copies(v) + |extra|
    && (forall i :: 0 <= i < |v| && v[i].Data? ==>
          Copies(v[..i]) < |e.requests[a]| && Room(e.heap, e.requests[a][Copies(v[..i])], v[i].len))
    && (forall j :: 0 <= j < |extra| ==> Room(e.heap, e.requests[a][Copies(v) + j], extra[j]))
    && Room(e.heap, a, 32)
    && Distinct(e.requests[a] + [a]) && (forall b :: b in e.requests[a] + [a] ==> b !in LiveMap(d.heap))
    && LiveMap(e.heap).Keys == LiveMap(d.heap).Keys + Elements(e.requests[a] + [a])
  }

  /** What the request of each kind owns once it is submitted: an opened path with its terminator, the copied buffer
      of a read or write, those of an ioctl, those of a vector and then the vector's table of 8 bytes an entry. */
  ghost predicate OwnsItsKind(d: Ipc, e: Ipc, a: nat, k: Kind)
    requires d.heap.Shaped() && e.heap.Shaped()
  {
    match k
    case Open(n) => OwnsCopies(d, e, a, [], [n + 1])
    case Plain => OwnsCopies(d, e, a, [], [])
    case ReadWrite(b) => OwnsCopies(d, e, a, [b], [])
    case Ioctl(i, o) => OwnsCopies(d, e, a, [i, o], [])
    case Ioctlv(v) => OwnsCopies(d, e, a, v, [8 * |v|])
  }

  /** No copied argument is empty, and a vector has an entry. */
  predicate NothingEmpty(k: Kind) {
    match k
    case Open(_) => true
    case Plain => true
    case ReadWrite(b) => b.Data? ==> b.len > 0
    case Ioctl(i, o) => (i.Data? ==> i.len > 0) && (o.Data? ==> o.len > 0)
    case Ioctlv(v) => v != [] && forall i :: 0 <= i < |v| && v[i].Data? ==> v[i].len > 0
  }

  /** Each block allocated has the size asked for, in order. */
  lemma {:induction false} AllocRooms(h: Heap, sizes: seq<nat>, i: nat)
    requires h.Valid() && NonEmpty(sizes) && i < |AllocAll(h, sizes).addrs|
    ensures var x := AllocAll(h, sizes); Room(x.heap, x.addrs[i], sizes[i])
    decreases |sizes|
  {
    var g, a := AllocHead(h, sizes);
    if i > 0 {
      NonEmptyTail(sizes);
      AllocRooms(g, sizes[1..], i - 1);
    } else {
      NonEmptyTail(sizes);
      AllocAllKeeps(g, sizes[1..]);
      FirstStays(g, AllocAll(g, sizes[1..]), a);
    }
  }

  /** The first block, and the heap that the others come from. */
  lemma {:induction false} AllocHead(h: Heap, sizes: seq<nat>) returns (g: Heap, a: nat)
    requires h.Valid() && NonEmpty(sizes) && AllocAll(h, sizes).addrs != []
    ensures g.Valid() && g.block == h.block && Room(g, a, sizes[0])
    ensures AllocAll(h, sizes).heap == AllocAll(g, sizes[1..]).heap
    ensures AllocAll(h, sizes).addrs == [a] + AllocAll(g, sizes[1..]).addrs
  {
    NonEmptyTail(sizes);
    MallocMap(h, sizes[0]);
    NeededCovers(h, sizes[0]);
    g, a := h.Malloc(sizes[0]).0, h.Malloc(sizes[0]).1.value;
  }

  /** Allocation stops at the first size that cannot be had. */
  lemma {:induction false} AllocStops(h: Heap, sizes: seq<nat>)
    requires h.Valid() && NonEmpty(sizes) && !AllocAll(h, sizes).ok
    ensures var x := AllocAll(h, sizes);
            |x.addrs| < |sizes| && x.heap.Malloc(sizes[|x.addrs|]).1 == Err(OutOfMemory)
    decreases |sizes|
  {
    NonEmptyTail(sizes);
    MallocMap(h, sizes[0]);
    var (g, a) := h.Malloc(sizes[0]);
    if a.Ok? { AllocStops(g, sizes[1..]); }
  }

  lemma {:induction false} FirstStays(g: Heap, rest: Allocation, a: nat)
    requires g.Shaped() && rest.heap.Shaped() && AddsExactly(g, rest) && a in LiveMap(g)
    ensures a in LiveMap(rest.heap) && LiveMap(rest.heap)[a] == LiveMap(g)[a]
  {
    KeptEntry(LiveMap(rest.heap), Elements(rest.addrs), LiveMap(g), a);
  }

  lemma {:induction false} KeptEntry(m: map<nat, nat>, gone: set<nat>, n: map<nat, nat>, a: nat)
    requires m - gone == n && a in n
    ensures a in m && m[a] == n[a]
  {
    assert a in m - gone;
  }

  /** The sizes of the copied arguments, in order. */
  lemma {:induction false} CopiedAt(v: seq<Arg>, i: nat)
    requires i < |v| && v[i].Data?
    ensures Copies(v[..i]) < |CopiedAll(v)| && CopiedAll(v)[Copies(v[..i])] == v[i].len
  {
    CopiedSplit(v, i);
    CopiedLength(v[..i]);
    assert CopiedAll(v[i..])[0] == v[i].len;
  }

  lemma {:induction false} CopiedSplit(v: seq<Arg>, i: nat)
    requires i <= |v|
    ensures CopiedAll(v) == CopiedAll(v[..i]) + CopiedAll(v[i..])
    decreases i
  {
    if i == 0 {
      assert v[0..] == v;
    } else {
      CopiedSplit(v[1..], i - 1);
      assert v[1..][..i - 1] == v[..i][1..] && v[1..][i - 1..] == v[i..];
    }
  }

  lemma {:induction false} CopiedLength(v: seq<Arg>)
    ensures |CopiedAll(v)| == Copies(v)
  {
    if v != [] {
      var n := |v| - 1;
      CopiedSplit(v, n);
      CopiedLength(v[..n]);
      assert v[n..] == [v[n]] && [v[n]][1..] == [];
    }
  }

  lemma {:induction false} CopiedNonEmpty(v: seq<Arg>)
    requires forall i :: 0 <= i < |v| && v[i].Data? ==> v[i].len > 0
    ensures NonEmpty(CopiedAll(v))
  {
    if v != [] { CopiedNonEmpty(v[1..]); }
  }

  /** A submission in terms of the blocks allocated. */
  lemma {:induction false} SubmitIs(d: Ipc, sizes: seq<nat>) returns (x: Allocation, a: nat)
    requires d.Valid() && NonEmpty(sizes) && Submit(d, sizes).1.Ok?
    ensures x == AllocAll(d.heap, sizes + [MESSAGE]) && x.ok && AddsExactly(d.heap, x) && |x.addrs| == |sizes| + 1
    ensures a == x.addrs[|sizes|] && Submit(d, sizes) == (Ipc(x.heap, d.requests[a := x.addrs[..|sizes|]]), Ok(a))
    ensures x.addrs == x.addrs[..|sizes|] + [a]
  {
    x := Allocated(d.heap, sizes);
    SubmitShape(d, sizes, x);
    a := x.addrs[|sizes|];
    LastApart(x.addrs, |sizes|);
  }

  lemma {:induction false} SubmitShape(d: Ipc, sizes: seq<nat>, x: Allocation)
    requires d.heap.Shaped() && x == AllocAll(d.heap, sizes + [MESSAGE])
    ensures x.ok <==> Submit(d, sizes).1.Ok?
    ensures x.ok ==> |x.addrs| == |sizes| + 1
    ensures x.ok ==> var a := x.addrs[|sizes|];
                     Submit(d, sizes) == (Ipc(x.heap, d.requests[a := x.addrs[..|sizes|]]), Ok(a))
  {
  }

  lemma {:induction false} LastApart(s: seq<nat>, n: nat)
    requires |s| == n + 1
    ensures s == s[..n] + [s[n]]
  {
  }

  lemma {:induction false} SubmitSizes(d: Ipc, v: seq<Arg>, extra: seq<nat>)
    requires d.Valid() && NonEmpty(extra) && forall i :: 0 <= i < |v| && v[i].Data? ==> v[i].len > 0
    requires Submit(d, CopiedAll(v) + extra).1.Ok?
    ensures var (e, r) := Submit(d, CopiedAll(v) + extra); OwnsCopies(d, e, r.value, v, extra)
  {
    CopiedNonEmpty(v);
    CopiedLength(v);
    var x, a := SubmitIs(d, CopiedAll(v) + extra);
    var bufs := x.addrs[..|CopiedAll(v) + extra|];
    RoomsFor(d.heap, v, extra, x, bufs, a);
  }

  lemma {:induction false} RoomsFor(h: Heap, v: seq<Arg>, extra: seq<nat>, x: Allocation, bufs: seq<nat>, a: nat)
    requires h.Valid() && NonEmpty(CopiedAll(v) + extra) && |CopiedAll(v)| == Copies(v)
    requires x == AllocAll(h, CopiedAll(v) + extra + [MESSAGE]) && x.ok && x.addrs == bufs + [a]
    ensures |bufs| == Copies(v) + |extra| && Room(x.heap, a, 32)
    ensures forall i :: 0 <= i < |v| && v[i].Data? ==>
              Copies(v[..i]) < |bufs| && Room(x.heap, bufs[Copies(v[..i])], v[i].len)
    ensures forall j :: 0 <= j < |extra| ==> Room(x.heap, bufs[Copies(v) + j], extra[j])
  {
    var all := CopiedAll(v) + extra + [MESSAGE];
    assert NonEmpty(all);
    AllocRooms(h, all, |all| - 1);
    forall i | 0 <= i < |v| && v[i].Data?
      ensures Copies(v[..i]) < |bufs| && Room(x.heap, bufs[Copies(v[..i])], v[i].len)
    {
      CopiedAt(v, i);
      AllocRooms(h, all, Copies(v[..i]));
    }
    forall j | 0 <= j < |extra| ensures Room(x.heap, bufs[Copies(v) + j], extra[j]) {
      AllocRooms(h, all, Copies(v) + j);
    }
  }

  lemma {:induction false} CopiedPair(i: Arg, o: Arg)
    ensures CopiedAll([i]) == Copied(i) && CopiedAll([i, o]) == Copied(i) + Copied(o)
  {
    assert [i, o][1..] == [o] && [o][1..] == [] && [i][1..] == [];
    assert CopiedAll([o]) == Copied(o) + [];
  }

  /** A submission that runs out of memory records nothing and keeps the blocks it had got: one for each size before
      the one that could not be had. */
  lemma {:induction false} FailedSubmitLeaves(d: Ipc, sizes: seq<nat>) returns (addrs: seq<nat>)
    requires d.Valid() && NonEmpty(sizes) && Submit(d, sizes).1.Err?
    ensures var e := Submit(d, sizes).0; var n := |addrs|;
            && e.requests == d.requests && n <= |sizes|
            && e.heap.Malloc(if n < |sizes| then sizes[n] else 32).1 == Err(OutOfMemory)
            && (forall i :: 0 <= i < n ==> Room(e.heap, addrs[i], sizes[i]))
            && Distinct(addrs) && (forall b :: b in addrs ==> b !in LiveMap(d.heap))
            && LiveMap(e.heap).Keys == LiveMap(d.heap).Keys + Elements(addrs)
  {
    var all := sizes + [MESSAGE];
    var x := AllocAll(d.heap, all);
    addrs := x.addrs;
    AllocAllKeeps(d.heap, all);
    AllocStops(d.heap, all);
    forall i | 0 <= i < |addrs| ensures Room(x.heap, addrs[i], sizes[i]) { AllocRooms(d.heap, all, i); }
  }

  /** A successful submission owns exactly what its kind needs. */
  lemma {:induction false} SubmitOwnsItsKind(d: Ipc, k: Kind)
    requires d.Valid() && NothingEmpty(k) && Submit(d, Buffers(k)).1.Ok?
    ensures var (e, r) := Submit(d, Buffers(k)); OwnsItsKind(d, e, r.value, k)
  {
    BuffersAre(k);
    NoneEmpty(k);
    SubmitSizes(d, Args(k), Extra(k));
  }

  /** The arguments of a request, and the sizes of what it copies besides. */
  function Args(k: Kind): seq<Arg> {
    match k
    case Open(_) => []
    case Plain => []
    case ReadWrite(b) => [b]
    case Ioctl(i, o) => [i, o]
    case Ioctlv(v) => v
  }

  function Extra(k: Kind): seq<nat> {
    match k
    case Open(n) => [n + 1]
    case Ioctlv(v) => [8 * |v|]
    case _ => []
  }

  lemma {:induction false} BuffersAre(k: Kind)
    ensures Buffers(k) == CopiedAll(Args(k)) + Extra(k)
  {
    match k
    case ReadWrite(b) => CopiedPair(b, b);
    case Ioctl(i, o) => CopiedPair(i, o);
    case _ =>
  }

  lemma {:induction false} NoneEmpty(k: Kind)
    requires NothingEmpty(k)
    ensures NonEmpty(Extra(k)) && forall i :: 0 <= i < |Args(k)| && Args(k)[i].Data? ==> Args(k)[i].len > 0
  {
  }

  lemma {:induction false} SubmittedOwns(d: Ipc, e: Ipc, r: Result<nat>, k: Kind)
    requires d.heap.Shaped() && (e, r) == Submit(d, Buffers(k))
    ensures e.heap.Shaped() && (r.Ok? && d.Valid() && NothingEmpty(k) ==> OwnsItsKind(d, e, r.value, k))
  {
    if r.Ok? && d.Valid() && NothingEmpty(k) { SubmitOwnsItsKind(d, k); }
  }

  // ----- Runs -----

  /** One step of a session. Alloc and Release are the caller's own buffers. */
  datatype Action = DoSubmit(kind: Kind) | DoReply(addr: nat) | Alloc(size: nat) | Release(addr: nat)

  predicate Allowed(d: Ipc, s: Action) {
    match s
    case DoSubmit(k) => NonEmpty(Buffers(k))
    case DoReply(_) => true
    case Alloc(n) => n > 0
    case Release(b) => forall a :: a in d.requests ==> b !in d.Owned(a)
  }

  function Act(d: Ipc, s: Action): (e: Ipc)
    requires d.heap.Shaped()
    ensures e.heap.Shaped()
  {
    match s
    case DoSubmit(k) => Submit(d, Buffers(k)).0
    case DoReply(a) => Reply(d, a).0
    case Alloc(n) => d.(heap := d.heap.Malloc(n).0)
    case Release(b) => d.(heap := d.heap.Free(b).0)
  }

  predicate SessionAllowed(d: Ipc, ss: seq<Action>)
    requires d.heap.Shaped()
    decreases |ss|
  {
    ss != [] ==> Allowed(d, ss[0]) && SessionAllowed(Act(d, ss[0]), ss[1..])
  }

  function Session(d: Ipc, ss: seq<Action>): Ipc
    requires d.heap.Shaped()
    decreases |ss|
  {
    if ss == [] then d else Session(Act(d, ss[0]), ss[1..])
  }

  lemma {:induction false} ActKeeps(d: Ipc, s: Action)
    requires d.Valid() && Allowed(d, s)
    ensures Act(d, s).Valid()
  {
    match s
    case DoSubmit(k) => SubmitKeeps(d, Buffers(k));
    case DoReply(a) => ReplyReleases(d, a);
    case Alloc(n) =>
      MallocMap(d.heap, n);
      SameOwners(d, d.heap.Malloc(n).0);
    case Release(b) =>
      FreeMap(d.heap, b);
      forall a | a in d.requests ensures Act(d, s).Owned(a) == d.Owned(a) {}
  }

  /** For every interleaving of submissions, replies and caller buffers, outstanding requests are
      keyed by distinct live addresses and own disjoint sets of live blocks. */
  lemma {:induction false} SessionKeepsOwnership(d: Ipc, ss: seq<Action>)
    requires d.Valid() && SessionAllowed(d, ss)
    ensures Session(d, ss).Valid()
    decreases |ss|
  {
    if ss != [] {
      ActKeeps(d, ss[0]);
      SessionKeepsOwnership(Act(d, ss[0]), ss[1..]);
    }
  }

  // ----- The objects -----

  datatype Handle = NoAddress | At(addr: nat)

  class IPCRequest {
    const kind: Kind
    var freebufs: seq<nat>
    var addr: Handle
    var done: bool

    constructor (kind: Kind)
      ensures this.kind == kind && freebufs == [] && addr == NoAddress && !done
    {
      this.kind := kind;
      freebufs, addr, done := [], NoAddress, false;
    }

    /** Copy the buffers out, one block each; an exception leaves the earlier ones owned. */
    method CopyBuffers(mem: MemMgr, sizes: seq<nat>, ghost last: seq<nat>) returns (ok: bool, ghost taken: seq<nat>)
      requires mem.View().Shaped()
      modifies mem, this`freebufs
      ensures mem.View().Shaped() && freebufs == old(freebufs) + taken
      ensures ok ==> |taken| == |sizes|
      ensures ok ==> AllocAll(old(mem.View()), sizes + last) == After(taken, AllocAll(mem.View(), last))
      ensures !ok ==> AllocAll(old(mem.View()), sizes + last) == Allocation(mem.View(), taken, false)
    {
      ghost var all, h := sizes + last, mem.View();
      taken := [];
      for i := 0 to |sizes|
        invariant mem.View().Shaped() && |taken| == i && freebufs == old(freebufs) + taken
        invariant AllocAll(h, all) == After(taken, AllocAll(mem.View(), all[i..]))
      {
        AllocNext(mem.View(), all, i, taken);
        var a := mem.Malloc(sizes[i]);
        if a.Err? { return false, taken; }
        freebufs, taken := freebufs + [a.value], taken + [a.value];
      }
      assert all[|sizes|..] == last;
      return true, taken;
    }

    method Prepare(mem: MemMgr) returns (r: Result<nat>)
      requires mem.View().Shaped()
      modifies mem, this
      ensures var x := AllocAll(old(mem.View()), Buffers(kind) + [MESSAGE]); var n := |Buffers(kind)|;
              && mem.View() == x.heap && done == old(done)
              && (x.ok ==> r == Ok(x.addrs[n]) && addr == At(x.addrs[n]) && freebufs == old(freebufs) + x.addrs[..n])
              && (!x.ok ==> r == Err(OutOfMemory) && addr == old(addr) && freebufs == old(freebufs) + x.addrs)
    {
      ghost var taken;
      var ok;
      ok, taken := CopyBuffers(mem, Buffers(kind), [MESSAGE]);
      if !ok { return Err(OutOfMemory); }
      ghost var h := mem.View();
      assert [MESSAGE][1..] == [];
      r := mem.Malloc(MESSAGE);
      if r.Ok? {
        addr := At(r.value);
        assert AllocAll(h, [MESSAGE]).addrs == [r.value];
      } else {
        assert taken + [] == taken;
      }
    }

    /** Free the buffers and the message block, if there is one. */
    method Free(mem: MemMgr) returns (ok: bool)
      requires mem.View().Shaped()
      modifies mem, this
      ensures done == old(done)
      ensures var (g, freed) := FreeAll(old(mem.View()), old(freebufs));
              if !freed then !ok && mem.View() == g && freebufs == old(freebufs) && addr == old(addr)
              else if old(addr) == NoAddress then ok && freebufs == [] && mem.View() == g && addr == NoAddress
              else freebufs == [] && ok == g.Free(old(addr.addr)).1.Ok? && mem.View() == g.Free(old(addr.addr)).0
                   && addr == if ok then NoAddress else old(addr)
    {
      ghost var h := mem.View();
      for i := 0 to |freebufs|
        invariant mem.View().Shaped()
        invariant freebufs == old(freebufs) && addr == old(addr) && done == old(done)
        invariant FreeAll(h, freebufs) == FreeAll(mem.View(), freebufs[i..])
      {
        assert freebufs[i..][1..] == freebufs[i + 1..];
        var f := mem.Free(freebufs[i]);
        if f.Err? { return false; }
      }
      freebufs := [];
      if addr.At? {
        var f := mem.Free(addr.addr);
        if f.Err? { return false; }
        addr := NoAddress;
      }
      return true;
    }
  }

  class SkyeyeIPC {
    const mem: MemMgr
    var requests: map<nat, IPCRequest>

    ghost function View(): Ipc
      reads this, mem, requests.Values
    {
      Ipc(mem.View(), map a | a in requests :: requests[a].freebufs)
    }

    /** Every recorded request knows its own address, so no object is recorded twice. */
    ghost predicate Linked()
      reads this, requests.Values
    {
      forall a :: a in requests ==> requests[a].addr == At(a)
    }

    constructor (start: nat, end: nat, block: nat)
      requires block > 0 && start % block == 0 && end % block == 0 && start <= end
      ensures Linked() && View() == Ipc(NewHeap(start, end, block), map[])
    {
      mem := new MemMgr(start, end, block);
      requests := map[];
    }

    /** Prepare a request and record it. */
    method Enter(req: IPCRequest) returns (r: Result<nat>)
      requires Linked() && View().heap.Shaped()
      requires req !in requests.Values && req.freebufs == [] && req.addr == NoAddress
      modifies this, mem, req
      ensures Linked() && (View(), r) == Submit(old(View()), Buffers(req.kind))
      ensures req.done == old(req.done)
      ensures requests == if r.Ok? then old(requests)[r.value := req] else old(requests)
      ensures r.Err? ==> req.freebufs == AllocAll(old(View()).heap, Buffers(req.kind) + [MESSAGE]).addrs
    {
      ghost var before := View();
      ghost var x, n := AllocAll(before.heap, Buffers(req.kind) + [MESSAGE]), |Buffers(req.kind)|;
      r := req.Prepare(mem);
      assert req.freebufs == if x.ok then x.addrs[..n] else x.addrs;
      assert forall a :: a in requests ==> requests[a] != req;
      assert View().requests == before.requests;
      if r.Ok? { Record(r.value, req); }
    }

    /** Submit a request, which then owns what its kind copies to the guest. */
    method Async(req: IPCRequest) returns (r: Result<nat>)
      requires Linked() && View().heap.Shaped()
      requires req !in requests.Values && req.freebufs == [] && req.addr == NoAddress
      modifies this, mem, req
      ensures Linked() && (View(), r) == Submit(old(View()), Buffers(req.kind))
      ensures req.done == old(req.done)
      ensures requests == if r.Ok? then old(requests)[r.value := req] else old(requests)
      ensures r.Err? ==> req.freebufs == AllocAll(old(View()).heap, Buffers(req.kind) + [MESSAGE]).addrs
      ensures r.Ok? && old(View()).Valid() && NothingEmpty(req.kind) ==>
                View().heap.Shaped() && OwnsItsKind(old(View()), View(), r.value, req.kind)
    {
      ghost var before := View();
      r := Enter(req);
      SubmittedOwns(before, View(), r, req.kind);
    }

    /** requests[addr] = req */
    method Record(addr: nat, req: IPCRequest)
      requires Linked() && req !in requests.Values && req.addr == At(addr)
      modifies this`requests
      ensures Linked() && requests == old(requests)[addr := req]
      ensures View() == old(View()).(requests := old(View()).requests[addr := req.freebufs])
    {
      ghost var before := View();
      assert forall a :: a in requests ==> requests[a] != req;
      requests := requests[addr := req];
      assert View().requests == before.requests[addr := req.freebufs];
    }

    /** A reply message: the request releases what it owns and is forgotten. */
    method IpcReply(addr: nat) returns (ok: bool)
      requires Linked() && View().heap.Shaped()
      modifies this, mem, if addr in requests then {requests[addr]} else {}
      ensures Linked() && (View(), ok) == Reply(old(View()), addr)
      ensures ok ==> requests == old(requests) - {addr}
      ensures ok && addr in old(requests) ==>
                var req := old(requests)[addr]; req.done && req.freebufs == [] && req.addr == NoAddress
    {
      if addr !in requests { return true; }
      ghost var before := View();
      var req := requests[addr];
      assert req.addr == At(addr);
      ok := req.Free(mem);
      assert forall a :: a in requests && a != addr ==> requests[a] != req;
      if ok {
        requests := requests - {addr};
        req.done := true;
      }
      assert View().requests == Reply(before, addr).0.requests;
    }
  }

  /** One step of AllocAll, after the blocks already taken. */
  lemma {:induction false} AllocStep(h: Heap, size: nat, rest: seq<nat>, done: seq<nat>)
    requires h.Shaped()
    ensures After(done, AllocAll(h, [size] + rest))
         == var (g, a) := h.Malloc(size);
            if a.Err? then Allocation(g, done, false) else After(done + [a.value], AllocAll(g, rest))
  {
    assert ([size] + rest)[1..] == rest;
    var (g, a) := h.Malloc(size);
    assert done + [] == done;
    if a.Ok? { assert done + ([a.value] + AllocAll(g, rest).addrs) == done + [a.value] + AllocAll(g, rest).addrs; }
  }

  lemma {:induction false} AllocNext(h: Heap, all: seq<nat>, i: nat, done: seq<nat>)
    requires h.Shaped() && i < |all|
    ensures After(done, AllocAll(h, all[i..]))
         == var (g, a) := h.Malloc(all[i]);
            if a.Err? then Allocation(g, done, false) else After(done + [a.value], AllocAll(g, all[i + 1..]))
  {
    assert all[i..] == [all[i]] + all[i + 1..];
    AllocStep(h, all[i], all[i + 1..], done);
  }

  /** An allocation continued after the blocks already taken. */
  function After(done: seq<nat>, rest: Allocation): Allocation {
    rest.(addrs := done + rest.addrs)
  }
}
