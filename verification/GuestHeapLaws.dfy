/** What the allocator promises: first fit on the cell bitmap, exact free, a canonical block list, and
    the properties of live allocations after any run. */
module GuestHeapLaws {
  import opened Arith
  import opened GuestHeap

  // ----- The live map -----

  lemma {:induction false} LiveBounds(bs: seq<Block>, pos: nat, k: nat)
    requires k in Live(bs, pos)
    ensures pos <= k && k + Live(bs, pos)[k] <= pos + Total(bs)
    decreases |bs|
  {
    if !(bs[0].used && k == pos) { LiveBounds(bs[1..], pos + bs[0].size, k); }
  }

  lemma {:induction false} LiveConcat(a: seq<Block>, b: seq<Block>, pos: nat)
    requires Positive(a)
    ensures Live(a + b, pos) == Live(b, pos + Total(a)) + Live(a, pos)
    decreases |a|
  {
    if a == [] {
      assert a + b == b;
    } else {
      assert (a + b)[1..] == a[1..] + b;
      LiveConcat(a[1..], b, pos + a[0].size);
    }
  }

  /** Blocks left of p, one block at p, blocks right of it: three disjoint parts of the live map. */
  lemma {:induction false} LiveSplit(l: seq<Block>, mid: seq<Block>, r: seq<Block>)
    requires Positive(l)
    requires Positive(mid)
    ensures var p := Total(l); var q := p + Total(mid);
            && Live(l + mid + r) == Live(r, q) + Live(mid, p) + Live(l)
            && Live(l).Keys !! Live(mid, p).Keys !! Live(r, q).Keys
            && Total(l + mid + r) == q + Total(r)
  {
    var p := Total(l);
    var q := p + Total(mid);
    assert l + mid + r == l + (mid + r);
    LiveConcat(l, mid + r, 0);
    LiveConcat(mid, r, p);
    TotalConcat(l, mid + r);
    TotalConcat(mid, r);
    forall k | k in Live(l) ensures k < p { LiveBounds(l, 0, k); LivePositive(l, 0, k); }
    forall k | k in Live(mid, p) ensures p <= k < q { LiveBounds(mid, p, k); LivePositive(mid, p, k); }
    forall k | k in Live(r, q) ensures q <= k { LiveBounds(r, q, k); }
  }

  lemma {:induction false} LivePositive(bs: seq<Block>, pos: nat, k: nat)
    requires k in Live(bs, pos) && Positive(bs)
    ensures Live(bs, pos)[k] > 0
    decreases |bs|
  {
    if !(bs[0].used && k == pos) { LivePositive(bs[1..], pos + bs[0].size, k); }
  }

  /** The live map lists exactly the used blocks. */
  lemma {:induction false} LiveAt(bs: seq<Block>, i: nat)
    requires i < |bs| && Good(bs)
    ensures Start(bs, i) in Live(bs) <==> bs[i].used
    ensures bs[i].used ==> Live(bs)[Start(bs, i)] == bs[i].size
  {
    assert bs == bs[..i] + [bs[i]] + bs[i + 1..];
    LiveSplit(bs[..i], [bs[i]], bs[i + 1..]);
    var p := Start(bs, i);
    assert Live([bs[i]], p) == if bs[i].used then map[p := bs[i].size] else map[];
    if p in Live(bs[..i]) { LiveBounds(bs[..i], 0, p); LivePositive(bs[..i], 0, p); }
    var q := p + Total([bs[i]]);
    if p in Live(bs[i + 1..], q) { LiveBounds(bs[i + 1..], q, p); }
  }

  lemma {:induction false} LiveIndex(bs: seq<Block>, pos: nat, k: nat) returns (i: nat)
    requires k in Live(bs, pos)
    ensures i < |bs| && pos + Start(bs, i) == k
    decreases |bs|
  {
    if bs[0].used && k == pos {
      i := 0;
    } else {
      var j := LiveIndex(bs[1..], pos + bs[0].size, k);
      i := j + 1;
      assert bs[..i] == [bs[0]] + bs[1..][..j];
    }
  }

  /** Some live block covers cell c. */
  predicate Covered(live: map<nat, nat>, c: nat) {
    exists k :: k in live && k <= c < k + live[k]
  }

  /** The bitmap is determined by the live map. */
  lemma {:induction false} CellsLive(bs: seq<Block>, pos: nat, c: nat)
    requires c < Total(bs) && Positive(bs)
    ensures Cells(bs)[c] == Covered(Live(bs, pos), pos + c)
    decreases |bs|
  {
    var z, live, rest := bs[0].size, Live(bs, pos), Live(bs[1..], pos + bs[0].size);
    forall k | k in rest ensures pos + z <= k { LiveBounds(bs[1..], pos + z, k); }
    if c < z {
      if bs[0].used { assert pos in live && live[pos] == z; }
    } else {
      CellsLive(bs[1..], pos + z, c - z);
      assert Covered(rest, pos + c) == Cells(bs[1..])[c - z] == Cells(bs)[c];
      if Covered(rest, pos + c) {
        var k :| k in rest && k <= pos + c < k + rest[k];
        assert k in live && live[k] == rest[k];
      }
      if Covered(live, pos + c) {
        var k :| k in live && k <= pos + c < k + live[k];
        assert k in rest && live[k] == rest[k];
      }
    }
  }

  lemma {:induction false} OneBlock(b: Block, pos: nat)
    ensures Total([b]) == b.size
    ensures Live([b], pos) == if b.used then map[pos := b.size] else map[]
  {
    assert [b][1..] == [];
  }

  lemma {:induction false} TwoBlocks(b: Block, c: Block, pos: nat)
    ensures Total([b, c]) == b.size + c.size
    ensures b.size > 0 || !b.used ==>
              Live([b, c], pos) == (if b.used then map[pos := b.size] else map[])
                                 + (if c.used then map[pos + b.size := c.size] else map[])
  {
    assert [b, c][1..] == [c];
    OneBlock(c, pos + b.size);
  }

  // ----- malloc -----

  /** The pieces a first-fit block is split into. */
  function SplitBlock(b: Block, n: nat): seq<Block>
    requires n <= b.size
  {
    if b.size > n then [Block(n, true), Block(b.size - n, false)] else [Block(n, true)]
  }

  lemma {:induction false} SplitBlockLive(b: Block, n: nat, p: nat)
    requires 0 < n <= b.size
    ensures Total(SplitBlock(b, n)) == b.size && Live(SplitBlock(b, n), p) == map[p := n]
  {
    OneBlock(Block(n, true), p);
    if b.size > n { TwoBlocks(Block(n, true), Block(b.size - n, false), p); }
  }

  /** Splitting a free block between l and r adds one live entry. */
  lemma {:induction false} TakenLive(l: seq<Block>, b: Block, r: seq<Block>, n: nat)
    requires !b.used && 0 < n <= b.size && Positive(l)
    ensures Live(l + SplitBlock(b, n) + r) == Live(l + [b] + r)[Total(l) := n]
    ensures Total(l + SplitBlock(b, n) + r) == Total(l + [b] + r)
    ensures Total(l) !in Live(l + [b] + r)
  {
    var p := Total(l);
    OneBlock(b, p);
    SplitBlockLive(b, n, p);
    LiveSplit(l, [b], r);
    LiveSplit(l, SplitBlock(b, n), r);
    assert p in Live(SplitBlock(b, n), p);
    MapHole(Live(r, p + b.size), Live(l), p, n);
  }

  lemma {:induction false} TakenKeeps(bs: seq<Block>, i: nat, n: nat)
    requires Good(bs) && i < |bs| && !bs[i].used && 0 < n <= bs[i].size
    ensures Good(Taken(bs, i, n)) && Total(Taken(bs, i, n)) == Total(bs)
    ensures Start(bs, i) !in Live(bs)
    ensures Live(Taken(bs, i, n)) == Live(bs)[Start(bs, i) := n]
  {
    TakenGood(bs, i, n);
    TakenShape(bs, i, n);
    TakenLive(bs[..i], bs[i], bs[i + 1..], n);
  }

  lemma {:induction false} TakenShape(bs: seq<Block>, i: nat, n: nat)
    requires i < |bs| && n <= bs[i].size
    ensures bs == bs[..i] + [bs[i]] + bs[i + 1..]
    ensures Taken(bs, i, n) == bs[..i] + SplitBlock(bs[i], n) + bs[i + 1..]
  {
  }

  lemma {:induction false} MapHole(r: map<nat, nat>, l: map<nat, nat>, p: nat, n: nat)
    requires p !in l && p !in r
    ensures r + map[p := n] + l == (r + map[] + l)[p := n]
    ensures r + map[] + l == (r + map[p := n] + l) - {p}
  {
  }

  lemma {:induction false} TakenGood(bs: seq<Block>, i: nat, n: nat)
    requires Good(bs) && i < |bs| && !bs[i].used && 0 < n <= bs[i].size
    ensures Good(Taken(bs, i, n))
  {
  }

  /** The block containing cell c. */
  lemma {:induction false} CellBlock(bs: seq<Block>, c: nat) returns (j: nat)
    requires c < Total(bs)
    ensures j < |bs| && Start(bs, j) <= c < Start(bs, j) + bs[j].size
    ensures Cells(bs)[c] == bs[j].used
    decreases |bs|
  {
    if c < bs[0].size {
      j := 0;
    } else {
      var k := CellBlock(bs[1..], c - bs[0].size);
      j := k + 1;
      assert bs[..j] == [bs[0]] + bs[1..][..k];
    }
  }

  lemma {:induction false} BlockCells(bs: seq<Block>, i: nat, k: nat)
    requires i < |bs| && k < bs[i].size
    ensures Start(bs, i) + k < Total(bs) && Cells(bs)[Start(bs, i) + k] == bs[i].used
    decreases |bs|
  {
    if i > 0 {
      BlockCells(bs[1..], i - 1, k);
      assert bs[..i] == [bs[0]] + bs[1..][..i - 1];
    }
  }

  /** A free run lies inside one free block, because free neighbours are always merged. */
  lemma {:induction false} RunInsideBlock(bs: seq<Block>, s: nat, n: nat) returns (j: nat)
    requires Good(bs) && 0 < n && FreeRun(Cells(bs), s, n)
    ensures j < |bs| && !bs[j].used && Start(bs, j) <= s && bs[j].size >= n
  {
    j := CellBlock(bs, s);
    StartNext(bs, j);
    if s + n > Start(bs, j + 1) {
      if j + 1 < |bs| {
        BlockCells(bs, j + 1, 0);
      } else {
        WholeStart(bs);
      }
      assert false;
    }
  }

  lemma {:induction false} WholeStart(bs: seq<Block>)
    ensures Start(bs, |bs|) == Total(bs)
  {
    assert bs[..|bs|] == bs;
  }

  lemma {:induction false} StartMonotone(bs: seq<Block>, i: nat, j: nat)
    requires i <= j <= |bs|
    ensures Start(bs, i) <= Start(bs, j)
    decreases j
  {
    if i < j { StartMonotone(bs, i, j - 1); StartNext(bs, j - 1); }
  }

  /** malloc fails exactly when no run of the needed length is free, and otherwise takes the lowest. */
  lemma {:induction false} MallocIsFirstFit(h: Heap, size: nat)
    requires h.Valid() && size > 0
    ensures var cells := Cells(h.blocks); var n := h.Needed(size);
            match h.Malloc(size).1
            case Err(f) => f == OutOfMemory && h.Malloc(size).0 == h && forall s: nat :: !FreeRun(cells, s, n)
            case Ok(addr) =>
              exists s: nat ::
                && addr == h.offset + h.block * s
                && FreeRun(cells, s, n)
                && forall s' :: 0 <= s' < s ==> !FreeRun(cells, s', n)
  {
    var cells, n := Cells(h.blocks), h.Needed(size);
    NeededCovers(h, size);
    var i := FirstFit(h.blocks, n);
    forall s: nat | FreeRun(cells, s, n) ensures i < |h.blocks| && Start(h.blocks, i) <= s {
      var j := RunInsideBlock(h.blocks, s, n);
      StartMonotone(h.blocks, i, j);
    }
    if i < |h.blocks| {
      var s := Start(h.blocks, i);
      BlockCells(h.blocks, i, n - 1);
      forall k | s <= k < s + n ensures !cells[k] { BlockCells(h.blocks, i, k - s); }
      assert FreeRun(cells, s, n);
      assert h.Malloc(size).1 == Ok(h.offset + h.block * s);
    }
  }

  /** The cells taken cover the request and no more than one block's worth of slack. */
  lemma {:induction false} NeededCovers(h: Heap, size: nat)
    requires h.Shaped()
    ensures size <= h.Needed(size) * h.block < size + h.block
    ensures size > 0 ==> h.Needed(size) > 0
  {
    var m := size + h.block - 1;
    assert m == h.block * (m / h.block) + m % h.block;
    assert h.Needed(size) * h.block == h.block * (m / h.block);
  }

  /** The address of cell s. */
  function AddressOf(h: Heap, s: nat): nat { h.offset + h.block * s }

  /** Everything but the block list. */
  predicate SameArena(h: Heap, g: Heap) {
    g.offset == h.offset && g.count == h.count && g.block == h.block
  }

  /** malloc of at least one byte keeps the heap and adds one new live block, at cell s. */
  lemma {:induction false} MallocKeeps(h: Heap, size: nat) returns (s: nat)
    requires h.Valid() && size > 0
    ensures var (g, r) := h.Malloc(size);
            && g.Valid() && SameArena(h, g)
            && (r.Err? ==> g == h)
            && (r.Ok? ==>
                  && r.value == AddressOf(h, s)
                  && s !in Live(h.blocks)
                  && Live(g.blocks) == Live(h.blocks)[s := h.Needed(size)])
  {
    NeededCovers(h, size);
    var i := FirstFit(h.blocks, h.Needed(size));
    s := Start(h.blocks, i);
    if i < |h.blocks| { TakenKeeps(h.blocks, i, h.Needed(size)); }
  }

  // ----- free -----

  /** The blocks a free merges. */
  function Merged(bs: seq<Block>, i: nat): seq<Block>
    requires i < |bs|
  {
    (if i != 0 && !bs[i - 1].used then [bs[i - 1]] else []) + [bs[i]]
    + (if i != |bs| - 1 && !bs[i + 1].used then [bs[i + 1]] else [])
  }

  /** The blocks before and after the merged ones. */
  function Left(bs: seq<Block>, i: nat): seq<Block>
    requires i < |bs|
  {
    if i != 0 && !bs[i - 1].used then bs[..i - 1] else bs[..i]
  }

  function Right(bs: seq<Block>, i: nat): seq<Block>
    requires i < |bs|
  {
    if i != |bs| - 1 && !bs[i + 1].used then bs[i + 2..] else bs[i + 1..]
  }

  /** Freeing block i leaves the blocks around it, less the free neighbours it absorbs. */
  lemma {:induction false} FreedShape(bs: seq<Block>, i: nat)
    requires i < |bs|
    ensures Freed(bs, i) == Left(bs, i) + [Block(Total(Merged(bs, i)), false)] + Right(bs, i)
  {
    MergedTotal(bs, i);
    if i != 0 && !bs[i - 1].used { FreedBack(bs, i); } else { NextShape(bs, i, bs[i].size); }
  }

  lemma {:induction false} FreedBack(bs: seq<Block>, i: nat)
    requires 0 < i < |bs| && !bs[i - 1].used
    ensures var z := bs[i].size + bs[i - 1].size + if i != |bs| - 1 && !bs[i + 1].used then bs[i + 1].size else 0;
            Freed(bs, i) == bs[..i - 1] + [Block(z, false)] + Right(bs, i)
  {
    var rest, z := bs[..i] + bs[i + 1..], bs[i].size + bs[i - 1].size;
    WithoutBlock(bs, i);
    assert Freed(bs, i) == MergedNext(rest, i - 1, z);
    NextShape(rest, i - 1, z);
  }

  lemma {:induction false} MergedTotal(bs: seq<Block>, i: nat)
    requires i < |bs|
    ensures Total(Merged(bs, i)) == (if i != 0 && !bs[i - 1].used then bs[i - 1].size else 0) + bs[i].size
                                    + (if i != |bs| - 1 && !bs[i + 1].used then bs[i + 1].size else 0)
  {
    MergedTotals(bs, i, 0);
  }

  lemma {:induction false} WithoutBlock(bs: seq<Block>, i: nat)
    requires 0 < i < |bs|
    ensures var rest := bs[..i] + bs[i + 1..];
            && rest[..i - 1] == bs[..i - 1] && rest[i..] == bs[i + 1..]
            && (i != |bs| - 1 ==> rest[i] == bs[i + 1] && rest[i + 1..] == bs[i + 2..])
  {
  }

  lemma {:induction false} NextShape(bs: seq<Block>, i: nat, z: nat)
    requires i < |bs|
    ensures i != |bs| - 1 && !bs[i + 1].used ==>
              MergedNext(bs, i, z) == bs[..i] + [Block(z + bs[i + 1].size, false)] + bs[i + 2..]
    ensures i == |bs| - 1 || bs[i + 1].used ==> MergedNext(bs, i, z) == bs[..i] + [Block(z, false)] + bs[i + 1..]
  {
  }

  lemma {:induction false} MergedShape(bs: seq<Block>, i: nat)
    requires i < |bs|
    ensures Left(bs, i) + Merged(bs, i) + Right(bs, i) == bs
    ensures i != 0 && !bs[i - 1].used ==> Start(bs, i) == Total(Left(bs, i)) + bs[i - 1].size
    ensures i == 0 || bs[i - 1].used ==> Left(bs, i) == bs[..i]
  {
    if i != 0 && !bs[i - 1].used {
      StartNext(bs, i - 1);
      Rejoin(bs, i - 1, i);
    } else {
      Rejoin(bs, i, i);
    }
  }

  /** The list is the blocks before the first merged one, the merged ones, and the rest. */
  lemma {:induction false} Rejoin(bs: seq<Block>, from: nat, i: nat)
    requires from <= i < |bs| && i <= from + 1 && from == |Left(bs, i)| && Left(bs, i) == bs[..from]
    ensures Left(bs, i) + Merged(bs, i) + Right(bs, i) == bs
  {
    var to := if i != |bs| - 1 && !bs[i + 1].used then i + 2 else i + 1;
    assert Merged(bs, i) == bs[from..to];
    assert Right(bs, i) == bs[to..];
  }

  /** Their total, and the one live entry among them. */
  lemma {:induction false} MergedTotals(bs: seq<Block>, i: nat, pos: nat)
    requires i < |bs|
    ensures var before := if i != 0 && !bs[i - 1].used then bs[i - 1].size else 0;
            && Total(Merged(bs, i))
               == before + bs[i].size + (if i != |bs| - 1 && !bs[i + 1].used then bs[i + 1].size else 0)
            && (bs[i].used && bs[i].size > 0 ==> Live(Merged(bs, i), pos) == map[pos + before := bs[i].size])
  {
    var b := bs[i];
    if i != 0 && !bs[i - 1].used {
      var a := bs[i - 1];
      if i != |bs| - 1 && !bs[i + 1].used {
        var c := bs[i + 1];
        TwoBlocks(b, c, pos + a.size);
        assert Merged(bs, i) == [a, b, c] && [a, b, c][1..] == [b, c];
      } else {
        TwoBlocks(a, b, pos);
        assert Merged(bs, i) == [a, b];
      }
    } else if i != |bs| - 1 && !bs[i + 1].used {
      TwoBlocks(b, bs[i + 1], pos);
      assert Merged(bs, i) == [b, bs[i + 1]];
    } else {
      OneBlock(b, pos);
      assert Merged(bs, i) == [b];
    }
  }

  lemma {:induction false} FreedGood(bs: seq<Block>, i: nat)
    requires Good(bs) && i < |bs| && bs[i].used
    ensures Good(Freed(bs, i))
  {
    FreedShape(bs, i);
    MergedTotal(bs, i);
    UsedAround(bs, i);
    GoodWithHole(Left(bs, i), Total(Merged(bs, i)), Right(bs, i));
  }

  /** Free neighbours are absorbed, so the next blocks on both sides are used. */
  lemma {:induction false} UsedAround(bs: seq<Block>, i: nat)
    requires Good(bs) && i < |bs|
    ensures var l, r := Left(bs, i), Right(bs, i);
            Good(l) && Good(r) && (l != [] ==> l[|l| - 1].used) && (r != [] ==> r[0].used)
  {
  }

  lemma {:induction false} GoodWithHole(l: seq<Block>, z: nat, r: seq<Block>)
    requires Good(l) && Good(r) && z > 0 && (l != [] ==> l[|l| - 1].used) && (r != [] ==> r[0].used)
    ensures Good(l + [Block(z, false)] + r)
  {
  }

  /** Replacing blocks with one live entry by a hole of the same total removes that entry. */
  lemma {:induction false} HoleLive(l: seq<Block>, mid: seq<Block>, r: seq<Block>, k: nat, z: nat)
    requires Positive(l)
    requires Positive(mid)
    requires mid != [] && Live(mid, Total(l)) == map[k := z]
    ensures Live(l + [Block(Total(mid), false)] + r) == Live(l + mid + r) - {k}
    ensures Total(l + [Block(Total(mid), false)] + r) == Total(l + mid + r)
  {
    var hole := Block(Total(mid), false);
    assert Total(mid) > 0;
    OneBlock(hole, Total(l));
    LiveSplit(l, mid, r);
    LiveSplit(l, [hole], r);
    assert k in Live(mid, Total(l));
    MapHole(Live(r, Total(l) + Total(mid)), Live(l), k, z);
  }

  lemma {:induction false} PartsPositive(bs: seq<Block>, i: nat)
    requires Good(bs) && i < |bs|
    ensures Positive(Left(bs, i)) && Positive(Merged(bs, i)) && Merged(bs, i) != []
  {
  }

  lemma {:induction false} FreedParts(bs: seq<Block>, i: nat) returns (l: seq<Block>, mid: seq<Block>, r: seq<Block>)
    requires Good(bs) && i < |bs| && bs[i].used
    ensures bs == l + mid + r && Freed(bs, i) == l + [Block(Total(mid), false)] + r
    ensures Positive(l) && Positive(mid) && mid != []
    ensures Live(mid, Total(l)) == map[Start(bs, i) := bs[i].size]
  {
    l, mid, r := Left(bs, i), Merged(bs, i), Right(bs, i);
    FreedShape(bs, i);
    MergedShape(bs, i);
    PartsPositive(bs, i);
    MergedTotals(bs, i, Total(l));
  }

  /** Freeing a used block removes it from the live map and changes nothing else. */
  lemma {:induction false} FreedKeeps(bs: seq<Block>, i: nat)
    requires Good(bs) && i < |bs| && bs[i].used
    ensures Good(Freed(bs, i)) && Total(Freed(bs, i)) == Total(bs)
    ensures Live(Freed(bs, i)) == Live(bs) - {Start(bs, i)}
  {
    FreedGood(bs, i);
    var l, mid, r := FreedParts(bs, i);
    HoleLive(l, mid, r, Start(bs, i), bs[i].size);
  }

  lemma {:induction false} StartStrict(bs: seq<Block>, i: nat, j: nat)
    requires Good(bs) && i < j <= |bs|
    ensures Start(bs, i) < Start(bs, j)
    decreases j
  {
    StartNext(bs, j - 1);
    if i < j - 1 { StartStrict(bs, i, j - 1); }
  }

  lemma {:induction false} LocateStart(bs: seq<Block>, i: nat)
    requires Good(bs) && i < |bs|
    ensures Locate(bs, Start(bs, i)) == i
  {
    forall j | 0 <= j < i ensures Start(bs, j) < Start(bs, i) { StartStrict(bs, j, i); }
    LocateIs(bs, Start(bs, i), i);
  }

  predicate IsLive(h: Heap, addr: nat) {
    exists s :: s in Live(h.blocks) && addr == AddressOf(h, s)
  }

  lemma {:induction false} AddressInjective(h: Heap, s: nat, t: nat)
    requires h.block > 0 && AddressOf(h, s) == AddressOf(h, t)
    ensures s == t
  {
    if s < t { MulStep(h.block, s, t); }
    if t < s { MulStep(h.block, t, s); }
  }

  /** The checks free makes on an address, for the address of a cell. */
  lemma {:induction false} AddressCell(h: Heap, s: nat)
    requires h.Shaped()
    ensures AddressOf(h, s) % h.block == 0 && (AddressOf(h, s) - h.offset) / h.block == s
  {
    DivExact(h.block, s);
    assert AddressOf(h, s) == h.block * (h.offset / h.block + s);
    DivExact(h.block, h.offset / h.block + s);
  }

  /** free of the address of cell s. */
  function FreeCell(h: Heap, s: nat): (Heap, Result<()>) {
    if s >= h.count then (h, Err(AfterHeap))
    else
      var i := Locate(h.blocks, s);
      if i == |h.blocks| || Start(h.blocks, i) != s then (h, Err(BadAddress))
      else if !h.blocks[i].used then (h, Err(AlreadyFree))
      else (h.(blocks := Freed(h.blocks, i)), Ok(()))
  }

  lemma {:induction false} FreeCellExact(h: Heap, s: nat)
    requires h.Valid()
    ensures var (g, r) := FreeCell(h, s);
            && (r.Ok? <==> s in Live(h.blocks))
            && (r.Err? ==> g == h)
            && g.Valid() && SameArena(h, g)
            && (r.Ok? ==> Live(g.blocks) == Live(h.blocks) - {s})
  {
    if s in Live(h.blocks) {
      LiveBounds(h.blocks, 0, s);
      LivePositive(h.blocks, 0, s);
      var i := LiveIndex(h.blocks, 0, s);
      LiveAt(h.blocks, i);
      LocateStart(h.blocks, i);
      FreedKeeps(h.blocks, i);
    } else {
      var i := Locate(h.blocks, s);
      if i < |h.blocks| && Start(h.blocks, i) == s { LiveAt(h.blocks, i); }
    }
  }

  lemma {:induction false} FreeByCell(h: Heap, addr: nat)
    requires h.Shaped() && addr >= h.offset && addr % h.block == 0
    ensures addr == AddressOf(h, (addr - h.offset) / h.block)
    ensures h.Free(addr) == FreeCell(h, (addr - h.offset) / h.block)
  {
    DivDifference(h.block, addr, h.offset);
  }

  lemma {:induction false} FreeRejects(h: Heap, addr: nat)
    requires h.Shaped() && (addr < h.offset || addr % h.block != 0)
    ensures !IsLive(h, addr) && h.Free(addr).0 == h && h.Free(addr).1.Err?
  {
    if IsLive(h, addr) {
      var t :| t in Live(h.blocks) && addr == AddressOf(h, t);
      AddressCell(h, t);
    }
  }

  /** free succeeds exactly on the address of a live block; a failed free changes nothing and a
      successful one removes that block alone. */
  lemma {:induction false} FreeIsExact(h: Heap, addr: nat) returns (s: nat)
    requires h.Valid()
    ensures var (g, r) := h.Free(addr);
            && (r.Ok? <==> IsLive(h, addr))
            && (r.Err? ==> g == h)
            && g.Valid() && SameArena(h, g)
            && (r.Ok? ==> addr == AddressOf(h, s) && s in Live(h.blocks) && Live(g.blocks) == Live(h.blocks) - {s})
  {
    if addr < h.offset || addr % h.block != 0 {
      s := 0;
      FreeRejects(h, addr);
    } else {
      s := (addr - h.offset) / h.block;
      FreeByCell(h, addr);
      FreeCellExact(h, s);
      LiveAddress(h, addr, s);
    }
  }

  lemma {:induction false} LiveAddress(h: Heap, addr: nat, s: nat)
    requires h.block > 0 && addr == AddressOf(h, s)
    ensures IsLive(h, addr) <==> s in Live(h.blocks)
  {
    if IsLive(h, addr) {
      var t :| t in Live(h.blocks) && addr == AddressOf(h, t);
      AddressInjective(h, s, t);
    }
  }

  // ----- The block list is canonical -----

  lemma {:induction false} CanonicalFrom(a: seq<Block>, b: seq<Block>, pos: nat)
    requires Good(a) && Good(b) && Total(a) == Total(b) && Live(a, pos) == Live(b, pos)
    ensures a == b
    decreases |a|
  {
    if a == [] || b == [] {
    } else {
      FirstBlocks(a, b, pos);
      assert a[0] == b[0];
      var z := a[0].size;
      if pos in Live(a[1..], pos + z) { LiveBounds(a[1..], pos + z, pos); }
      if pos in Live(b[1..], pos + z) { LiveBounds(b[1..], pos + z, pos); }
      if a[0].used {
        assert Live(a[1..], pos + z) == Live(a, pos) - {pos} == Live(b, pos) - {pos} == Live(b[1..], pos + z);
      }
      GoodTail(a);
      GoodTail(b);
      CanonicalFrom(a[1..], b[1..], pos + z);
    }
  }

  lemma {:induction false} GoodTail(a: seq<Block>)
    requires Good(a) && a != []
    ensures Good(a[1..])
  {
  }

  /** A free first block reaches exactly to the first live cell, or to the end. */
  lemma {:induction false} FreeHead(a: seq<Block>, pos: nat)
    requires Good(a) && a != [] && !a[0].used
    ensures forall k :: k in Live(a, pos) ==> pos + a[0].size <= k
    ensures if |a| == 1 then Live(a, pos) == map[] && Total(a) == a[0].size
            else pos + a[0].size in Live(a, pos)
  {
    forall k | k in Live(a, pos) ensures pos + a[0].size <= k { LiveBounds(a[1..], pos + a[0].size, k); }
    if |a| > 1 { assert a[1].used && a[1] == a[1..][0]; }
  }

  lemma {:induction false} FirstBlocks(a: seq<Block>, b: seq<Block>, pos: nat)
    requires Good(a) && Good(b) && Total(a) == Total(b) && Live(a, pos) == Live(b, pos) && a != [] && b != []
    ensures a[0] == b[0]
  {
    if !a[0].used { FreeHead(a, pos); }
    if !b[0].used { FreeHead(b, pos); }
    if a[0].used { assert pos in Live(a, pos) && Live(a, pos)[pos] == a[0].size; }
    if b[0].used { assert pos in Live(b, pos) && Live(b, pos)[pos] == b[0].size; }
  }

  /** Two well-formed heaps with the same live blocks have the same block list. */
  lemma {:induction false} Canonical(h: Heap, g: Heap)
    requires h.Valid() && g.Valid() && h.count == g.count && Live(h.blocks) == Live(g.blocks)
    ensures h.blocks == g.blocks
  {
    CanonicalFrom(h.blocks, g.blocks, 0);
  }

  /** malloc followed by free of the result restores the identical block list. */
  lemma {:induction false} MallocFree(h: Heap, size: nat)
    requires h.Valid() && size > 0 && h.Malloc(size).1.Ok?
    ensures var (g, r) := h.Malloc(size); g.Free(r.value) == (h, Ok(()))
  {
    var s := MallocKeeps(h, size);
    var (g, r) := h.Malloc(size);
    assert AddressOf(g, s) == r.value && s in Live(g.blocks);
    var t := FreeIsExact(g, r.value);
    AddressInjective(g, s, t);
    assert Live(h.blocks)[s := h.Needed(size)] - {s} == Live(h.blocks);
    Canonical(g.Free(r.value).0, h);
  }

  // ----- malloc(0) -----

  /** An empty block in front of the first free one leaves that one first for the next request. */
  lemma {:induction false} EmptyBlockInFront(bs: seq<Block>, i: nat)
    requires Positive(bs) && i == FirstFit(bs, 0) < |bs|
    ensures var cs := Taken(bs, i, 0); |cs| == |bs| + 1 && FirstFit(cs, 1) == i + 1 && Start(cs, i + 1) == Start(bs, i)
  {
    var cs := Taken(bs, i, 0);
    assert cs[i] == Block(0, true) && cs[i + 1] == bs[i] && cs[..i] == bs[..i];
    assert forall j :: 0 <= j <= i ==> cs[j].used;
    StartNext(cs, i);
  }

  /** On every heap the address of a successful malloc can be returned again by the next malloc of at least
      one byte exactly when the first one asked for nothing. */
  lemma {:induction false} MallocSharesIffZero(h: Heap, size: nat)
    requires h.Valid() && h.Malloc(size).1.Ok?
    ensures var (g, r) := h.Malloc(size);
            (exists m :: m > 0 && g.Malloc(m).1 == r) <==> size == 0
  {
    var (g, r) := h.Malloc(size);
    if size == 0 {
      ZeroShares(h);
      assert g.Malloc(1).1 == r;
    } else {
      forall m | m > 0 ensures g.Malloc(m).1 != r { NextDiffers(h, size, m); }
    }
  }

  lemma {:induction false} ZeroShares(h: Heap)
    requires h.Valid() && h.Malloc(0).1.Ok?
    ensures var (g, r) := h.Malloc(0); g.Malloc(1).1 == r
  {
    assert h.Needed(0) == 0;
    EmptyBlockInFront(h.blocks, FirstFit(h.blocks, 0));
    DivExact(h.block, 1);
  }

  lemma {:induction false} NextDiffers(h: Heap, size: nat, m: nat)
    requires h.Valid() && h.Malloc(size).1.Ok? && size > 0 && m > 0
    ensures var (g, r) := h.Malloc(size); g.Malloc(m).1 != r
  {
    var s := MallocKeeps(h, size);
    var (g, r) := h.Malloc(size);
    var t := MallocKeeps(g, m);
    if g.Malloc(m).1 == r { AddressInjective(h, s, t); }
  }

  /** malloc(0) fails only on a heap without a free cell. */
  lemma {:induction false} MallocZeroFailsIffFull(h: Heap)
    requires h.Valid()
    ensures h.Malloc(0).1.Err? <==> forall c :: 0 <= c < |Cells(h.blocks)| ==> Cells(h.blocks)[c]
  {
    assert h.Needed(0) == 0;
    var i := FirstFit(h.blocks, 0);
    if i < |h.blocks| {
      BlockCells(h.blocks, i, 0);
    } else {
      forall c | 0 <= c < |Cells(h.blocks)| ensures Cells(h.blocks)[c] {
        var j := CellBlock(h.blocks, c);
      }
    }
  }

  // ----- Capacity, counts and errors -----

  /** A fresh heap holds exactly the bytes between its bounds: they can be had in one block, at the start, and not one
      more. */
  lemma {:induction false} FreshHeapHoldsAll(start: nat, end: nat, block: nat)
    requires block > 0 && start % block == 0 && end % block == 0 && start < end
    ensures var h := NewHeap(start, end, block);
            h.Shaped() && h.Malloc(end - start).1 == Ok(start) && h.Malloc(end - start + 1).1 == Err(OutOfMemory)
  {
    var h := NewHeap(start, end, block);
    DivDifference(block, end, start);
    var n := (end - start) / block;
    assert end - start == block * n;
    NeededCovers(h, end - start);
    NeededCovers(h, end - start + 1);
    if h.Needed(end - start) < n { MulStep(block, h.Needed(end - start), n); }
    if n < h.Needed(end - start) { MulStep(block, n, h.Needed(end - start)); }
    if h.Needed(end - start + 1) <= n { MulMono(block, h.Needed(end - start + 1), n); }
  }

  function CountUsed(cells: seq<bool>): nat {
    if cells == [] then 0 else (if cells[0] then 1 else 0) + CountUsed(cells[1..])
  }

  lemma {:induction false} CountConcat(a: seq<bool>, b: seq<bool>)
    ensures CountUsed(a + b) == CountUsed(a) + CountUsed(b)
  {
    if a == [] {
      assert a + b == b;
    } else {
      assert (a + b)[1..] == a[1..] + b;
      CountConcat(a[1..], b);
    }
  }

  lemma {:induction false} CountSame(n: nat, used: bool)
    ensures CountUsed(seq(n, _ => used)) == if used then n else 0
  {
    if n > 0 {
      assert seq(n, _ => used)[1..] == seq(n - 1, _ => used);
      CountSame(n - 1, used);
    }
  }

  /** The check counts as in use exactly the used cells of the bitmap. */
  lemma {:induction false} UsedCellsCounted(bs: seq<Block>)
    ensures |UsedCells(bs)| == CountUsed(Cells(bs))
  {
    if bs != [] {
      CountConcat(seq(bs[0].size, _ => bs[0].used), Cells(bs[1..]));
      CountSame(bs[0].size, bs[0].used);
      UsedCellsCounted(bs[1..]);
    }
  }

  /** Which error a rejected address gets: not a multiple of the block size, outside the heap, the start of a free
      block, or no start of a block. */
  lemma {:induction false} FreeErrors(h: Heap, addr: nat)
    requires h.Valid()
    ensures match h.Free(addr).1
            case Ok(_) => IsLive(h, addr)
            case Err(f) =>
              if addr % h.block != 0 then f == NotAligned
              else if addr < h.offset then f == BeforeHeap
              else if addr >= h.offset + h.block * h.count then f == AfterHeap
              else if exists i :: 0 <= i < |h.blocks| && !h.blocks[i].used && addr == AddressOf(h, Start(h.blocks, i))
              then f == AlreadyFree
              else f == BadAddress
  {
    var s := FreeIsExact(h, addr);
    if addr % h.block == 0 && addr >= h.offset {
      var a := (addr - h.offset) / h.block;
      DivDifference(h.block, addr, h.offset);
      assert addr == AddressOf(h, a);
      InHeap(h, a);
      forall i | 0 <= i < |h.blocks| && addr == AddressOf(h, Start(h.blocks, i)) ensures Locate(h.blocks, a) == i {
        AddressInjective(h, a, Start(h.blocks, i));
        LocateStart(h.blocks, i);
      }
    }
  }

  lemma {:induction false} InHeap(h: Heap, a: nat)
    requires h.Shaped()
    ensures AddressOf(h, a) >= h.offset + h.block * h.count <==> a >= h.count
  {
    if a >= h.count { MulMono(h.block, h.count, a); } else { MulStep(h.block, a, h.count); }
  }

  // ----- Runs -----

  datatype Op = DoMalloc(size: nat) | DoFree(addr: nat)

  /** The heap together with what was asked for at each live address. */
  datatype Ledger = Ledger(heap: Heap, asked: map<nat, nat>) {
    ghost predicate Consistent() {
      && heap.Valid()
      && (forall s :: s in Live(heap.blocks) ==> AddressOf(heap, s) in asked)
      && (forall addr :: addr in asked ==> Backed(heap, addr, asked[addr]))
    }
  }

  /** A live block at the address holds at least `size` bytes. */
  predicate Backed(h: Heap, addr: nat, size: nat) {
    exists s :: s in Live(h.blocks) && addr == AddressOf(h, s) && 0 < size <= Live(h.blocks)[s] * h.block
  }

  function StepOp(l: Ledger, op: Op): Ledger
    requires l.heap.Shaped()
  {
    match op
    case DoMalloc(size) =>
      var (h, r) := l.heap.Malloc(size);
      Ledger(h, if r.Ok? then l.asked[r.value := size] else l.asked)
    case DoFree(addr) =>
      var (h, r) := l.heap.Free(addr);
      Ledger(h, if r.Ok? then l.asked - {addr} else l.asked)
  }

  function RunOps(l: Ledger, ops: seq<Op>): Ledger
    requires l.heap.Shaped()
    decreases |ops|
  {
    if ops == [] then l else RunOps(StepOp(l, ops[0]), ops[1..])
  }

  lemma {:induction false} MallocConsistent(l: Ledger, size: nat)
    requires l.Consistent() && size > 0
    ensures StepOp(l, DoMalloc(size)).Consistent()
  {
    var h := l.heap;
    var s := MallocKeeps(h, size);
    var (g, r) := h.Malloc(size);
    if r.Ok? {
      NeededCovers(h, size);
      assert Backed(g, r.value, size) by { assert r.value == AddressOf(g, s); }
      forall a | a in l.asked ensures a != r.value && Backed(g, a, l.asked[a]) {
        var t :| t in Live(h.blocks) && a == AddressOf(h, t) && 0 < l.asked[a] <= Live(h.blocks)[t] * h.block;
        if a == r.value { AddressInjective(h, s, t); }
        assert t in Live(g.blocks) && a == AddressOf(g, t);
      }
      forall t | t in Live(g.blocks) ensures AddressOf(g, t) in StepOp(l, DoMalloc(size)).asked {
        assert t == s || t in Live(h.blocks);
        assert AddressOf(g, t) == AddressOf(h, t);
      }
    }
  }

  lemma {:induction false} FreeConsistent(l: Ledger, addr: nat)
    requires l.Consistent()
    ensures StepOp(l, DoFree(addr)).Consistent()
  {
    var h := l.heap;
    var s := FreeIsExact(h, addr);
    var (g, r) := h.Free(addr);
    if r.Ok? {
      forall a | a in l.asked && a != addr ensures Backed(g, a, l.asked[a]) {
        var t :| t in Live(h.blocks) && a == AddressOf(h, t) && 0 < l.asked[a] <= Live(h.blocks)[t] * h.block;
        assert t in Live(g.blocks) && a == AddressOf(g, t);
      }
      forall t | t in Live(g.blocks) ensures AddressOf(g, t) in l.asked - {addr} {
        assert AddressOf(g, t) == AddressOf(h, t);
        if AddressOf(h, t) == addr { AddressInjective(h, s, t); }
      }
    }
  }

  lemma {:induction false} StepConsistent(l: Ledger, op: Op)
    requires l.Consistent() && (op.DoMalloc? ==> op.size > 0)
    ensures StepOp(l, op).Consistent()
    ensures StepOp(l, op).heap.(blocks := []) == l.heap.(blocks := [])
  {
    match op
    case DoMalloc(size) => MallocConsistent(l, size);
    case DoFree(addr) => FreeConsistent(l, addr);
  }

  /** After any run of malloc(n >= 1) and free calls, the block list is well formed and the live
      allocations are aligned, inside the heap, at least as large as asked and pairwise disjoint. */
  lemma {:induction false} RunKeepsAllocations(l: Ledger, ops: seq<Op>)
    requires l.Consistent() && forall op :: op in ops && op.DoMalloc? ==> op.size > 0
    ensures var m := RunOps(l, ops);
            && m.Consistent() && m.heap.(blocks := []) == l.heap.(blocks := [])
            && Allocations(m)
    decreases |ops|
  {
    if ops == [] {
      ConsistentAllocations(l);
    } else {
      StepConsistent(l, ops[0]);
      RunKeepsAllocations(StepOp(l, ops[0]), ops[1..]);
    }
  }

  predicate Inside(h: Heap, a: nat, size: nat)
    requires h.block > 0
  {
    a % h.block == 0 && h.offset <= a && a + size <= h.offset + h.count * h.block
  }

  ghost predicate Allocations(l: Ledger)
    requires l.heap.Shaped()
  {
    && (forall a :: a in l.asked ==> Inside(l.heap, a, l.asked[a]))
    && (forall a, b :: a in l.asked && b in l.asked && a < b ==> a + l.asked[a] <= b)
  }

  lemma {:induction false} LiveDisjoint(bs: seq<Block>, pos: nat, s: nat, t: nat)
    requires s in Live(bs, pos) && t in Live(bs, pos) && s < t && Positive(bs)
    ensures s + Live(bs, pos)[s] <= t
    decreases |bs|
  {
    var q := pos + bs[0].size;
    if t in Live(bs[1..], q) { LiveBounds(bs[1..], q, t); }
    if s in Live(bs[1..], q) { LiveBounds(bs[1..], q, s); }
    if !(bs[0].used && s == pos) { LiveDisjoint(bs[1..], q, s, t); }
  }

  lemma {:induction false} AllocationInside(l: Ledger, a: nat)
    requires l.Consistent() && a in l.asked
    ensures Inside(l.heap, a, l.asked[a])
  {
    var h := l.heap;
    var s :| s in Live(h.blocks) && a == AddressOf(h, s) && 0 < l.asked[a] <= Live(h.blocks)[s] * h.block;
    AddressCell(h, s);
    LiveBounds(h.blocks, 0, s);
    Scaled(h.block, s, Live(h.blocks)[s], h.count);
  }

  lemma {:induction false} Scaled(b: nat, s: nat, z: nat, t: nat)
    requires s + z <= t
    ensures b * s + z * b <= t * b && t * b == b * t
  {
    MulMono(b, s + z, t);
    assert b * (s + z) == b * s + z * b;
  }

  lemma {:induction false} AllocationsDisjoint(l: Ledger, a: nat, b: nat)
    requires l.Consistent() && a in l.asked && b in l.asked && a < b
    ensures a + l.asked[a] <= b
  {
    var h := l.heap;
    var s :| s in Live(h.blocks) && a == AddressOf(h, s) && 0 < l.asked[a] <= Live(h.blocks)[s] * h.block;
    var t :| t in Live(h.blocks) && b == AddressOf(h, t);
    if t <= s { MulMono(h.block, t, s); }
    LiveDisjoint(h.blocks, 0, s, t);
    Scaled(h.block, s, Live(h.blocks)[s], t);
  }

  lemma {:induction false} ConsistentAllocations(l: Ledger)
    requires l.Consistent()
    ensures Allocations(l)
  {
    forall a | a in l.asked ensures Inside(l.heap, a, l.asked[a]) {
      AllocationInside(l, a);
    }
    forall a, b | a in l.asked && b in l.asked && a < b ensures a + l.asked[a] <= b {
      AllocationsDisjoint(l, a, b);
    }
  }

  /** A fresh heap is consistent. */
  lemma {:induction false} FreshHeap(start: nat, end: nat, block: nat)
    requires block > 0 && start % block == 0 && end % block == 0 && start < end
    ensures Ledger(NewHeap(start, end, block), map[]).Consistent()
  {
    DivDifference(block, end, start);
    OneBlock(Block((end - start) / block, false), 0);
  }
}
