/** The guest-heap allocator: first fit over a list of (size, used) blocks, coalescing on both sides. */
module GuestHeap {

  datatype Fault = OutOfMemory | NotAligned | BeforeHeap | AfterHeap | BadAddress | AlreadyFree
                 | StartNotAligned | EndNotAligned
  datatype Result<T> = Ok(value: T) | Err(fault: Fault)

  datatype Block = Block(size: nat, used: bool)

  // ----- Block lists -----

  function Total(bs: seq<Block>): nat {
    if bs == [] then 0 else bs[0].size + Total(bs[1..])
  }

  /** Cell position at which block i starts. */
  function Start(bs: seq<Block>, i: nat): nat
    requires i <= |bs|
  {
    Total(bs[..i])
  }

  predicate Positive(bs: seq<Block>) {
    forall i :: 0 <= i < |bs| ==> bs[i].size > 0
  }

  /** No empty block, no two adjacent free blocks. */
  predicate Good(bs: seq<Block>) {
    && Positive(bs)
    && (forall i :: 0 < i < |bs| ==> bs[i - 1].used || bs[i].used)
  }

  /** The bitmap of used cells. */
  function Cells(bs: seq<Block>): (r: seq<bool>)
    ensures |r| == Total(bs)
  {
    if bs == [] then [] else seq(bs[0].size, _ => bs[0].used) + Cells(bs[1..])
  }

  /** The live blocks: start cell to size. */
  function Live(bs: seq<Block>, pos: nat := 0): map<nat, nat>
    decreases |bs|
  {
    if bs == [] then map[]
    else if bs[0].used then Live(bs[1..], pos + bs[0].size)[pos := bs[0].size]
    else Live(bs[1..], pos + bs[0].size)
  }

  predicate FreeRun(cells: seq<bool>, s: nat, n: nat) {
    s + n <= |cells| && forall k :: s <= k < s + n ==> !cells[k]
  }

  // ----- Operations -----

  /** Index of the first free block of at least n cells, |bs| if there is none. */
  function FirstFit(bs: seq<Block>, n: nat): (i: nat)
    ensures i <= |bs|
    ensures i < |bs| ==> !bs[i].used && bs[i].size >= n
    ensures forall j :: 0 <= j < i ==> bs[j].used || bs[j].size < n
  {
    if bs == [] then 0
    else if !bs[0].used && bs[0].size >= n then 0
    else
      1 + FirstFit(bs[1..], n)
  }

  /** Block i split so that its first n cells are used. */
  function Taken(bs: seq<Block>, i: nat, n: nat): seq<Block>
    requires i < |bs| && bs[i].size >= n
  {
    bs[..i] + [Block(n, true)] + (if bs[i].size > n then [Block(bs[i].size - n, false)] else []) + bs[i + 1..]
  }

  lemma {:induction false} TakenWhole(bs: seq<Block>, i: nat)
    requires i < |bs|
    ensures bs[i := Block(bs[i].size, true)] == Taken(bs, i, bs[i].size)
  {
  }

  lemma {:induction false} TakenPart(bs: seq<Block>, i: nat, n: nat)
    requires i < |bs| && bs[i].size > n
    ensures var cs := bs[i := Block(n, true)];
            cs[..i + 1] + [Block(bs[i].size - n, false)] + cs[i + 1..] == Taken(bs, i, n)
  {
    var cs := bs[i := Block(n, true)];
    assert cs[..i + 1] == bs[..i] + [Block(n, true)] && cs[i + 1..] == bs[i + 1..];
  }

  /** Block i freed and merged with free neighbours: previous first, then next. */
  function Freed(bs: seq<Block>, i: nat): seq<Block>
    requires i < |bs|
  {
    var z := bs[i].size;
    if i != 0 && !bs[i - 1].used then
      MergedNext(bs[..i] + bs[i + 1..], i - 1, z + bs[i - 1].size)
    else MergedNext(bs, i, z)
  }

  function MergedNext(bs: seq<Block>, i: nat, z: nat): seq<Block>
    requires i < |bs|
  {
    if i != |bs| - 1 && !bs[i + 1].used then
      (bs[..i] + bs[i + 1..])[i := Block(z + bs[i + 1].size, false)]
    else bs[i := Block(z, false)]
  }

  /** Index of the first block starting at cell a or later, |bs| if there is none. */
  function Locate(bs: seq<Block>, a: nat, pos: nat := 0): (i: nat)
    ensures i <= |bs|
    decreases |bs|
  {
    if bs == [] || pos >= a then 0 else 1 + Locate(bs[1..], a, pos + bs[0].size)
  }

  datatype Heap = Heap(offset: nat, count: nat, block: nat, blocks: seq<Block>) {
    predicate Shaped() { block > 0 && offset % block == 0 }
    predicate Valid() { Shaped() && Good(blocks) && Total(blocks) == count }

    function Needed(size: nat): nat
      requires Shaped()
    {
      (size + block - 1) / block
    }

    function Malloc(size: nat): (Heap, Result<nat>)
      requires Shaped()
    {
      var n := Needed(size);
      var i := FirstFit(blocks, n);
      if i == |blocks| then (this, Err(OutOfMemory))
      else (this.(blocks := Taken(blocks, i, n)), Ok(offset + block * Start(blocks, i)))
    }

    function Free(addr: nat): (Heap, Result<()>)
      requires Shaped()
    {
      if addr % block != 0 then (this, Err(NotAligned))
      else if addr < offset then (this, Err(BeforeHeap))
      else
        var a := (addr - offset) / block;
        if a >= count then (this, Err(AfterHeap))
        else
          var i := Locate(blocks, a);
          if i == |blocks| || Start(blocks, i) != a then (this, Err(BadAddress))
          else if !blocks[i].used then (this, Err(AlreadyFree))
          else (this.(blocks := Freed(blocks, i)), Ok(()))
    }
  }

  function NewHeap(start: nat, end: nat, block: nat): Heap
    requires block > 0 && start <= end
  {
    var count := (end - start) / block;
    Heap(start, count, block, [Block(count, false)])
  }

  // ----- The allocator object -----

  class MemMgr {
    const offset: nat
    const count: nat
    const block: nat
    var blocks: seq<Block>

    ghost function View(): Heap
      reads this
    {
      Heap(offset, count, block, blocks)
    }

    constructor (start: nat, end: nat, block: nat)
      requires block > 0 && start % block == 0 && end % block == 0 && start <= end
      ensures View() == NewHeap(start, end, block)
    {
      this.offset := start;
      this.count := (end - start) / block;
      this.block := block;
      this.blocks := [Block((end - start) / block, false)];
    }

    method Malloc(size: nat) returns (r: Result<nat>)
      requires View().Shaped()
      modifies this
      ensures (View(), r) == old(View()).Malloc(size)
    {
      var n := (size + block - 1) / block;
      var pos := 0;
      ghost var fit := FirstFit(blocks, n);
      for i := 0 to |blocks|
        invariant blocks == old(blocks) && i <= fit && pos == Start(blocks, i)
      {
        var b := blocks[i];
        if !b.used {
          if b.size == n {
            blocks := blocks[i := Block(b.size, true)];
            TakenWhole(old(blocks), i);
            return Ok(offset + block * pos);
          }
          if b.size > n {
            blocks := blocks[i := Block(n, true)];
            blocks := blocks[..i + 1] + [Block(b.size - n, false)] + blocks[i + 1..];
            TakenPart(old(blocks), i, n);
            return Ok(offset + block * pos);
          }
        }
        pos := pos + b.size;
        StartNext(blocks, i);
      }
      return Err(OutOfMemory);
    }

    method Free(addr: nat) returns (r: Result<()>)
      requires View().Shaped()
      modifies this
      ensures (View(), r) == old(View()).Free(addr)
    {
      if addr % block != 0 { return Err(NotAligned); }
      if addr < offset { return Err(BeforeHeap); }
      var a := (addr - offset) / block;
      if a >= count { return Err(AfterHeap); }
      var pos := 0;
      for i := 0 to |blocks|
        invariant blocks == old(blocks) && pos == Start(blocks, i)
        invariant forall j :: 0 <= j < i ==> Start(blocks, j) < a
      {
        LocateIs(blocks, a, i);
        if pos > a { return Err(BadAddress); }
        if pos == a {
          if !blocks[i].used { return Err(AlreadyFree); }
          var k, z := i, blocks[i].size;
          if k != 0 && !blocks[k - 1].used {
            z := z + blocks[k - 1].size;
            blocks := blocks[..k] + blocks[k + 1..];
            k := k - 1;
          }
          if k != |blocks| - 1 && !blocks[k + 1].used {
            z := z + blocks[k + 1].size;
            blocks := blocks[..k] + blocks[k + 1..];
          }
          blocks := blocks[k := Block(z, false)];
          return Ok(());
        }
        pos := pos + blocks[i].size;
        StartNext(blocks, i);
      }
      LocateIs(blocks, a, |blocks|);
      return Err(BadAddress);
    }

    /** The consistency check: sizes of used and free blocks add up to the heap. */
    method Check() returns (ok: bool, inuse: nat, free: nat)
      ensures inuse + free == Total(blocks) && (ok <==> Total(blocks) == count)
      ensures inuse == |UsedCells(blocks)|
    {
      inuse, free := 0, 0;
      for i := 0 to |blocks|
        invariant inuse + free == Start(blocks, i) && inuse == |UsedCells(blocks[..i])|
      {
        if blocks[i].used { inuse := inuse + blocks[i].size; } else { free := free + blocks[i].size; }
        StartNext(blocks, i);
        UsedCellsSnoc(blocks[..i], blocks[i]);
        assert blocks[..i + 1] == blocks[..i] + [blocks[i]];
      }
      assert blocks[..|blocks|] == blocks;
      ok := free + inuse == count;
    }
  }

  /** Opening a heap, with the errors for bounds that are not multiples of the block size. */
  method OpenHeap(start: nat, end: nat, block: nat) returns (r: Result<MemMgr>)
    requires block > 0 && start <= end
    ensures start % block != 0 ==> r == Err(StartNotAligned)
    ensures start % block == 0 && end % block != 0 ==> r == Err(EndNotAligned)
    ensures start % block == 0 && end % block == 0 ==>
              r.Ok? && fresh(r.value) && r.value.View() == NewHeap(start, end, block)
  {
    if start % block != 0 { return Err(StartNotAligned); }
    if end % block != 0 { return Err(EndNotAligned); }
    var heap := new MemMgr(start, end, block);
    return Ok(heap);
  }

  /** The used cells of the bitmap, in order. */
  function UsedCells(bs: seq<Block>): seq<bool> {
    if bs == [] then [] else (if bs[0].used then seq(bs[0].size, _ => true) else []) + UsedCells(bs[1..])
  }

  lemma {:induction false} UsedCellsSnoc(bs: seq<Block>, b: Block)
    ensures |UsedCells(bs + [b])| == |UsedCells(bs)| + if b.used then b.size else 0
    decreases |bs|
  {
    if bs == [] {
      assert bs + [b] == [b];
    } else {
      assert (bs + [b])[1..] == bs[1..] + [b];
      UsedCellsSnoc(bs[1..], b);
    }
  }

  lemma {:induction false} TotalConcat(a: seq<Block>, b: seq<Block>)
    ensures Total(a + b) == Total(a) + Total(b)
    decreases |a|
  {
    if a == [] {
      assert a + b == b;
    } else {
      assert (a + b)[1..] == a[1..] + b;
      TotalConcat(a[1..], b);
    }
  }

  lemma {:induction false} StartNext(bs: seq<Block>, i: nat)
    requires i < |bs|
    ensures Start(bs, i + 1) == Start(bs, i) + bs[i].size
  {
    assert bs[..i + 1] == bs[..i] + [bs[i]];
    TotalConcat(bs[..i], [bs[i]]);
  }

  /** Locate is the first index whose start is at least a. */
  lemma {:induction false} LocateFrom(bs: seq<Block>, a: nat, pos: nat, i: nat)
    requires i <= |bs| && (i < |bs| ==> pos + Start(bs, i) >= a)
    requires forall j :: 0 <= j < i ==> pos + Start(bs, j) < a
    ensures Locate(bs, a, pos) == i
    decreases |bs|
  {
    if i > 0 {
      assert Start(bs, 0) == 0;
      forall j | 0 <= j <= i ensures j < i ==> pos + bs[0].size + Start(bs[1..], j) == pos + Start(bs, j + 1) {
        if j < i { assert bs[..j + 1] == [bs[0]] + bs[1..][..j]; }
      }
      LocateFrom(bs[1..], a, pos + bs[0].size, i - 1);
    }
  }

  lemma {:induction false} LocateIs(bs: seq<Block>, a: nat, i: nat)
    requires i <= |bs| && forall j :: 0 <= j < i ==> Start(bs, j) < a
    ensures i == |bs| || Start(bs, i) >= a ==> Locate(bs, a) == i
  {
    if i == |bs| || Start(bs, i) >= a { LocateFrom(bs, a, 0, i); }
  }
}
