/** What the memheap promises: which requests it serves, what a free undoes, and what every run keeps. */
module MemheapTheorems {
  import opened BlockChain
  import opened DList
  import opened Lists
  import opened MemheapChain

  // ---------- which requests are served ----------

  ghost predicate SomeFit(c: seq<Blk>, n: nat) {
    exists k :: FreeFit(c, k, n)
  }

  ghost predicate FreeFit(c: seq<Blk>, k: int, n: nat) {
    0 <= k && k + 1 < |c| && !c[k].used && Size(c, k) >= n
  }

  lemma {:induction false} TotalNonNegative(c: seq<Blk>, end: nat)
    requires |c| > 0 && forall i, j :: 0 <= i < j < |c| ==> c[i].off + HDR <= c[j].off
    ensures Available(c) >= 0
  {
    if |c| > 1 { TotalNonNegative(c[1..], end); }
  }

  /** No free block is larger than available_size. */
  lemma FitAvailable(c: seq<Blk>, end: nat, k: nat)
    requires Tiled(c, end, HDR) && k + 1 < |c| && !c[k].used
    ensures Size(c, k) <= Available(c)
  {
    TotalCut(c, k, false, HDR);
    assert c[k..][1..] == c[k + 1..];
    TotalNonNegative(c[..k + 1], end);
    TotalNonNegative(c[k + 1..], end);
  }

  /** A free block that fits is somewhere in the free list. */
  lemma ListedFit(p: Pool, end: nat, k: nat, n: nat) returns (j: nat)
    requires Inv(p, end) && FreeFit(p.chain, k, n)
    ensures j < |p.free| && BigEnough(p.chain, p.free[j], n)
  {
    HeaderFree(p.chain, k);
    assert p.chain[k].off in p.free;
    j :| 0 <= j < |p.free| && p.free[j] == p.chain[k].off;
    IndexFrom(p.chain, end, 0, k);
  }

  /** rt_memheap_alloc returns NULL exactly when no free block fits, or the request asks for
      everything that is available (its guard is strict). */
  lemma AllocNull(p: Pool, end: nat, size: nat)
    requires Inv(p, end)
    ensures AllocSpec(p, size).1.Null? <==>
              !SomeFit(p.chain, Request(size)) || Available(p.chain) == Request(size)
  {
    var c, n := p.chain, Request(size);
    var t := FirstBig(p, n, 0);
    if t < |p.free| {
      var k := FoundBlock(p, end, n);
      assert FreeFit(c, k, n);
      FitAvailable(c, end, k);
    } else {
      forall k ensures !FreeFit(c, k, n) {
        if FreeFit(c, k, n) { var j := ListedFit(p, end, k, n); }
      }
    }
  }

  /** The block handed out is the first of the free list that is large enough. */
  lemma AllocIsFirst(p: Pool, end: nat, size: nat, j: nat)
    requires Inv(p, end) && AllocSpec(p, size).1.At?
    requires j < |p.free| && BigEnough(p.chain, p.free[j], Request(size))
    ensures exists t :: 0 <= t <= j && BigEnough(p.chain, p.free[t], Request(size)) &&
                        AllocSpec(p, size).1 == Ptr.At(p.free[t] + HDR)
  {
    var t := FirstBig(p, Request(size), 0);
    assert t <= j;
    hide BigEnough, Inv, TakeBlock;
  }

  /** The refusal is real: a fresh pool does not hand out its whole free space. */
  lemma WholePoolRefused(end: nat)
    requires end >= HDR + MINI && 4 * end < TWO_32 - 3
    ensures var p := Pool(Initial(end), [0]);
            Inv(p, end) && SomeFit(p.chain, end - HDR) && AllocSpec(p, 4 * (end - HDR)).1 == Null
  {
    var p := Pool(Initial(end), [0]);
    InitialTotals(end, HDR);
    InitialPool(end);
    assert FreeFit(p.chain, 0, end - HDR);
  }

  lemma InitialPool(end: nat)
    requires end >= HDR
    ensures Inv(Pool(Initial(end), [0]), end)
  {
    assert Initial(end)[0] == Blk(0, false);
  }

  /** What is handed out is a live block, and it has room for the request exactly when rounding the
      request up does not wrap around 32 bits. */
  lemma AllocRoom(p: Pool, end: nat, size: nat)
    requires Inv(p, end) && 4 * end < TWO_32 - 3 && size < TWO_32 && AllocSpec(p, size).1.At?
    ensures var (d, q) := AllocSpec(p, size);
            && |d.chain| > 0 && Live(d.chain, q.addr)
            && var i := IndexOf(d.chain, q.addr - HDR, 0);
               4 * Size(d.chain, i) >= size <==> size <= TWO_32 - 4
  {
    var k := TakenPlace(p, end, size);
    hide Inv, AllocSpec, BigEnough, IndexOf;
  }

  /** Where the block handed out is. */
  lemma TakenPlace(p: Pool, end: nat, size: nat) returns (k: nat)
    requires Inv(p, end) && AllocSpec(p, size).1.At?
    ensures var (d, q) := AllocSpec(p, size);
            && k + 1 < |d.chain| && Live(d.chain, q.addr) && IndexOf(d.chain, q.addr - HDR, 0) == k
            && Request(size) <= Size(d.chain, k) <= end
  {
    var n := Request(size);
    k := FoundBlock(p, end, n);
    var d := TakeBlock(p, k, n);
    TakeIndex(p, k, n, k);
    TakeInv(p, end, k, n);
    IndexFrom(d.chain, end, 0, k);
    TakenSize(p, end, k, n);
    assert d.chain[k + 1].off <= d.chain[|d.chain| - 1].off;
    hide TakeBlock, BigEnough;
  }

  lemma TakenSize(p: Pool, end: nat, k: nat, n: nat)
    requires Inv(p, end) && k + 1 < |p.chain| && Size(p.chain, k) >= n
    ensures k + 1 < |TakeBlock(p, k, n).chain| && n <= Size(TakeBlock(p, k, n).chain, k) <= Size(p.chain, k)
  {
    TakeIndex(p, k, n, k);
    TakeIndex(p, k, n, k + 1);
  }

  /** A size above 2^32 - 4 wraps to 0 and is then raised to the minimum: the call does what it would do
      for 12 bytes. */
  lemma HugeIsMinimum(p: Pool, end: nat, q: Ptr, size: nat)
    requires Inv(p, end) && (q.At? ==> Live(p.chain, q.addr)) && TWO_32 - 4 < size < TWO_32
    ensures AllocSpec(p, size) == AllocSpec(p, 4 * MINI)
    ensures ReallocSpec(p, end, q, size) == ReallocSpec(p, end, q, 4 * MINI)
  {
    assert Request(size) == MINI == Request(4 * MINI);
  }

  /** An instance: a fresh pool with 96 bytes free hands out a block of twelve for 2^32 - 1 bytes. */
  lemma HugeServed()
    ensures Inv(Pool(Initial(30), [0]), 30)
    ensures var (d, q) := AllocSpec(Pool(Initial(30), [0]), TWO_32 - 1);
            q == Ptr.At(HDR) && |d.chain| > 1 && Live(d.chain, HDR) && 4 * Size(d.chain, 0) == 12
  {
    var p := Pool(Initial(30), [0]);
    InitialPool(30);
    InitialTotals(30, HDR);
    assert Request(TWO_32 - 1) == MINI;
    assert IndexOf(p.chain, 0, 0) == 0;
    assert FirstBig(p, MINI, 0) == 0;
    assert TakeBlock(p, 0, MINI).chain == [Blk(0, true), Blk(9, false), Blk(30, true)];
  }

  // ---------- alloc and free ----------

  /** The first block of the free list is large enough for the request. */
  predicate HeadFits(p: Pool, size: nat)
    requires |p.chain| > 0
  {
    p.free != [] && BigEnough(p.chain, p.free[0], Request(size))
  }

  /** Freeing what was just allocated restores the ring of blocks and available_size; the block
      comes back at the head of the free list, so everything is as before exactly when the first block of
      the list was large enough. */
  lemma AllocThenFree(p: Pool, end: nat, size: nat)
    requires Inv(p, end) && AllocSpec(p, size).1.At?
    ensures var (d, q) := AllocSpec(p, size);
            && |d.chain| > 0 && Live(d.chain, q.addr)
            && FreeSpec(d, q) == Pool(p.chain, [q.addr - HDR] + Without<nat>(p.free, q.addr - HDR))
            && (FreeSpec(d, q) == p <==> HeadFits(p, size))
  {
    var n := Request(size);
    var k := FoundBlock(p, end, n);
    var c, x := p.chain, p.chain[k].off;
    var d := TakeBlock(p, k, n);
    TakeIndex(p, k, n, k);
    TakeInv(p, end, k, n);
    IndexFrom(d.chain, end, 0, k);
    Coalesces(c, k);
    TakeThenRelease(p, end, k, n);
    WithoutHead(p.free, x);
    HeadFirst(p, end, n);
  }

  /** The search ends at the head of the list exactly when the head is large enough. */
  lemma HeadFirst(p: Pool, end: nat, n: nat)
    requires Inv(p, end) && FirstBig(p, n, 0) < |p.free|
    ensures p.free[FirstBig(p, n, 0)] == p.free[0] <==> BigEnough(p.chain, p.free[0], n)
  {
  }

  lemma TwoFree(p: Pool)
    requires p == Pool([Blk(0, false), Blk(9, true), Blk(18, false), Blk(36, true)], [0, 18])
    ensures Inv(p, 36)
  {
    assert p.chain[0] == Blk(0, false) && p.chain[2] == Blk(18, false);
  }

  lemma SecondFits(p: Pool)
    requires p == Pool([Blk(0, false), Blk(9, true), Blk(18, false), Blk(36, true)], [0, 18])
    ensures FirstBig(p, 6, 0) == 1 && !p.chain[2].used && Size(p.chain, 2) == 12
  {
    assert IndexOf(p.chain, 0, 0) == 0;
    assert IndexOf(p.chain, 18, 0) == 2 by { assert IndexOf(p.chain, 18, 1) == 2; }
    assert FirstBig(p, 6, 1) == 1;
  }

  /** An instance: the second block of the free list is taken, and comes back as the first. */
  lemma OrderChanges()
    ensures var p := Pool([Blk(0, false), Blk(9, true), Blk(18, false), Blk(36, true)], [0, 18]);
            && Inv(p, 36) && AllocSpec(p, 24).1 == Ptr.At(18 + HDR)
            && var (d, q) := AllocSpec(p, 24);
               |d.chain| > 0 && Live(d.chain, q.addr) && FreeSpec(d, q) == Pool(p.chain, [18, 0])
  {
    var p := Pool([Blk(0, false), Blk(9, true), Blk(18, false), Blk(36, true)], [0, 18]);
    TwoFree(p);
    SecondFits(p);
    FitAvailable(p.chain, 36, 2);
    hide Inv, TakeBlock, FirstBig, FreeSpec, Live;
    AllocThenFree(p, 36, 24);
    assert Without([0, 18], 18) == [0] by { assert [18][1..] == []; }
  }

  lemma Coalesces(c: seq<Blk>, k: nat)
    requires Coalesced(c) && k + 1 < |c| && !c[k].used
    ensures c[k + 1].used && (k > 0 ==> c[k - 1].used)
  {
  }

  lemma WithoutHead(l: seq<nat>, x: nat)
    requires x in l
    ensures [x] + Without(l, x) == l <==> l[0] == x
  {
    if l[0] == x {
      assert [x] + l[1..] == l;
    } else {
      assert ([x] + Without(l, x))[0] == x;
    }
  }

  lemma TakeThenRelease(p: Pool, end: nat, k: nat, n: nat)
    requires Inv(p, end) && k + 1 < |p.chain| && !p.chain[k].used && Size(p.chain, k) >= n
    requires p.chain[k + 1].used && (k > 0 ==> p.chain[k - 1].used)
    ensures k + 1 < |TakeBlock(p, k, n).chain|
    ensures ReleaseBlock(TakeBlock(p, k, n), k) ==
            Pool(p.chain, [p.chain[k].off] + Without(p.free, p.chain[k].off))
  {
    hide Inv, Split, Mark, Release;
    var c, x := p.chain, p.chain[k].off;
    MarkIndex(c, k, true, k);
    if k > 0 { MarkIndex(c, k, true, k - 1); }
    MarkIndex(c, k, true, k + 1);
    if Size(c, k) >= n + HDR + MINI {
      var o := x + HDR + n;
      SplitThenJoin(c, k, o);
      SplitIndex(Mark(c, k, true), k, o, k);
      if k > 0 { SplitIndex(Mark(c, k, true), k, o, k - 1); }
      assert ([o] + Without(p.free, x))[1..] == Without(p.free, x);
    } else {
      MarkThenRelease(c, k);
    }
  }

  // ---------- realloc ----------

  /** The right neighbour of block `i` is free, and what it has beyond the growth of the block to `n` units
      is more than a minimum block. */
  predicate NeighbourServes(c: seq<Blk>, i: nat, n: nat)
    requires i + 1 < |c|
  {
    i + 2 < |c| && !c[i + 1].used && c[i + 2].off - c[i].off - 2 * HDR > n + MINI
  }

  /** No other block can be had for `n` units. */
  ghost predicate NoOther(c: seq<Blk>, n: nat) {
    !SomeFit(c, n) || Available(c) == n
  }

  /** When realloc of a live block returns NULL: for size 0, and for a growth when the right neighbour cannot
      serve it and no other block can be had.  A call that does not ask for more never fails. */
  lemma ReallocNull(p: Pool, end: nat, addr: nat, newsize: nat)
    requires Inv(p, end) && Live(p.chain, addr)
    ensures var n, i := Request(newsize), IndexOf(p.chain, addr - HDR, 0);
            ReallocSpec(p, end, Ptr.At(addr), newsize).1.Null? <==>
              newsize == 0 || (n > Size(p.chain, i) && !NeighbourServes(p.chain, i, n) && NoOther(p.chain, n))
  {
    AllocNull(p, end, 4 * Request(newsize));
    RequestAgain(newsize);
    hide Inv, SomeFit, Available, AllocSpec, FreeSpec, Shrunk, Grown, Request;
  }

  /** A block of `room` units handed out for `n`: at most a header and a minimum block more. */
  predicate Snug(room: int, n: nat) {
    n <= room <= n + HDR + MINI
  }

  lemma LiveIsBlock(p: Pool, end: nat, addr: nat)
    requires Inv(p, end) && Live(p.chain, addr)
    ensures var i := IndexOf(p.chain, addr - HDR, 0);
            i + 1 < |p.chain| && Block(p.chain, addr, Size(p.chain, i), HDR)
  {
    UsedIsBlock(p.chain, end, HDR, IndexOf(p.chain, addr - HDR, 0), HDR);
  }

  /** A block handed out by rt_memheap_alloc has no room for a further block. */
  lemma AllocSnug(p: Pool, end: nat, size: nat) returns (room: int)
    requires Inv(p, end) && AllocSpec(p, size).1.At?
    ensures var (d, r) := AllocSpec(p, size);
            Block(d.chain, r.addr, room, HDR) && Snug(room, Request(size)) && room < Request(size) + HDR + MINI
  {
    var n := Request(size);
    var k := FoundBlock(p, end, n);
    var d := TakeBlock(p, k, n);
    TakeIndex(p, k, n, k);
    TakeIndex(p, k, n, k + 1);
    TakeInv(p, end, k, n);
    UsedIsBlock(d.chain, end, HDR, k, HDR);
    room := Size(d.chain, k);
  }

  /** A call for no more than the block has leaves it where it is. */
  lemma StaysOrCut(p: Pool, end: nat, addr: nat, newsize: nat) returns (room: int)
    requires Inv(p, end) && Live(p.chain, addr) && newsize != 0
    requires Request(newsize) <= Size(p.chain, IndexOf(p.chain, addr - HDR, 0))
    ensures var (d, r) := ReallocSpec(p, end, Ptr.At(addr), newsize);
            && r == Ptr.At(addr) && Block(d.chain, addr, room, HDR) && Snug(room, Request(newsize))
  {
    var i, n := IndexOf(p.chain, addr - HDR, 0), Request(newsize);
    LiveIsBlock(p, end, addr);
    hide Inv, Block, Shrunk, Request;
    room := Size(p.chain, i);
    if n + HDR + MINI < room {
      room := n;
      ShrunkBlocks(p, end, i, n, addr, n);
    }
  }

  lemma GrowsInPlace(p: Pool, end: nat, addr: nat, newsize: nat)
    requires Inv(p, end) && Live(p.chain, addr) && newsize != 0
    requires Request(newsize) > Size(p.chain, IndexOf(p.chain, addr - HDR, 0))
    requires NeighbourServes(p.chain, IndexOf(p.chain, addr - HDR, 0), Request(newsize))
    ensures var (d, r) := ReallocSpec(p, end, Ptr.At(addr), newsize);
            r == Ptr.At(addr) && Block(d.chain, addr, Request(newsize), HDR)
  {
    var i, n := IndexOf(p.chain, addr - HDR, 0), Request(newsize);
    InvTiled(p, end);
    GrownBlocks(p.chain, end, i, p.chain[i].off + HDR + n, addr, n);
    hide Inv, Block, Request;
  }

  lemma MovedBlock(p: Pool, end: nat, addr: nat, newsize: nat) returns (room: int)
    requires Inv(p, end) && Live(p.chain, addr) && newsize != 0
    requires Request(newsize) > Size(p.chain, IndexOf(p.chain, addr - HDR, 0))
    requires !NeighbourServes(p.chain, IndexOf(p.chain, addr - HDR, 0), Request(newsize))
    requires ReallocSpec(p, end, Ptr.At(addr), newsize).1.At?
    ensures var (d, r) := ReallocSpec(p, end, Ptr.At(addr), newsize);
            r != Ptr.At(addr) && Block(d.chain, r.addr, room, HDR) && Snug(room, Request(newsize))
  {
    var n4 := 4 * Request(newsize);
    var (d, r) := AllocSpec(p, n4);
    LiveIsBlock(p, end, addr);
    hide Inv, Block, AllocSpec, FreeSpec, Request, Live;
    RequestAgain(newsize);
    AllocKeepsLive(p, end, n4, addr);
    AllocStep(p, end, n4, addr, Size(p.chain, IndexOf(p.chain, addr - HDR, 0)));
    room := AllocSnug(p, end, n4);
    FreeStep(d, end, Ptr.At(addr), r.addr, room);
  }

  /** What realloc of a live block hands out when it is not NULL: a live block with room for the request and
      for at most one header and minimum block more; the pointer is the old one exactly when no more is asked
      for than the block has, or when the right neighbour serves the growth. */
  lemma ReallocRoom(p: Pool, end: nat, addr: nat, newsize: nat) returns (room: int)
    requires Inv(p, end) && Live(p.chain, addr) && ReallocSpec(p, end, Ptr.At(addr), newsize).1.At?
    ensures var (d, r) := ReallocSpec(p, end, Ptr.At(addr), newsize);
            var n, i := Request(newsize), IndexOf(p.chain, addr - HDR, 0);
            && Block(d.chain, r.addr, room, HDR) && Snug(room, n)
            && (r == Ptr.At(addr) <==> n <= Size(p.chain, i) || NeighbourServes(p.chain, i, n))
  {
    ReallocNull(p, end, addr, newsize);
    var i := IndexOf(p.chain, addr - HDR, 0);
    hide Inv, Block, ReallocSpec, Request, NeighbourServes, NoOther;
    if Request(newsize) <= Size(p.chain, i) {
      room := StaysOrCut(p, end, addr, newsize);
    } else if NeighbourServes(p.chain, i, Request(newsize)) {
      room := Request(newsize);
      GrowsInPlace(p, end, addr, newsize);
    } else {
      room := MovedBlock(p, end, addr, newsize);
    }
  }

  /** A failed call leaves the pool as it was; size 0 frees the block. */
  lemma ReallocFails(p: Pool, end: nat, addr: nat, newsize: nat)
    requires Inv(p, end) && Live(p.chain, addr) && ReallocSpec(p, end, Ptr.At(addr), newsize).1.Null?
    ensures var d := ReallocSpec(p, end, Ptr.At(addr), newsize).0;
            && (newsize != 0 ==> d == p)
            && forall len: int :: newsize == 0 ==> !Block(d.chain, addr, len, HDR)
  {
    forall len: int ensures !Block(FreeSpec(p, Ptr.At(addr)).chain, addr, len, HDR) {
      FreeStep(p, end, Ptr.At(addr), addr, len);
    }
    FailedAlloc(p, 4 * Request(newsize));
    hide Inv, Block, AllocSpec, FreeSpec, Shrunk, Grown, Request, Live;
  }

  lemma FailedAlloc(p: Pool, size: nat)
    requires |p.chain| > 0
    ensures AllocSpec(p, size).1.Null? ==> AllocSpec(p, size).0 == p
  {
  }

  /** A null pointer: realloc is alloc, except for size 0, which it refuses. */
  lemma ReallocOfNull(p: Pool, end: nat, newsize: nat)
    requires Inv(p, end)
    ensures ReallocSpec(p, end, Null, newsize) == if newsize == 0 then (p, Null) else AllocSpec(p, newsize)
  {
    RequestAgain(newsize);
    hide Request;
  }

  // ---------- whole runs ----------

  datatype Op =
    | Alloc(size: nat)
    | Realloc(p: Ptr, newsize: nat)
    | Free(q: Ptr)

  predicate Allowed(c: seq<Blk>, op: Op)
    requires |c| > 0
  {
    match op
    case Alloc(_) => true
    case Realloc(p, _) => p.At? ==> Live(c, p.addr)
    case Free(q) => q.At? ==> Live(c, q.addr)
  }

  ghost function Step(p: Pool, end: nat, op: Op): (Pool, Ptr)
    requires Inv(p, end) && Allowed(p.chain, op)
  {
    match op
    case Alloc(size) => AllocSpec(p, size)
    case Realloc(q, newsize) => ReallocSpec(p, end, q, newsize)
    case Free(q) => (FreeSpec(p, q), Null)
  }

  function Touched(op: Op): Ptr {
    match op
    case Alloc(_) => Null
    case Realloc(p, _) => p
    case Free(q) => q
  }

  lemma FreeStep(p: Pool, end: nat, q: Ptr, addr: nat, len: int)
    requires Inv(p, end) && (q.At? ==> Live(p.chain, q.addr))
    ensures Inv(FreeSpec(p, q), end)
    ensures q != Ptr.At(addr) ==> (Block(FreeSpec(p, q).chain, addr, len, HDR) <==> Block(p.chain, addr, len, HDR))
    ensures q == Ptr.At(addr) ==> !Block(FreeSpec(p, q).chain, addr, len, HDR)
  {
    hide Block, Release, FreedList;
    if q.At? {
      var i := IndexOf(p.chain, q.addr - HDR, 0);
      ReleaseInv(p, end, i);
      ReleaseBlocks(p.chain, end, HDR, i, addr, len, HDR);
    }
  }

  lemma TakeBlocks(p: Pool, end: nat, k: nat, n: nat, addr: nat, len: int)
    requires Inv(p, end) && k + 1 < |p.chain| && !p.chain[k].used && Size(p.chain, k) >= n
    ensures k + 1 < |TakeBlock(p, k, n).chain|
    ensures Block(TakeBlock(p, k, n).chain, addr, len, HDR) <==>
              Block(p.chain, addr, len, HDR)
                  || (addr == p.chain[k].off + HDR && len == Size(TakeBlock(p, k, n).chain, k))
  {
    hide Split, Mark, Block, Coalesced;
    var c := p.chain;
    var m := Mark(c, k, true);
    MarkTiled(c, end, HDR, k, true);
    MarkKeeps(c, k, true);
    MarkBlocks(c, end, HDR, k, true, addr, len, HDR);
    if addr == c[k].off + HDR { FreeIsNoBlock(c, end, HDR, k, addr, len, HDR); }
    if Size(c, k) >= n + HDR + MINI {
      SplitIndex(m, k, c[k].off + HDR + n, k);
      SplitBlocks(m, end, HDR, k, c[k].off + HDR + n, addr, len, HDR);
    }
  }

  lemma AllocStep(p: Pool, end: nat, size: nat, addr: nat, len: int)
    requires Inv(p, end)
    ensures Inv(AllocSpec(p, size).0, end)
    ensures Block(p.chain, addr, len, HDR) ==> Block(AllocSpec(p, size).0.chain, addr, len, HDR)
    ensures Block(AllocSpec(p, size).0.chain, addr, len, HDR) ==>
              Block(p.chain, addr, len, HDR) || AllocSpec(p, size).1 == Ptr.At(addr)
    ensures Block(p.chain, addr, len, HDR) ==> AllocSpec(p, size).1 != Ptr.At(addr)
  {
    hide Block, TakeBlock, Coalesced;
    if AllocSpec(p, size).1.At? {
      var k := FoundBlock(p, end, Request(size));
      TakeInv(p, end, k, Request(size));
      TakeBlocks(p, end, k, Request(size), addr, len);
      if addr == p.chain[k].off + HDR { FreeIsNoBlock(p.chain, end, HDR, k, addr, len, HDR); }
    }
  }

  lemma GrownBlocks(c: seq<Blk>, end: nat, i: nat, o: nat, addr: nat, len: int)
    requires Tiled(c, end, HDR) && i + 2 < |c| && c[i].used && !c[i + 1].used
    ensures Block(c[i + 1 := Blk(o, false)], addr, len, HDR) <==>
              (Block(c, addr, len, HDR) && addr != c[i].off + HDR)
              || (addr == c[i].off + HDR && len == o - (c[i].off + HDR))
  {
    var d := c[i + 1 := Blk(o, false)];
    if Block(c, addr, len, HDR) && addr != c[i].off + HDR {
      var j :| BlockAt(c, j, addr, len, HDR);
      assert BlockAt(d, j, addr, len, HDR);
    }
    if addr == c[i].off + HDR && len == o - (c[i].off + HDR) {
      assert BlockAt(d, i, addr, len, HDR);
    }
    if Block(d, addr, len, HDR) {
      var j :| BlockAt(d, j, addr, len, HDR);
      if j != i {
        HeadersDiffer(c, end, HDR, i, j);
        assert BlockAt(c, j, addr, len, HDR);
      }
    }
  }

  lemma ShrunkBlocks(p: Pool, end: nat, i: nat, n: nat, addr: nat, len: int)
    requires Inv(p, end) && i + 1 < |p.chain| && p.chain[i].used && n + HDR + MINI < Size(p.chain, i)
    ensures Block(Shrunk(p, i, n).chain, addr, len, HDR) <==>
              (Block(p.chain, addr, len, HDR) && addr != p.chain[i].off + HDR)
              || (addr == p.chain[i].off + HDR && len == n)
  {
    hide Plug, Split, Block, Coalesced;
    var c, o := p.chain, p.chain[i].off + HDR + n;
    SplitReady(c, end, HDR, i, o);
    PlugBlocks(Split(c, i, o), end, HDR, i + 1, addr, len, HDR);
    SplitBlocks(c, end, HDR, i, o, addr, len, HDR);
  }

  /** One step of a run, as for the small-memory allocator: the invariant is kept, a live block that
      the operation does not name stays as it is, and nothing else becomes live than what is returned. */
  lemma StepSafe(p: Pool, end: nat, op: Op, addr: nat, len: int)
    requires Inv(p, end) && Allowed(p.chain, op)
    ensures var (d, r) := Step(p, end, op);
            && Inv(d, end)
            && (Block(p.chain, addr, len, HDR) && Touched(op) != Ptr.At(addr) ==>
                  Block(d.chain, addr, len, HDR) && r != Ptr.At(addr))
            && (Block(d.chain, addr, len, HDR) ==> Block(p.chain, addr, len, HDR) || r == Ptr.At(addr))
  {
    hide Block, Inv, Shrunk, AllocSpec, FreeSpec;
    match op
    case Alloc(size) => AllocStep(p, end, size, addr, len);
    case Free(q) => FreeStep(p, end, q, addr, len);
    case Realloc(q, newsize) =>
      var n := Request(newsize);
      FreeStep(p, end, q, addr, len);
      AllocStep(p, end, 4 * n, addr, len);
      if newsize != 0 && q.At? {
        var i := IndexOf(p.chain, q.addr - HDR, 0);
        if n > Size(p.chain, i) {
          if CanGrow(p.chain, i, n) {
            GrownInv(p, end, i, n);
            InvTiled(p, end);
            GrownBlocks(p.chain, end, i, p.chain[i].off + HDR + n, addr, len);
          } else {
            AllocKeepsLive(p, end, 4 * n, q.addr);
            FreeStep(AllocSpec(p, 4 * n).0, end, q, addr, len);
          }
        } else if n + HDR + MINI < Size(p.chain, i) {
          ShrunkInv(p, end, i, n);
          ShrunkBlocks(p, end, i, n, addr, len);
        }
      }
  }

  lemma InvTiled(p: Pool, end: nat)
    requires Inv(p, end)
    ensures Tiled(p.chain, end, HDR)
  {
  }

  /** A run of the memheap from a fresh pool: `ps[t]` is the state before operation `ops[t]`. */
  ghost predicate Run(ps: seq<Pool>, end: nat, ops: seq<Op>) {
    && end >= HDR
    && |ps| == |ops| + 1
    && ps[0] == Pool(Initial(end), [0])
    && forall t :: 0 <= t < |ops| ==> Follows(ps, end, ops, t)
  }

  ghost predicate Follows(ps: seq<Pool>, end: nat, ops: seq<Op>, t: int)
    requires 0 <= t < |ops| && |ps| == |ops| + 1
  {
    Inv(ps[t], end) ==> Allowed(ps[t].chain, ops[t]) && ps[t + 1] == Step(ps[t], end, ops[t]).0
  }

  /** In every run the ring tiles the pool with no two free neighbours, and the free list holds
      exactly the free blocks, each once. */
  lemma {:induction false} RunInv(ps: seq<Pool>, end: nat, ops: seq<Op>, t: nat)
    requires Run(ps, end, ops) && t <= |ops|
    ensures Inv(ps[t], end)
  {
    if t == 0 {
      InitialPool(end);
    } else {
      RunInv(ps, end, ops, t - 1);
      assert Follows(ps, end, ops, t - 1);
      StepSafe(ps[t - 1], end, ops[t - 1], 0, 0);
    }
  }

  /** A block stays live, in place and with its length, for as long as no operation names it. */
  lemma {:induction false} RunIsolation(ps: seq<Pool>, end: nat, ops: seq<Op>, s: nat, t: nat, addr: nat, len: int)
    requires Run(ps, end, ops) && s <= t <= |ops|
    requires Block(ps[s].chain, addr, len, HDR)
    requires forall u :: s <= u < t ==> Touched(ops[u]) != Ptr.At(addr)
    ensures Block(ps[t].chain, addr, len, HDR)
    decreases t - s
  {
    if s < t {
      RunIsolation(ps, end, ops, s, t - 1, addr, len);
      RunInv(ps, end, ops, t - 1);
      assert Follows(ps, end, ops, t - 1);
      StepSafe(ps[t - 1], end, ops[t - 1], addr, len);
    }
  }

  /** rt_memheap_realloc lets the lock go before it allocates, copies and frees, so a move is an Alloc and,
      later, a Free of the run, with steps of other threads between.  While these leave both blocks alone,
      the old block stays as it was and the new one keeps the room that the copy needs. */
  lemma InterruptedMove(ps: seq<Pool>, end: nat, ops: seq<Op>, s: nat, t: nat, addr: nat, len: int, newsize: nat)
    returns (room: int)
    requires Run(ps, end, ops) && s < t <= |ops|
    requires Block(ps[s].chain, addr, len, HDR) && ops[s] == Alloc(4 * Request(newsize)) && |ps[s].chain| > 0
    requires AllocSpec(ps[s], 4 * Request(newsize)).1.At?
    requires forall u :: s < u < t ==> Touched(ops[u]) != Ptr.At(addr)
    requires forall u :: s < u < t ==> Touched(ops[u]) != AllocSpec(ps[s], 4 * Request(newsize)).1
    ensures var r := AllocSpec(ps[s], 4 * Request(newsize)).1.addr;
            r != addr && Block(ps[t].chain, addr, len, HDR) && Block(ps[t].chain, r, room, HDR)
                && room >= Request(newsize)
  {
    var size := 4 * Request(newsize);
    var r := AllocSpec(ps[s], size).1.addr;
    RunInv(ps, end, ops, s);
    assert Follows(ps, end, ops, s);
    AllocStep(ps[s], end, size, addr, len);
    RequestAgain(newsize);
    room := AllocSnug(ps[s], end, size);
    hide Block, Inv, AllocSpec;
    RunIsolation(ps, end, ops, s + 1, t, addr, len);
    RunIsolation(ps, end, ops, s + 1, t, r, room);
  }

  lemma RequestAgain(size: nat)
    ensures Request(4 * Request(size)) == Request(size)
  {
  }

  /** After any run, in whatever order blocks were freed: when none is live the pool is back in its
      initial state, all of it available. */
  lemma RunAllFreed(ps: seq<Pool>, end: nat, ops: seq<Op>, t: nat)
    requires Run(ps, end, ops) && t <= |ops|
    requires forall addr: nat, len: nat :: !Block(ps[t].chain, addr, len, HDR)
    ensures ps[t] == Pool(Initial(end), [0]) && Available(ps[t].chain) == end - HDR
  {
    hide Coalesced;
    RunInv(ps, end, ops, t);
    var p, c := ps[t], ps[t].chain;
    forall i | 0 <= i && i + 1 < |c| ensures !c[i].used {
      if c[i].used { UsedIsBlock(c, end, HDR, i, HDR); }
    }
    if |c| > 2 { Neighbours(c, 0); }
    assert c == Initial(end);
    InitialTotals(end, HDR);
    OnlyFree(p, end);
  }

  lemma OnlyFree(p: Pool, end: nat)
    requires Inv(p, end) && p.chain == Initial(end)
    ensures p.free == [0]
  {
    hide Distinct;
    HeaderFree(p.chain, 0);
    forall x | x in p.free ensures x == 0 {
      var i := FreeIndex(p.chain, end, x);
    }
    if |p.free| > 1 { FirstTwo(p.free); }
  }

  lemma FirstTwo(l: seq<nat>)
    requires Distinct(l) && |l| > 1
    ensures l[0] != l[1] && l[0] in l && l[1] in l
  {
  }
}
