/** What rt_malloc, rt_realloc and rt_free promise, stated on block chains and on whole runs. */
module SmallMemTheorems {
  import opened BlockChain
  import opened SmallMemChain

  // ---------- which requests are served ----------

  /** rt_malloc is exact first fit: it returns the lowest block that fits. */
  lemma MallocIsFirstFit(c: seq<Blk>, total: nat, size: nat, k: nat)
    requires WellFormed(c, total + HDR, GAP) && MallocSpec(c, total, size).1.At?
    requires k + 1 < |c| && Fits(c, k, Request(size))
    ensures MallocSpec(c, total, size).1.addr <= c[k].off + HDR
    ensures exists i :: 0 <= i && i + 1 < |c| && Fits(c, i, Request(size)) &&
                        MallocSpec(c, total, size).1 == Ptr.At(c[i].off + HDR)
  {
    var i := FirstFit(c, Request(size), 0);
    assert i <= k;
  }

  /** Every free block that fits a request is one of exactly its size at the end of the heap. */
  ghost predicate OnlyExact(c: seq<Blk>, n: nat) {
    forall k {:trigger Fits(c, k, n)} :: 0 <= k && k + 1 < |c| && Fits(c, k, n) ==> ExactAtEnd(c, k, n)
  }

  /** It returns NULL for a request within the heap size exactly when no free block fits, or the
      only one that does has exactly the requested size and ends at heap_end (the strict bound of
      the search loop). */
  lemma MallocNull(c: seq<Blk>, total: nat, size: nat)
    requires WellFormed(c, total + HDR, GAP) && total >= MIN
    ensures MallocSpec(c, total, size).1.Null? <==>
              size == 0 || Units(size) > total || OnlyExact(c, Request(size))
  {
    var n := Request(size);
    var i := FirstFit(c, n, 0);
    if i + 1 < |c| && ExactAtEnd(c, i, n) {
      forall k | 0 <= k && k + 1 < |c| && Fits(c, k, n) ensures ExactAtEnd(c, k, n) {
        assert k >= i;
      }
    }
  }

  /** The refusal is real: a fresh heap refuses the one request that would fill it. */
  lemma WholeHeapRefused(total: nat)
    requires total >= MIN && 4 * total < TWO_32 - 3
    ensures WellFormed(Initial(total + HDR), total + HDR, GAP)
    ensures Fits(Initial(total + HDR), 0, Request(4 * total))
    ensures MallocSpec(Initial(total + HDR), total, 4 * total).1 == Null
  {
    assert Units(4 * total) == total;
  }

  /** What is handed out is a live block, and it has room for the request exactly when rounding the
      request up does not wrap around 32 bits. */
  lemma MallocRoom(c: seq<Blk>, total: nat, size: nat)
    requires WellFormed(c, total + HDR, GAP) && 4 * total < TWO_32 - 3
    requires size < TWO_32
    requires MallocSpec(c, total, size).1.At?
    ensures var (d, q) := MallocSpec(c, total, size);
            var i := BlockOf(d, q.addr, 0);
            Live(d, q.addr) && i + 1 < |d| && (4 * Room(d, i) >= size <==> size <= TWO_32 - 4)
  {
    var k, n := FirstFit(c, Request(size), 0), Request(size);
    AllocWellFormed(c, total + HDR, k, n);
    var d := AllocAt(c, k, n);
    assert d[k].off == c[k].off;
    BlockOfFrom(d, total + HDR, 0, k);
    assert Room(d, k) >= n;
    assert d[k + 1].off <= d[|d| - 1].off;
    assert Room(d, k) <= total;
  }

  /** An instance: a fresh heap of forty bytes hands out a block of twelve for 2^32 - 1 bytes. */
  lemma HugeServed()
    ensures var (d, q) := MallocSpec(Initial(10 + HDR), 10, TWO_32 - 1);
            && q == Ptr.At(HDR) && |d| > 1 && Live(d, HDR) && BlockOf(d, HDR, 0) == 0 && 4 * Room(d, 0) == 12
  {
    var c := Initial(10 + HDR);
    assert Units(TWO_32 - 1) == 0 && Request(TWO_32 - 1) == MIN;
    assert FirstFit(c, MIN, 0) == 0;
    assert AllocAt(c, 0, MIN) == [Blk(0, true), Blk(6, false), Blk(13, true)];
  }

  // ---------- realloc ----------

  lemma UnitsAgain(size: nat)
    ensures Units(Units(size) * 4) == Units(size) && Request(Units(size) * 4) == Request(size)
  {
  }

  /** When realloc of a live block returns NULL, also when less is asked for: the size rounds to 0 or to
      more than the heap, or it is a different size, no header and minimum block can be cut off, and no
      second block can be had. */
  lemma ReallocNull(c: seq<Blk>, total: nat, addr: nat, newsize: nat)
    requires WellFormed(c, total + HDR, GAP) && Live(c, addr) && addr < total + HDR && total >= MIN
    ensures var n := Units(newsize);
            var size := Room(c, BlockOf(c, addr, 0));
            ReallocSpec(c, total, Ptr.At(addr), newsize).1.Null? <==>
              (|| n == 0 || n > total
               || (size != n && n + HDR + MIN >= size && OnlyExact(c, Request(newsize))))
  {
    var n := Units(newsize);
    ReallocMoves(c, total, addr, newsize);
    UnitsAgain(newsize);
    MallocNull(c, total, n * 4);
    hide Units, Request, OnlyExact, MallocSpec, FreeSpec, ShrinkAt, WellFormed, ReallocSpec;
  }

  lemma ReallocMoves(c: seq<Blk>, total: nat, addr: nat, newsize: nat)
    requires WellFormed(c, total + HDR, GAP) && Live(c, addr) && addr < total + HDR
    ensures var n := Units(newsize);
            var size := Room(c, BlockOf(c, addr, 0));
            ReallocSpec(c, total, Ptr.At(addr), newsize).1.Null? <==>
              n == 0 || n > total || (size != n && n + HDR + MIN >= size && MallocSpec(c, total, n * 4).1.Null?)
  {
    hide Units, MallocSpec, FreeSpec, ShrinkAt, WellFormed;
  }

  /** A failed call leaves the heap as it was, the old block with it, unless the size is 0 or so large
      that RT_ALIGN wraps to 0: then, and only then, it frees the block. */
  lemma ReallocFrees(c: seq<Blk>, total: nat, addr: nat, newsize: nat)
    requires WellFormed(c, total + HDR, GAP) && Live(c, addr) && addr < total + HDR && newsize < TWO_32
    requires ReallocSpec(c, total, Ptr.At(addr), newsize).1.Null?
    ensures var d := ReallocSpec(c, total, Ptr.At(addr), newsize).0;
            && d == (if newsize == 0 || newsize > TWO_32 - 4 then FreeSpec(c, Ptr.At(addr)) else c)
            && |d| > 0 && (Live(d, addr) <==> 0 < newsize <= TWO_32 - 4)
  {
    UnitsZero(newsize);
    FreedNotLive(c, total, addr);
    ReallocFailed(c, total, addr, newsize);
    hide Units, FreeSpec, ReallocSpec, WellFormed, Live, BlockOf;
  }

  lemma ReallocFailed(c: seq<Blk>, total: nat, addr: nat, newsize: nat)
    requires WellFormed(c, total + HDR, GAP) && Live(c, addr) && addr < total + HDR
    ensures var (d, r) := ReallocSpec(c, total, Ptr.At(addr), newsize);
            r.Null? ==> d == if Units(newsize) == 0 then FreeSpec(c, Ptr.At(addr)) else c
  {
    FailedMalloc(c, total, Units(newsize) * 4);
    hide Units, MallocSpec, FreeSpec, ShrinkAt, WellFormed;
  }

  lemma UnitsZero(size: nat)
    requires size < TWO_32
    ensures Units(size) == 0 <==> size == 0 || size > TWO_32 - 4
  {
  }

  lemma FailedMalloc(c: seq<Blk>, total: nat, size: nat)
    requires |c| > 0
    ensures MallocSpec(c, total, size).1.Null? ==> MallocSpec(c, total, size).0 == c
  {
  }

  lemma LiveIsBlock(c: seq<Blk>, total: nat, addr: nat) returns (len: int)
    requires WellFormed(c, total + HDR, GAP) && Live(c, addr)
    ensures Block(c, addr, len, HDR) && BlockOf(c, addr, 0) + 1 < |c| && len == Room(c, BlockOf(c, addr, 0))
  {
    var i := BlockOf(c, addr, 0);
    UsedIsBlock(c, total + HDR, GAP, i, HDR);
    len := Room(c, i);
  }

  lemma FreedNotLive(c: seq<Blk>, total: nat, addr: nat)
    requires WellFormed(c, total + HDR, GAP) && Live(c, addr) && addr < total + HDR
    ensures |FreeSpec(c, Ptr.At(addr))| > 0 && !Live(FreeSpec(c, Ptr.At(addr)), addr)
  {
    hide FreeSpec, Live, Block;
    var f := FreeSpec(c, Ptr.At(addr));
    FreeStep(c, total, Ptr.At(addr), addr, 0);
    if Live(f, addr) {
      var len := LiveIsBlock(f, total, addr);
      FreeStep(c, total, Ptr.At(addr), addr, len);
    }
  }

  /** An instance: in a heap of forty bytes with one block, realloc to 2^32 - 1 bytes frees the block. */
  lemma HugeReallocFrees()
    ensures var c := MallocSpec(Initial(10 + HDR), 10, 36).0;
            && WellFormed(c, 10 + HDR, GAP) && Live(c, HDR)
            && ReallocSpec(c, 10, Ptr.At(HDR), TWO_32 - 1) == (Initial(10 + HDR), Null)
  {
    ShrinkFails();
    MallocThenFree(Initial(10 + HDR), 10, 36);
    assert FirstFit(Initial(10 + HDR), 9, 0) == 0;
    assert Units(TWO_32 - 1) == 0;
  }

  /** A run in which shrinking fails: forty bytes of heap, one block of 36 that takes it all,
      then realloc to 32 finds no second block. */
  lemma ShrinkFails()
    ensures var c := MallocSpec(Initial(10 + HDR), 10, 36).0;
            && WellFormed(c, 10 + HDR, GAP) && Live(c, HDR)
            && Room(c, BlockOf(c, HDR, 0)) > Units(32)
            && ReallocSpec(c, 10, Ptr.At(HDR), 32) == (c, Null)
  {
    var i := Initial(10 + HDR);
    assert FirstFit(i, 9, 0) == 0;
    var c := MallocSpec(i, 10, 36).0;
    assert c == [Blk(0, true), Blk(13, true)];
    assert FirstFit(c, 8, 0) == 1 by { assert FirstFit(c, 8, 1) == 1; }
    assert BlockOf(c, HDR, 0) == 0;
  }

  // ---------- how much realloc hands out, and what it gives back ----------

  /** A block for `n` units has no room for a further header and minimum block, so what realloc hands out
      and what it keeps is never more than that. */
  predicate Snug(room: int, n: nat) {
    n <= room < (if n < MIN then MIN else n) + HDR + MIN
  }

  /** A block that is kept or cut: it has the size asked for, or one so large that the rest can be cut off. */
  predicate StaysInPlace(size: int, n: nat) {
    size == n || size > n + HDR + MIN
  }

  lemma AllocSnug(c: seq<Blk>, k: nat, n: nat)
    requires k + 1 < |c| && Fits(c, k, n) && n >= MIN
    ensures k + 1 < |AllocAt(c, k, n)| && Snug(Room(AllocAt(c, k, n), k), n)
    ensures UsedUnits(AllocAt(c, k, n)) == UsedUnits(c) + Room(AllocAt(c, k, n), k) + HDR
  {
    UsedAlloc(c, k, n);
    MarkKeeps(c, k, true);
    hide Mark, Split, UsedUnits;
    if Room(c, k) >= n + HDR + MIN { SplitIndex(Mark(c, k, true), k, c[k].off + HDR + n, k); }
  }

  /** A block handed out by rt_malloc has no room for a further block, and all of it counts as used. */
  lemma MallocSnug(c: seq<Blk>, total: nat, size: nat) returns (room: int)
    requires WellFormed(c, total + HDR, GAP) && MallocSpec(c, total, size).1.At?
    ensures var (d, r) := MallocSpec(c, total, size);
            && Block(d, r.addr, room, HDR) && Snug(room, Request(size))
            && UsedUnits(d) == UsedUnits(c) + room + HDR
  {
    hide WellFormed, AllocAt, Block, UsedUnits;
    var k, n := FirstFit(c, Request(size), 0), Request(size);
    AllocSnug(c, k, n);
    room := Room(AllocAt(c, k, n), k);
    AllocBlocks(c, total + HDR, k, n, c[k].off + HDR, room);
  }

  lemma UsedFree(c: seq<Blk>, total: nat, addr: nat, size: int)
    requires WellFormed(c, total + HDR, GAP) && Block(c, addr, size, HDR) && addr < total + HDR
    ensures Live(c, addr)
    ensures UsedUnits(FreeSpec(c, Ptr.At(addr))) == UsedUnits(c) - size - HDR
  {
    var i :| BlockAt(c, i, addr, size, HDR);
    BlockOfFrom(c, total + HDR, 0, i);
    UsedRelease(c, total + HDR, i);
  }

  lemma KeptOrCut(c: seq<Blk>, total: nat, addr: nat, size: int, newsize: nat)
    requires WellFormed(c, total + HDR, GAP) && Live(c, addr) && addr < total + HDR
    requires size == Room(c, BlockOf(c, addr, 0)) && 0 < Units(newsize) <= total
    requires StaysInPlace(size, Units(newsize))
    ensures var (d, r) := ReallocSpec(c, total, Ptr.At(addr), newsize);
            && r == Ptr.At(addr) && Block(d, addr, Units(newsize), HDR)
            && UsedUnits(d) == UsedUnits(c) - (size - Units(newsize))
  {
    hide Units, ShrinkAt, WellFormed, Block, UsedUnits;
    var i, n := BlockOf(c, addr, 0), Units(newsize);
    if size == n {
      var len := LiveIsBlock(c, total, addr);
    } else {
      ShrinkBlocks(c, total + HDR, i, n, addr, n);
      UsedShrink(c, total + HDR, i, n);
    }
  }

  lemma MovedBlock(c: seq<Blk>, total: nat, addr: nat, size: int, newsize: nat) returns (room: int)
    requires WellFormed(c, total + HDR, GAP) && Block(c, addr, size, HDR) && Live(c, addr) && addr < total + HDR
    requires Moves(c, total, Ptr.At(addr), newsize) && ReallocSpec(c, total, Ptr.At(addr), newsize).1.At?
    ensures var (d, r) := ReallocSpec(c, total, Ptr.At(addr), newsize);
            && r != Ptr.At(addr) && Block(d, r.addr, room, HDR) && Snug(room, Request(newsize))
            && UsedUnits(d) == UsedUnits(c) - (size - room)
  {
    var n4 := Units(newsize) * 4;
    var (d, r) := MallocSpec(c, total, n4);
    hide Moves, ReallocSpec, MallocSpec, FreeSpec, Block, UsedUnits, Live, Units, Request, Coalesced, Tiled;
    MoveIsTwoSteps(c, total, addr, newsize);
    UnitsAgain(newsize);
    room := MallocSnug(c, total, n4);
    MallocStep(c, total, n4, addr, size);
    FreeStep(d, total, Ptr.At(addr), r.addr, room);
    UsedFree(d, total, addr, size);
  }

  /** What realloc of a live block hands out when it is not NULL: a live block with room for the request
      and for no further block beside it; the pointer is the old one exactly when the block could be kept
      or cut; and the memory in use changes by exactly the difference of the two blocks, so what is cut off
      is given back. */
  lemma ReallocRoom(c: seq<Blk>, total: nat, addr: nat, size: int, newsize: nat) returns (room: int)
    requires WellFormed(c, total + HDR, GAP) && Block(c, addr, size, HDR) && Live(c, addr) && addr < total + HDR
    requires ReallocSpec(c, total, Ptr.At(addr), newsize).1.At?
    ensures var (d, r) := ReallocSpec(c, total, Ptr.At(addr), newsize);
            && Block(d, r.addr, room, HDR) && Snug(room, Units(newsize))
            && (r == Ptr.At(addr) <==> StaysInPlace(size, Units(newsize)))
            && (StaysInPlace(size, Units(newsize)) ==> room == Units(newsize))
            && UsedUnits(d) == UsedUnits(c) - (size - room)
  {
    var i := BlockOf(c, addr, 0);
    ReallocMoves(c, total, addr, newsize);
    var len := LiveIsBlock(c, total, addr);
    BlocksDisjoint(c, total + HDR, GAP, addr, size, addr, len, HDR);
    hide WellFormed, Block, ReallocSpec, Units, UsedUnits, Live, BlockOf;
    room := Units(newsize);
    if StaysInPlace(size, room) {
      KeptOrCut(c, total, addr, size, newsize);
    } else {
      room := MovedBlock(c, total, addr, size, newsize);
    }
  }

  lemma SixtyOfEighty()
    ensures var c := [Blk(0, true), Blk(23, true)];
            && MallocSpec(Initial(20 + HDR), 20, 60) == (c, Ptr.At(HDR))
            && BlockOf(c, HDR, 0) == 0 && MallocSpec(c, 20, 40).1 == Null
  {
    var c := [Blk(0, true), Blk(23, true)];
    assert FirstFit(Initial(20 + HDR), 15, 0) == 0;
    assert AllocAt(Initial(20 + HDR), 0, 15) == c;
    assert FirstFit(c, 10, 0) == 1 by { assert FirstFit(c, 10, 1) == 1; }
  }

  lemma SixtyCutToEight()
    ensures ShrinkAt([Blk(0, true), Blk(23, true)], 0, 2) == [Blk(0, true), Blk(5, false), Blk(23, true)]
    ensures MallocSpec([Blk(0, true), Blk(5, false), Blk(23, true)], 20, 40).1 == Ptr.At(5 + HDR)
  {
    var d := [Blk(0, true), Blk(5, false), Blk(23, true)];
    assert FirstFit(d, 10, 0) == 1 by { assert FirstFit(d, 10, 1) == 1; }
  }

  /** An instance of eighty bytes: when a block of sixty is cut to eight, forty more can be had. */
  lemma CutIsGivenBack()
    ensures var (c, p) := MallocSpec(Initial(20 + HDR), 20, 60);
            && WellFormed(c, 20 + HDR, GAP) && p == Ptr.At(HDR) && Live(c, HDR)
            && var d := ReallocSpec(c, 20, p, 8).0;
               |d| > 0 && MallocSpec(c, 20, 40).1 == Null && MallocSpec(d, 20, 40).1 == Ptr.At(5 + HDR)
  {
    SixtyOfEighty();
    SixtyCutToEight();
    hide FirstFit, MallocSpec, ShrinkAt, BlockOf;
  }

  /** A null pointer: rt_realloc is rt_malloc, except for the sizes that round up to 0. */
  lemma ReallocOfNull(c: seq<Blk>, total: nat, newsize: nat)
    requires WellFormed(c, total + HDR, GAP) && newsize < TWO_32 && total >= MIN
    ensures ReallocSpec(c, total, Null, newsize) == MallocSpec(c, total, newsize) <==>
              newsize <= TWO_32 - 4 || OnlyExact(c, MIN)
    ensures newsize > TWO_32 - 4 ==> ReallocSpec(c, total, Null, newsize) == (c, Null)
  {
    UnitsZero(newsize);
    UnitsAgain(newsize);
    MallocNull(c, total, newsize);
    FailedMalloc(c, total, newsize);
    hide WellFormed, OnlyExact, FirstFit, AllocAt;
  }

  /** A pointer outside the heap is handed back, unless the size is one that is refused anyway. */
  lemma ReallocOutside(c: seq<Blk>, total: nat, addr: nat, newsize: nat)
    requires WellFormed(c, total + HDR, GAP) && addr >= total + HDR
    ensures ReallocSpec(c, total, Ptr.At(addr), newsize) ==
            (c, if 0 < Units(newsize) <= total then Ptr.At(addr) else Null)
  {
  }

  // ---------- malloc and free are inverse ----------

  /** Freeing what was just allocated restores the chain, and with it `lfree` and `used_mem`. */
  lemma MallocThenFree(c: seq<Blk>, total: nat, size: nat)
    requires WellFormed(c, total + HDR, GAP) && MallocSpec(c, total, size).1.At?
    ensures var (d, q) := MallocSpec(c, total, size);
            |d| > 0 && Legal(d, q) && FreeSpec(d, q) == c
  {
    var k, n := FirstFit(c, Request(size), 0), Request(size);
    var d := AllocAt(c, k, n);
    AllocWellFormed(c, total + HDR, k, n);
    assert d[k].off == c[k].off;
    BlockOfFrom(d, total + HDR, 0, k);
    AllocThenRelease(c, total + HDR, k, n);
  }

  lemma AllocThenRelease(c: seq<Blk>, end: nat, k: nat, n: nat)
    requires WellFormed(c, end, GAP) && k + 1 < |c| && Fits(c, k, n)
    ensures k + 1 < |AllocAt(c, k, n)| && Release(AllocAt(c, k, n), k) == c
  {
    hide Tiled, Split, Mark, Release;
    assert c[k].used || c[k + 1].used;
    assert k > 0 ==> c[k - 1].used;
    if Room(c, k) >= n + HDR + MIN {
      SplitThenJoin(c, k, c[k].off + HDR + n);
    } else {
      MarkThenRelease(c, k);
    }
  }

  // ---------- the set of live blocks ----------

  lemma AllocBlocks(c: seq<Blk>, end: nat, k: nat, n: nat, addr: nat, len: int)
    requires WellFormed(c, end, GAP) && k + 1 < |c| && Fits(c, k, n) && n > 0
    ensures k + 1 < |AllocAt(c, k, n)|
    ensures Block(AllocAt(c, k, n), addr, len, HDR) <==>
              Block(c, addr, len, HDR) || (addr == c[k].off + HDR && len == Room(AllocAt(c, k, n), k))
  {
    hide Split, Mark, Block;
    var m := Mark(c, k, true);
    MarkTiled(c, end, GAP, k, true);
    MarkKeeps(c, k, true);
    MarkBlocks(c, end, GAP, k, true, addr, len, HDR);
    if addr == c[k].off + HDR { FreeIsNoBlock(c, end, GAP, k, addr, len, HDR); }
    if Room(c, k) >= n + HDR + MIN {
      SplitIndex(m, k, c[k].off + HDR + n, k);
      SplitBlocks(m, end, GAP, k, c[k].off + HDR + n, addr, len, HDR);
    }
  }

  lemma ShrinkBlocks(c: seq<Blk>, end: nat, i: nat, n: nat, addr: nat, len: int)
    requires WellFormed(c, end, GAP) && i + 1 < |c| && c[i].used
    requires 0 < n && n + HDR + MIN < Room(c, i)
    ensures Block(ShrinkAt(c, i, n), addr, len, HDR) <==>
              (Block(c, addr, len, HDR) && addr != c[i].off + HDR) || (addr == c[i].off + HDR && len == n)
  {
    hide Plug, Split, Block;
    SplitReady(c, end, GAP, i, c[i].off + HDR + n);
    PlugBlocks(Split(c, i, c[i].off + HDR + n), end, GAP, i + 1, addr, len, HDR);
    SplitBlocks(c, end, GAP, i, c[i].off + HDR + n, addr, len, HDR);
  }

  // ---------- whole runs ----------

  datatype Op =
    | Malloc(size: nat)
    | Realloc(p: Ptr, newsize: nat)
    | Free(q: Ptr)

  /** The one thing the allocator asks of its callers. */
  predicate Allowed(c: seq<Blk>, op: Op)
    requires |c| > 0
  {
    match op
    case Malloc(_) => true
    case Realloc(p, _) => Legal(c, p)
    case Free(q) => Legal(c, q)
  }

  ghost function Step(c: seq<Blk>, total: nat, op: Op): (seq<Blk>, Ptr)
    requires WellFormed(c, total + HDR, GAP) && Allowed(c, op)
  {
    match op
    case Malloc(size) => MallocSpec(c, total, size)
    case Realloc(p, newsize) => ReallocSpec(c, total, p, newsize)
    case Free(q) => (FreeSpec(c, q), Null)
  }

  /** The pointer whose block the operation may take away or resize. */
  function Touched(op: Op): Ptr {
    match op
    case Malloc(_) => Null
    case Realloc(p, _) => p
    case Free(q) => q
  }

  lemma FreeStep(c: seq<Blk>, total: nat, p: Ptr, addr: nat, len: int)
    requires WellFormed(c, total + HDR, GAP) && Legal(c, p)
    ensures WellFormed(FreeSpec(c, p), total + HDR, GAP)
    ensures p != Ptr.At(addr) ==> (Block(FreeSpec(c, p), addr, len, HDR) <==> Block(c, addr, len, HDR))
    ensures p == Ptr.At(addr) && addr < total + HDR ==> !Block(FreeSpec(c, p), addr, len, HDR)
  {
    hide Block, Release, Coalesced;
    if p.At? && p.addr < c[|c| - 1].off {
      var i := BlockOf(c, p.addr, 0);
      ReleaseWellFormed(c, total + HDR, GAP, i);
      ReleaseBlocks(c, total + HDR, GAP, i, addr, len, HDR);
    }
  }

  lemma MallocStep(c: seq<Blk>, total: nat, size: nat, addr: nat, len: int)
    requires WellFormed(c, total + HDR, GAP)
    ensures WellFormed(MallocSpec(c, total, size).0, total + HDR, GAP)
    ensures Block(c, addr, len, HDR) ==> Block(MallocSpec(c, total, size).0, addr, len, HDR)
    ensures Block(MallocSpec(c, total, size).0, addr, len, HDR) ==>
              Block(c, addr, len, HDR) || MallocSpec(c, total, size).1 == Ptr.At(addr)
    ensures Block(c, addr, len, HDR) ==> MallocSpec(c, total, size).1 != Ptr.At(addr)
  {
    hide Block, AllocAt, Coalesced;
    if Serves(c, total, size) {
      var k, n := FirstFit(c, Request(size), 0), Request(size);
      AllocWellFormed(c, total + HDR, k, n);
      AllocBlocks(c, total + HDR, k, n, addr, len);
      if addr == c[k].off + HDR { FreeIsNoBlock(c, total + HDR, GAP, k, addr, len, HDR); }
    }
  }

  /** One step of a run: the chain stays well formed; a live block that the operation does not name
      stays live with the same length; nothing becomes live except the block that is returned, and
      a returned block was not live before unless it is the one that was named. */
  lemma StepSafe(c: seq<Blk>, total: nat, op: Op, addr: nat, len: int)
    requires WellFormed(c, total + HDR, GAP) && Allowed(c, op)
    ensures var (d, r) := Step(c, total, op);
            && WellFormed(d, total + HDR, GAP)
            && (Block(c, addr, len, HDR) && Touched(op) != Ptr.At(addr) ==>
                  Block(d, addr, len, HDR) && r != Ptr.At(addr))
            && (Block(d, addr, len, HDR) ==> Block(c, addr, len, HDR) || r == Ptr.At(addr))
  {
    hide Block, Coalesced, Release, ShrinkAt, AllocAt, MallocSpec;
    match op
    case Malloc(size) => MallocStep(c, total, size, addr, len);
    case Free(q) => FreeStep(c, total, q, addr, len);
    case Realloc(p, newsize) =>
      var n := Units(newsize);
      FreeStep(c, total, p, addr, len);
      MallocStep(c, total, n * 4, addr, len);
      if 0 < n <= total && p.At? && p.addr < total + HDR {
        var i := BlockOf(c, p.addr, 0);
        if n + HDR + MIN < Room(c, i) {
          ShrinkWellFormed(c, total + HDR, i, n);
          ShrinkBlocks(c, total + HDR, i, n, addr, len);
        } else if n != Room(c, i) {
          MallocKeepsLive(c, total, n * 4, p.addr);
          FreeStep(MallocSpec(c, total, n * 4).0, total, p, addr, len);
        }
      }
  }

  /** A run of the allocator from a fresh heap: `cs[t]` is the chain before operation `ops[t]`. */
  ghost predicate Run(cs: seq<seq<Blk>>, total: nat, ops: seq<Op>) {
    && total >= MIN
    && |cs| == |ops| + 1
    && cs[0] == Initial(total + HDR)
    && forall t :: 0 <= t < |ops| ==> Follows(cs, total, ops, t)
  }

  ghost predicate Follows(cs: seq<seq<Blk>>, total: nat, ops: seq<Op>, t: int)
    requires 0 <= t < |ops| && |cs| == |ops| + 1
  {
    WellFormed(cs[t], total + HDR, GAP) ==> Allowed(cs[t], ops[t]) && cs[t + 1] == Step(cs[t], total, ops[t]).0
  }

  /** In every run the headers tile the heap, no two neighbours are free, and used and free units
      add up to mem_size_aligned + SIZEOF_STRUCT_MEM. */
  lemma {:induction false} RunWellFormed(cs: seq<seq<Blk>>, total: nat, ops: seq<Op>, t: nat)
    requires Run(cs, total, ops) && t <= |ops|
    ensures WellFormed(cs[t], total + HDR, GAP)
    ensures UsedUnits(cs[t]) + FreeUnits(cs[t]) == total + HDR
  {
    if t > 0 {
      RunWellFormed(cs, total, ops, t - 1);
      assert Follows(cs, total, ops, t - 1);
      StepSafe(cs[t - 1], total, ops[t - 1], 0, 0);
    }
    UsedPlusFree(cs[t]);
  }

  /** Isolation over runs: a block stays live, in place and with its length, for as long as no
      operation names it. */
  lemma {:induction false} RunIsolation(cs: seq<seq<Blk>>, total: nat, ops: seq<Op>, s: nat, t: nat, addr: nat,
                                        len: int)
    requires Run(cs, total, ops) && s <= t <= |ops|
    requires Block(cs[s], addr, len, HDR)
    requires forall u :: s <= u < t ==> Touched(ops[u]) != Ptr.At(addr)
    ensures Block(cs[t], addr, len, HDR)
    decreases t - s
  {
    if s < t {
      RunIsolation(cs, total, ops, s, t - 1, addr, len);
      RunWellFormed(cs, total, ops, t - 1);
      assert Follows(cs, total, ops, t - 1);
      StepSafe(cs[t - 1], total, ops[t - 1], addr, len);
    }
  }

  /** rt_realloc lets the semaphore go before it allocates, copies and frees, so a move is a Malloc and,
      later, a Free of the run, with steps of other threads between.  While these leave both blocks alone,
      the old block stays as it was and the new one keeps the room that the copy needs. */
  lemma InterruptedMove(cs: seq<seq<Blk>>, total: nat, ops: seq<Op>, s: nat, t: nat, addr: nat, len: int,
                        newsize: nat) returns (room: int)
    requires Run(cs, total, ops) && s < t <= |ops| && 4 * total < TWO_32 - 3
    requires Block(cs[s], addr, len, HDR) && ops[s] == Malloc(4 * Units(newsize)) && |cs[s]| > 0
    requires MallocSpec(cs[s], total, 4 * Units(newsize)).1.At?
    requires forall u :: s < u < t ==> Touched(ops[u]) != Ptr.At(addr)
    requires forall u :: s < u < t ==> Touched(ops[u]) != MallocSpec(cs[s], total, 4 * Units(newsize)).1
    ensures var r := MallocSpec(cs[s], total, 4 * Units(newsize)).1.addr;
            r != addr && Block(cs[t], addr, len, HDR) && Block(cs[t], r, room, HDR) && room >= Units(newsize)
  {
    var size := 4 * Units(newsize);
    var r := MallocSpec(cs[s], total, size).1.addr;
    RunWellFormed(cs, total, ops, s);
    assert Follows(cs, total, ops, s);
    MallocStep(cs[s], total, size, addr, len);
    room := NewRoom(cs[s], total, newsize);
    hide Block, WellFormed, MallocSpec;
    RunIsolation(cs, total, ops, s + 1, t, addr, len);
    RunIsolation(cs, total, ops, s + 1, t, r, room);
  }

  lemma NewRoom(c: seq<Blk>, total: nat, newsize: nat) returns (room: int)
    requires WellFormed(c, total + HDR, GAP) && MallocSpec(c, total, 4 * Units(newsize)).1.At?
    ensures var (d, r) := MallocSpec(c, total, 4 * Units(newsize));
            Block(d, r.addr, room, HDR) && room >= Units(newsize)
  {
    UnitsAgain(newsize);
    hide MallocSpec, WellFormed, Block, Units;
    room := MallocSnug(c, total, 4 * Units(newsize));
  }

  /** A call that moves the block without interruption is the two steps together. */
  lemma MoveIsTwoSteps(c: seq<Blk>, total: nat, addr: nat, newsize: nat)
    requires WellFormed(c, total + HDR, GAP) && Live(c, addr) && Moves(c, total, Ptr.At(addr), newsize)
    ensures var (d, r) := MallocSpec(c, total, Units(newsize) * 4);
            && |d| > 0 && Legal(d, Ptr.At(addr))
            && ReallocSpec(c, total, Ptr.At(addr), newsize) == (if r.At? then FreeSpec(d, Ptr.At(addr)) else d, r)
  {
    MallocKeepsLive(c, total, Units(newsize) * 4, addr);
    hide Units, MallocSpec, FreeSpec, ShrinkAt, WellFormed;
  }

  /** After any run, in whatever order blocks were freed: when none is live the heap is one free
      block again and nothing is in use. */
  lemma RunAllFreed(cs: seq<seq<Blk>>, total: nat, ops: seq<Op>, t: nat)
    requires Run(cs, total, ops) && t <= |ops|
    requires forall addr: nat, len: nat :: !Block(cs[t], addr, len, HDR)
    ensures cs[t] == Initial(total + HDR) && UsedUnits(cs[t]) == 0
  {
    hide Coalesced;
    RunWellFormed(cs, total, ops, t);
    var c := cs[t];
    forall i | 0 <= i && i + 1 < |c| ensures !c[i].used {
      if c[i].used { UsedIsBlock(c, total + HDR, GAP, i, HDR); }
    }
    if |c| > 2 { Neighbours(c, 0); }
    assert c == Initial(total + HDR);
    InitialTotals(total + HDR, 0);
  }
}
