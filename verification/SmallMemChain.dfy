/** The block chain of the small-memory allocator and the reference definitions of its operations. */
module SmallMemChain {
  import opened BlockChain


  /** SIZEOF_STRUCT_MEM */
  const HDR: nat := 3
  /** Every block has at least one unit of payload. */
  const GAP: nat := HDR + 1
  /** MIN_SIZE_ALIGNED, which for RT_ALIGN_SIZE == 4 is also MIN_SIZE */
  const MIN: nat := 3

  const TWO_32: nat := 0x1_0000_0000

  datatype Ptr = Null | At(addr: nat)

  /** RT_ALIGN(size, RT_ALIGN_SIZE) / RT_ALIGN_SIZE on a 32-bit rt_size_t: the addition wraps. */
  function Units(size: nat): nat {
    (size + 3) % TWO_32 / 4
  }

  /** The user data size of block `i`. */
  function Room(c: seq<Blk>, i: nat): int
    requires i + 1 < |c|
  {
    c[i + 1].off - (c[i].off + HDR)
  }

  predicate Fits(c: seq<Blk>, i: nat, n: nat)
    requires i + 1 < |c|
  {
    !c[i].used && Room(c, i) >= n
  }

  /** A block of exactly `n` units that ends at `heap_end`. */
  predicate ExactAtEnd(c: seq<Blk>, i: nat, n: nat)
    requires i + 1 < |c|
  {
    i + 2 == |c| && Room(c, i) == n
  }

  /** Offset of the lowest free header, or of `heap_end` when every block is used. */
  function LowestFree(c: seq<Blk>): nat
    requires |c| > 0
  {
    if |c| == 1 || !c[0].used then c[0].off else LowestFree(c[1..])
  }

  /** Units in use, headers included: what `used_mem` counts. */
  function UsedUnits(c: seq<Blk>): int {
    Total(c, true, 0)
  }

  function FreeUnits(c: seq<Blk>): int {
    Total(c, false, 0)
  }

  // ---------- the steps that the allocator is made of ----------

  function AllocAt(c: seq<Blk>, i: nat, n: nat): seq<Blk>
    requires i + 1 < |c|
  {
    if Room(c, i) >= n + HDR + MIN
    then Split(Mark(c, i, true), i, c[i].off + HDR + n)
    else Mark(c, i, true)
  }

  function ShrinkAt(c: seq<Blk>, i: nat, n: nat): seq<Blk>
    requires i + 1 < |c|
  {
    Plug(Split(c, i, c[i].off + HDR + n), i + 1)
  }

  // ---------- reference definitions of the three operations ----------

  /** The lowest block from `k` on that fits, or the index of `heap_end`. */
  function FirstFit(c: seq<Blk>, n: nat, k: nat): (r: nat)
    requires k < |c|
    ensures k <= r < |c|
    ensures forall j :: k <= j < r ==> !Fits(c, j, n)
    ensures r + 1 < |c| ==> Fits(c, r, n)
    decreases |c| - k
  {
    if k + 1 == |c| || Fits(c, k, n) then k else FirstFit(c, n, k + 1)
  }

  /** The request a block is searched for: at least MIN units. */
  function Request(size: nat): nat {
    if Units(size) < MIN then MIN else Units(size)
  }

  /** Whether rt_malloc finds a block: exact first fit, except that a request which only the
      exact-size block at the end of the heap could serve is refused. */
  predicate Serves(c: seq<Blk>, total: nat, size: nat)
    requires |c| > 0
  {
    size != 0 && Units(size) <= total &&
    var k := FirstFit(c, Request(size), 0);
    k + 1 < |c| && !ExactAtEnd(c, k, Request(size))
  }

  function MallocSpec(c: seq<Blk>, total: nat, size: nat): (seq<Blk>, Ptr)
    requires |c| > 0
  {
    if Serves(c, total, size) then
      var k := FirstFit(c, Request(size), 0);
      (AllocAt(c, k, Request(size)), At(c[k].off + HDR))
    else (c, Null)
  }

  /** Index of the block whose payload starts at `addr`, counted from `k`; |c| - 1 when none. */
  function BlockOf(c: seq<Blk>, addr: nat, k: nat): (r: nat)
    requires k < |c|
    ensures k <= r < |c|
    ensures forall j :: k <= j < r ==> c[j].off + HDR != addr
    ensures r + 1 < |c| ==> c[r].off + HDR == addr
    decreases |c| - k
  {
    if k + 1 == |c| || c[k].off + HDR == addr then k else BlockOf(c, addr, k + 1)
  }

  /** `addr` was returned by an allocation and not freed since. */
  predicate Live(c: seq<Blk>, addr: nat)
    requires |c| > 0
  {
    var i := BlockOf(c, addr, 0);
    i + 1 < |c| && c[i].used
  }

  /** What rt_free and rt_realloc may be given: a null pointer, a pointer outside the heap (which
      they refuse), or a live one. */
  predicate Legal(c: seq<Blk>, p: Ptr)
    requires |c| > 0
  {
    p.At? && p.addr < c[|c| - 1].off ==> Live(c, p.addr)
  }

  function FreeSpec(c: seq<Blk>, p: Ptr): seq<Blk>
    requires |c| > 0 && Legal(c, p)
  {
    if p.Null? || p.addr >= c[|c| - 1].off then c else Release(c, BlockOf(c, p.addr, 0))
  }

  ghost function ReallocSpec(c: seq<Blk>, total: nat, p: Ptr, newsize: nat): (seq<Blk>, Ptr)
    requires WellFormed(c, total + HDR, GAP) && Legal(c, p)
  {
    var n := Units(newsize);
    if n > total then (c, Null)
    else if n == 0 then (FreeSpec(c, p), Null)
    else if p.Null? then MallocSpec(c, total, n * 4)
    else if p.addr >= total + HDR then (c, p)
    else
      var i := BlockOf(c, p.addr, 0);
      if Room(c, i) == n then (c, p)
      else if n + HDR + MIN < Room(c, i) then (ShrinkAt(c, i, n), p)
      else
        var (d, q) := MallocSpec(c, total, n * 4);
        MallocKeepsLive(c, total, n * 4, p.addr);
        (if q.Null? then d else FreeSpec(d, p), q)
  }

  /** Whether rt_realloc calls rt_malloc: for a null pointer, and when the block can be neither left
      as it is nor cut. */
  predicate Moves(c: seq<Blk>, total: nat, p: Ptr, newsize: nat)
    requires |c| > 0
  {
    var n := Units(newsize);
    0 < n <= total &&
    (p.Null? || (p.addr < total + HDR &&
                 var i := BlockOf(c, p.addr, 0);
                 i + 1 < |c| && Room(c, i) != n && n + HDR + MIN >= Room(c, i)))
  }

  /** max_mem after rt_realloc: the largest use so far, which may be that between the allocation of the
      new block and the release of the old one. */
  function MaxAfter(c: seq<Blk>, total: nat, p: Ptr, newsize: nat, max: int): int
    requires |c| > 0
  {
    var peak := UsedUnits(MallocSpec(c, total, Units(newsize) * 4).0);
    if Moves(c, total, p, newsize) && peak > max then peak else max
  }

  // ---------- tiling ----------

  lemma AllocWellFormed(c: seq<Blk>, end: nat, i: nat, n: nat)
    requires WellFormed(c, end, GAP) && i + 1 < |c| && Fits(c, i, n) && n > 0
    ensures WellFormed(AllocAt(c, i, n), end, GAP)
  {
    hide Tiled, Coalesced;
    if Room(c, i) >= n + HDR + MIN {
      ClaimPartWellFormed(c, end, GAP, i, c[i].off + HDR + n);
    } else {
      ClaimWholeWellFormed(c, end, GAP, i);
    }
  }

  lemma ShrinkWellFormed(c: seq<Blk>, end: nat, i: nat, n: nat)
    requires WellFormed(c, end, GAP) && i + 1 < |c| && c[i].used
    requires 0 < n && n + HDR + MIN < Room(c, i)
    ensures WellFormed(ShrinkAt(c, i, n), end, GAP)
  {
    SplitReady(c, end, GAP, i, c[i].off + HDR + n);
    PlugWellFormed(Split(c, i, c[i].off + HDR + n), end, GAP, i + 1);
  }

  // ---------- accounting ----------

  lemma UsedPlug(c: seq<Blk>, end: nat, i: nat)
    requires Tiled(c, end, GAP) && i + 1 < |c| && !c[i].used
    ensures UsedUnits(Plug(c, i)) == UsedUnits(c)
  {
    var right := JoinRight(c, i);
    if !c[i + 1].used { TotalDrop(c, i + 1, true, 0); }
    if i > 0 && !c[i - 1].used { TotalDrop(right, i, true, 0); }
  }

  // ---------- the lowest free block ----------

  lemma {:induction false} LowestFreeIs(c: seq<Blk>, k: nat)
    requires k < |c|
    requires forall j :: 0 <= j < k ==> c[j].used
    requires k + 1 == |c| || !c[k].used
    ensures LowestFree(c) == c[k].off
  {
    if k > 0 { LowestFreeIs(c[1..], k - 1); }
  }

  lemma {:induction false} LowestFreeAt(c: seq<Blk>) returns (k: nat)
    requires |c| > 0
    ensures k < |c| && LowestFree(c) == c[k].off
    ensures forall j :: 0 <= j < k ==> c[j].used
    ensures k + 1 == |c| || !c[k].used
  {
    if |c| == 1 || !c[0].used {
      k := 0;
    } else {
      var m := LowestFreeAt(c[1..]);
      k := m + 1;
      forall j | 0 <= j < k ensures c[j].used {
        if j > 0 { assert c[1..][j - 1].used; }
      }
    }
  }

  /** The lowest free block is no higher than the free block `i` and its left neighbour. */
  lemma LowestFreeLeft(c: seq<Blk>, end: nat, i: nat)
    requires Tiled(c, end, GAP) && i + 1 < |c| && !c[i].used
    ensures LowestFree(c) <= c[i].off < c[i + 1].off
    ensures i > 0 && !c[i - 1].used ==> LowestFree(c) <= c[i - 1].off < c[i].off
  {
    var k := LowestFreeAt(c);
    assert k <= i;
    if i > 0 && !c[i - 1].used { assert k <= i - 1; }
  }

  lemma PlugPrefix(c: seq<Blk>, i: nat, k: nat)
    requires k <= i && i + 1 < |c| && (i + 2 == |c| ==> c[i + 1].used)
    requires k == i > 0 ==> c[i - 1].used
    ensures k + 1 < |Plug(c, i)| && Plug(c, i)[..k + 1] == c[..k + 1]
  {
    var right := JoinRight(c, i);
    assert right[..i + 1] == c[..i + 1] && i + 1 < |right|;
    assert k < i ==> right[i - 1] == c[i - 1];
    assert c[..i + 1][..k + 1] == c[..k + 1];
  }

  /** Joining free blocks does not move the lowest one. */
  lemma LowestFreePlug(c: seq<Blk>, end: nat, i: nat)
    requires Tiled(c, end, GAP) && i + 1 < |c| && !c[i].used && CoalescedBut(c, i)
    ensures LowestFree(Plug(c, i)) == LowestFree(c)
  {
    hide Plug, CoalescedBut;
    var d := Plug(c, i);
    var k := LowestFreeAt(c);
    assert k <= i;
    if i > 0 && !c[i - 1].used { assert k <= i - 1; }
    PlugPrefix(c, i, k);
    forall j | 0 <= j <= k ensures d[j] == c[j] {
      assert d[j] == d[..k + 1][j] == c[..k + 1][j];
    }
    LowestFreeIs(d, k);
  }

  lemma UsedAlloc(c: seq<Blk>, i: nat, n: nat)
    requires i + 1 < |c| && Fits(c, i, n)
    ensures UsedUnits(AllocAt(c, i, n)) ==
            UsedUnits(c) + (if Room(c, i) >= n + HDR + MIN then n + HDR else Room(c, i) + HDR)
  {
    hide Mark, Split;
    TotalMark(c, i, true, true, 0);
    MarkKeeps(c, i, true);
    if Room(c, i) >= n + HDR + MIN { TotalSplit(Mark(c, i, true), i, c[i].off + HDR + n, true, 0); }
  }

  // ---------- first fit ----------

  lemma {:induction false} FirstFitFrom(c: seq<Blk>, n: nat, from: nat, k: nat)
    requires from <= k < |c|
    requires forall j :: from <= j < k ==> !Fits(c, j, n)
    requires k + 1 == |c| || Fits(c, k, n)
    ensures FirstFit(c, n, from) == k
    decreases k - from
  {
    if from < k { FirstFitFrom(c, n, from + 1, k); }
  }

  lemma FirstFitIs(c: seq<Blk>, n: nat, k: nat)
    requires k + 1 < |c| && Fits(c, k, n)
    requires forall j :: 0 <= j < k ==> !Fits(c, j, n)
    ensures FirstFit(c, n, 0) == k
  {
    FirstFitFrom(c, n, 0, k);
  }

  /** When the loop of rt_malloc runs out at block `k`, a block that still fits is an exact fit
      that ends at heap_end. */
  lemma SearchExhausted(c: seq<Blk>, total: nat, n: nat, k: nat)
    requires Tiled(c, total + HDR, GAP) && k < |c| && n <= total
    requires forall j :: 0 <= j < k ==> !Fits(c, j, n)
    requires c[k].off >= total - n
    ensures var m := FirstFit(c, n, 0); m + 1 == |c| || ExactAtEnd(c, m, n)
  {
    var m := FirstFit(c, n, 0);
    if m + 1 < |c| {
      assert m >= k;
      assert c[m].off >= c[k].off;
      assert c[m + 1].off <= c[|c| - 1].off;
    }
  }

  /** Every block below the lowest free one is used. */
  lemma UsedBelowLowest(c: seq<Blk>, end: nat, k: nat)
    requires Tiled(c, end, GAP) && k < |c| && c[k].off <= LowestFree(c)
    ensures forall j :: 0 <= j < k ==> c[j].used
  {
    var m := LowestFreeAt(c);
    assert k <= m;
  }

  /** Cutting first and marking second gives the same chain. */
  lemma AllocSteps(c: seq<Blk>, i: nat, n: nat)
    requires i + 1 < |c|
    ensures AllocAt(c, i, n) ==
            Mark(if Room(c, i) >= n + HDR + MIN then Split(c, i, c[i].off + HDR + n) else c, i, true)
    ensures AllocAt(c, i, n)[..i] == c[..i]
  {
  }

  /** Taking a block above the lowest free one does not move it; taking the lowest one leaves
      only used blocks up to there. */
  lemma LowestFreeAlloc(c: seq<Blk>, end: nat, i: nat, n: nat)
    requires Tiled(c, end, GAP) && i + 1 < |c| && !c[i].used
    ensures i < |AllocAt(c, i, n)| && AllocAt(c, i, n)[i].off == c[i].off
    ensures c[i].off != LowestFree(c) ==> LowestFree(AllocAt(c, i, n)) == LowestFree(c)
    ensures c[i].off == LowestFree(c) ==> forall j :: 0 <= j < i ==> AllocAt(c, i, n)[j].used
  {
    var k := LowestFreeAt(c);
    assert k <= i;
    var d := AllocAt(c, i, n);
    forall j | 0 <= j < i ensures d[j] == c[j] {}
    if k < i { LowestFreeIs(d, k); }
  }

  /** A fit that the loop of rt_malloc reaches is not the exact one at the end. */
  lemma NotAtEnd(c: seq<Blk>, total: nat, n: nat, k: nat)
    requires Tiled(c, total + HDR, GAP) && k + 1 < |c| && n <= total
    requires c[k].off < total - n
    ensures !ExactAtEnd(c, k, n)
  {
  }

  // ---------- which block an address belongs to ----------

  lemma {:induction false} BlockOfFrom(c: seq<Blk>, end: nat, from: nat, i: nat)
    requires Tiled(c, end, GAP) && from <= i && i + 1 < |c|
    ensures BlockOf(c, c[i].off + HDR, from) == i
    decreases i - from
  {
    if from < i {
      assert c[from].off < c[i].off;
      BlockOfFrom(c, end, from + 1, i);
    }
  }

  /** Where block `i` is found after block `k` has been allocated. */
  function AfterAlloc(c: seq<Blk>, k: nat, n: nat, i: nat): nat
    requires k + 1 < |c|
  {
    if i < k || Room(c, k) < n + HDR + MIN then i else i + 1
  }

  lemma BlockAfterAlloc(c: seq<Blk>, end: nat, k: nat, n: nat, i: nat)
    requires WellFormed(c, end, GAP) && k + 1 < |c| && Fits(c, k, n) && n > 0
    requires i + 1 < |c| && c[i].used
    ensures var d, j := AllocAt(c, k, n), AfterAlloc(c, k, n, i);
            && j + 1 < |d| && d[j] == c[i] && d[j + 1].off == c[i + 1].off
            && BlockOf(d, c[i].off + HDR, 0) == j
    ensures var d := AllocAt(c, k, n);
            d[k].used && k + 1 < |d| && d[k].off == c[k].off && Room(d, k) >= n
  {
    var d, j := AllocAt(c, k, n), AfterAlloc(c, k, n, i);
    AllocWellFormed(c, end, k, n);
    assert d[j] == c[i] && d[j + 1].off == c[i + 1].off;
    BlockOfFrom(d, end, 0, j);
  }

  lemma MallocKeepsLive(c: seq<Blk>, total: nat, size: nat, addr: nat)
    requires WellFormed(c, total + HDR, GAP) && Live(c, addr)
    ensures |MallocSpec(c, total, size).0| > 0 && Live(MallocSpec(c, total, size).0, addr)
  {
    hide Tiled, Coalesced, AllocAt;
    if Serves(c, total, size) {
      BlockAfterAlloc(c, total + HDR, FirstFit(c, Request(size), 0), Request(size), BlockOf(c, addr, 0));
    }
  }

  /** Freeing block `i` moves the lowest free block down to it at most. */
  lemma LowestFreeMark(c: seq<Blk>, end: nat, i: nat)
    requires Tiled(c, end, GAP) && i + 1 < |c| && c[i].used
    ensures LowestFree(Mark(c, i, false)) == if c[i].off < LowestFree(c) then c[i].off else LowestFree(c)
  {
    var k := LowestFreeAt(c);
    if i < k {
      LowestFreeIs(Mark(c, i, false), i);
    } else {
      LowestFreeIs(Mark(c, i, false), k);
    }
  }

  /** Joining free blocks changes neither the units in use nor the lowest free block. */
  lemma PlugNeutral(c: seq<Blk>, end: nat, i: nat)
    requires Tiled(c, end, GAP) && i + 1 < |c| && !c[i].used && CoalescedBut(c, i)
    ensures UsedUnits(Plug(c, i)) == UsedUnits(c)
    ensures LowestFree(Plug(c, i)) == LowestFree(c)
  {
    UsedPlug(c, end, i);
    LowestFreePlug(c, end, i);
  }

  lemma UsedRelease(c: seq<Blk>, end: nat, i: nat)
    requires WellFormed(c, end, GAP) && i + 1 < |c| && c[i].used
    ensures UsedUnits(Release(c, i)) == UsedUnits(c) - (c[i + 1].off - c[i].off)
    ensures LowestFree(Release(c, i)) == LowestFree(Mark(c, i, false))
  {
    TotalMark(c, i, false, true, 0);
    MarkTiled(c, end, GAP, i, false);
    MarkCoalescedBut(c, i);
    PlugNeutral(Mark(c, i, false), end, i);
  }

  lemma UsedShrink(c: seq<Blk>, end: nat, i: nat, n: nat)
    requires WellFormed(c, end, GAP) && i + 1 < |c| && c[i].used
    requires 0 < n && n + HDR + MIN < Room(c, i)
    ensures UsedUnits(ShrinkAt(c, i, n)) == UsedUnits(c) - (Room(c, i) - n)
    ensures LowestFree(ShrinkAt(c, i, n)) == LowestFree(Split(c, i, c[i].off + HDR + n))
  {
    hide Tiled, Split, Plug, CoalescedBut, Coalesced;
    TotalSplit(c, i, c[i].off + HDR + n, true, 0);
    SplitReady(c, end, GAP, i, c[i].off + HDR + n);
    PlugNeutral(Split(c, i, c[i].off + HDR + n), end, i + 1);
  }

  lemma LowestFreeSplit(c: seq<Blk>, end: nat, i: nat, o: nat)
    requires Tiled(c, end, GAP) && i + 1 < |c| && c[i].used
    requires c[i].off + HDR < o && o + HDR < c[i + 1].off
    ensures LowestFree(Split(c, i, o)) == if o < LowestFree(c) then o else LowestFree(c)
  {
    var k := LowestFreeAt(c);
    var d := Split(c, i, o);
    forall j | 0 <= j <= i ensures d[j] == c[j] {}
    if i < k {
      LowestFreeIs(d, i + 1);
    } else {
      LowestFreeIs(d, k);
    }
  }
}
