/** The memheap as a value: the chain of blocks in address order, and the free list in list order.
    Each operation of memheap.c has its reference definition here. */
module MemheapChain {
  import opened BlockChain
  import opened DList
  import opened Lists

  /** RT_MEMHEAP_SIZE: six words */
  const HDR: nat := 6
  /** RT_MEMHEAP_MINIALLOC */
  const MINI: nat := 3

  const TWO_32: nat := 0x1_0000_0000

  datatype Ptr = Null | At(addr: nat)

  datatype Pool = Pool(chain: seq<Blk>, free: seq<nat>)

  /** The rounded request: RT_ALIGN on 32 bits, then at least RT_MEMHEAP_MINIALLOC. */
  function Request(size: nat): nat {
    var n := (size + 3) % TWO_32 / 4;
    if n < MINI then MINI else n
  }

  ghost predicate IsFree(c: seq<Blk>, x: nat) {
    exists i :: 0 <= i < |c| && c[i] == Blk(x, false)
  }

  /** The ring of blocks tiles the pool up to the tailer, no two neighbours are free, and the free
      list holds exactly the free blocks, each once. */
  ghost predicate Inv(p: Pool, end: nat) {
    && WellFormed(p.chain, end, HDR)
    && Distinct(p.free)
    && forall x :: x in p.free <==> IsFree(p.chain, x)
  }

  /** MEMITEM_SIZE */
  function Size(c: seq<Blk>, i: nat): int
    requires i + 1 < |c|
  {
    c[i + 1].off - c[i].off - HDR
  }

  /** available_size: the payload of all free blocks. */
  function Available(c: seq<Blk>): int {
    Total(c, false, HDR)
  }

  /** Index of the header at `x`, counted from `k`; |c| - 1 when there is none before. */
  function IndexOf(c: seq<Blk>, x: nat, k: nat): (r: nat)
    requires k < |c|
    ensures k <= r < |c|
    ensures r + 1 < |c| ==> c[r].off == x
    ensures forall j :: k <= j < r ==> c[j].off != x
    decreases |c| - k
  {
    if k + 1 == |c| || c[k].off == x then k else IndexOf(c, x, k + 1)
  }

  /** The block at header `x` is at least `n` units long. */
  predicate BigEnough(c: seq<Blk>, x: nat, n: nat)
    requires |c| > 0
  {
    var i := IndexOf(c, x, 0);
    i + 1 < |c| && Size(c, i) >= n
  }

  /** Position in the free list of the first block that is big enough, from position `t` on. */
  function FirstBig(p: Pool, n: nat, t: nat): (r: nat)
    requires |p.chain| > 0 && t <= |p.free|
    ensures t <= r <= |p.free|
    ensures forall j :: t <= j < r ==> !BigEnough(p.chain, p.free[j], n)
    ensures r < |p.free| ==> BigEnough(p.chain, p.free[r], n)
    decreases |p.free| - t
  {
    if t == |p.free| || BigEnough(p.chain, p.free[t], n) then t else FirstBig(p, n, t + 1)
  }

  /** Block `i` is given out; a long enough rest becomes a free block at the head of the list. */
  function TakeBlock(p: Pool, i: nat, n: nat): Pool
    requires i + 1 < |p.chain|
  {
    var x := p.chain[i].off;
    if Size(p.chain, i) >= n + HDR + MINI then
      Pool(Split(Mark(p.chain, i, true), i, x + HDR + n), [x + HDR + n] + Without(p.free, x))
    else
      Pool(Mark(p.chain, i, true), Without(p.free, x))
  }

  function AllocSpec(p: Pool, size: nat): (Pool, Ptr)
    requires |p.chain| > 0
  {
    var n := Request(size);
    var t := FirstBig(p, n, 0);
    if n < Available(p.chain) && t < |p.free| then
      (TakeBlock(p, IndexOf(p.chain, p.free[t], 0), n), At(p.free[t] + HDR))
    else (p, Null)
  }

  /** A pointer handed out and not freed since. */
  predicate Live(c: seq<Blk>, addr: nat)
    requires |c| > 0
  {
    addr >= HDR && var i := IndexOf(c, addr - HDR, 0); i + 1 < |c| && c[i].used
  }

  /** The free list after block `i` was freed: a free right neighbour leaves it, and the block
      enters it at the head unless it was merged into a free left neighbour. */
  function FreedList(p: Pool, i: nat): seq<nat>
    requires i + 1 < |p.chain|
  {
    var c := p.chain;
    var rest := if c[i + 1].used then p.free else Without(p.free, c[i + 1].off);
    if i > 0 && !c[i - 1].used then rest else [c[i].off] + rest
  }

  function ReleaseBlock(p: Pool, i: nat): Pool
    requires i + 1 < |p.chain|
  {
    Pool(Release(p.chain, i), FreedList(p, i))
  }

  function FreeSpec(p: Pool, q: Ptr): Pool
    requires |p.chain| > 0 && (q.At? ==> Live(p.chain, q.addr))
  {
    if q.Null? then p else ReleaseBlock(p, IndexOf(p.chain, q.addr - HDR, 0))
  }

  /** Block `i` grows into its free right neighbour, whose header moves up. */
  function Grown(p: Pool, i: nat, n: nat): Pool
    requires i + 2 < |p.chain|
  {
    var o := p.chain[i].off + HDR + n;
    Pool(p.chain[i + 1 := Blk(o, false)], [o] + Without(p.free, p.chain[i + 1].off))
  }

  /** Block `i` is cut to `n` units; the rest is joined with a free right neighbour. */
  function Shrunk(p: Pool, i: nat, n: nat): Pool
    requires i + 1 < |p.chain|
  {
    var o := p.chain[i].off + HDR + n;
    var rest := if p.chain[i + 1].used then p.free else Without(p.free, p.chain[i + 1].off);
    Pool(Plug(Split(p.chain, i, o), i + 1), [o] + rest)
  }

  /** Whether the free right neighbour of block `i` has room for the growth. */
  predicate CanGrow(c: seq<Blk>, i: nat, n: nat)
    requires i + 1 < |c|
  {
    !c[i + 1].used && i + 2 < |c| && Size(c, i + 1) + Size(c, i) > n + MINI
  }

  ghost function ReallocSpec(p: Pool, end: nat, q: Ptr, newsize: nat): (Pool, Ptr)
    requires Inv(p, end) && (q.At? ==> Live(p.chain, q.addr))
  {
    var n := Request(newsize);
    if newsize == 0 then (FreeSpec(p, q), Null)
    else if q.Null? then AllocSpec(p, 4 * n)
    else
      var i := IndexOf(p.chain, q.addr - HDR, 0);
      if n > Size(p.chain, i) then
        if CanGrow(p.chain, i, n) then (Grown(p, i, n), q)
        else
          var (d, r) := AllocSpec(p, 4 * n);
          AllocKeepsLive(p, end, 4 * n, q.addr);
          (if r.Null? then d else FreeSpec(d, q), r)
      else if n + HDR + MINI >= Size(p.chain, i) then (p, q)
      else (Shrunk(p, i, n), q)
  }

  function Larger(a: int, b: int): int {
    if a > b then a else b
  }

  /** pool_size - available_size */
  function InUse(p: Pool, end: nat): int {
    end + HDR - Available(p.chain)
  }

  /** max_used_size after rt_memheap_alloc */
  function MaxAfterAlloc(p: Pool, end: nat, size: nat, max: int): int
    requires |p.chain| > 0
  {
    var (d, r) := AllocSpec(p, size);
    if r.At? then Larger(max, InUse(d, end)) else max
  }

  /** max_used_size after rt_memheap_realloc: the largest use so far, which may be that between the
      allocation of the new block and the release of the old one. */
  function MaxAfter(p: Pool, end: nat, q: Ptr, newsize: nat, max: int): int
    requires |p.chain| > 0
  {
    var n := Request(newsize);
    if newsize == 0 then max
    else if q.Null? then MaxAfterAlloc(p, end, 4 * n, max)
    else if q.addr < HDR then max
    else
      var i := IndexOf(p.chain, q.addr - HDR, 0);
      if i + 1 == |p.chain| || n <= Size(p.chain, i) then max
      else if CanGrow(p.chain, i, n) then Larger(max, InUse(Grown(p, i, n), end))
      else MaxAfterAlloc(p, end, 4 * n, max)
  }

  // ---------- indices ----------

  lemma {:induction false} IndexFrom(c: seq<Blk>, end: nat, from: nat, i: nat)
    requires Tiled(c, end, HDR) && from <= i < |c|
    ensures IndexOf(c, c[i].off, from) == i
    decreases i - from
  {
    if from < i {
      assert c[from].off < c[i].off;
      IndexFrom(c, end, from + 1, i);
    }
  }

  /** A free header has a definite place before the tailer. */
  lemma FreeIndex(c: seq<Blk>, end: nat, x: nat) returns (i: nat)
    requires Tiled(c, end, HDR) && IsFree(c, x)
    ensures i + 1 < |c| && c[i] == Blk(x, false) && IndexOf(c, x, 0) == i
  {
    i :| 0 <= i < |c| && c[i] == Blk(x, false);
    IndexFrom(c, end, 0, i);
  }

  lemma FreeNotUsed(c: seq<Blk>, end: nat, i: nat)
    requires Tiled(c, end, HDR) && i < |c| && c[i].used
    ensures !IsFree(c, c[i].off)
  {
    forall j | 0 <= j < |c| ensures c[j] != Blk(c[i].off, false) {
      if j != i { HeadersDiffer(c, end, HDR, i, j); }
    }
  }

  // ---------- free lists ----------

  lemma WithoutPlace(l: seq<nat>, t: nat)
    requires Distinct(l) && t < |l|
    ensures Without(l, l[t]) == Removed(l, t)
  {
    WithoutAt(l, l[t], t);
  }

  lemma FreeMark(c: seq<Blk>, end: nat, i: nat, x: nat)
    requires Tiled(c, end, HDR) && i + 1 < |c|
    ensures IsFree(Mark(c, i, true), x) <==> IsFree(c, x) && x != c[i].off
    ensures IsFree(Mark(c, i, false), x) <==> IsFree(c, x) || x == c[i].off
  {
    var d, f := Mark(c, i, true), Mark(c, i, false);
    if IsFree(c, x) {
      var j :| 0 <= j < |c| && c[j] == Blk(x, false);
      assert j != i ==> d[j] == Blk(x, false);
      assert f[j] == Blk(x, false);
    }
    assert f[i] == Blk(c[i].off, false);
    if IsFree(d, x) {
      var j :| 0 <= j < |d| && d[j] == Blk(x, false);
      assert c[j] == Blk(x, false);
      HeadersDiffer(c, end, HDR, i, j);
    }
    if IsFree(f, x) {
      var j :| 0 <= j < |f| && f[j] == Blk(x, false);
      assert j != i ==> c[j] == Blk(x, false);
    }
  }

  lemma FreeSplit(c: seq<Blk>, i: nat, o: nat, x: nat)
    requires i + 1 < |c|
    ensures IsFree(Split(c, i, o), x) <==> IsFree(c, x) || x == o
  {
    var d := Split(c, i, o);
    SplitIndex(c, i, o, i);
    if IsFree(c, x) {
      var j :| 0 <= j < |c| && c[j] == Blk(x, false);
      SplitIndex(c, i, o, j);
    }
    if IsFree(d, x) {
      var j :| 0 <= j < |d| && d[j] == Blk(x, false);
      assert d[j] == if j <= i then c[j] else if j == i + 1 then Blk(o, false) else c[j - 1];
    }
  }

  lemma FreeDrop(c: seq<Blk>, end: nat, i: nat, x: nat)
    requires Tiled(c, end, HDR) && i + 1 < |c| && !c[i].used
    ensures IsFree(Drop(c, i), x) <==> IsFree(c, x) && x != c[i].off
  {
    var d := Drop(c, i);
    if IsFree(c, x) && x != c[i].off {
      var j :| 0 <= j < |c| && c[j] == Blk(x, false);
      assert d[if j < i then j else j - 1] == c[j];
    }
    if IsFree(d, x) {
      var j :| 0 <= j < |d| && d[j] == Blk(x, false);
      var k := if j < i then j else j + 1;
      assert c[k] == Blk(x, false);
      HeadersDiffer(c, end, HDR, i, k);
    }
  }

  // ---------- every operation keeps the invariant and the accounting ----------

  lemma PushIn(l: seq<nat>, x: nat)
    requires Distinct(l) && x !in l
    ensures Distinct([x] + l)
    ensures forall y :: y in [x] + l <==> y == x || y in l
  {
  }

  /** The offset of a new header inside block `i` is not yet that of a header. */
  lemma InsideIsNew(c: seq<Blk>, end: nat, i: nat, o: nat)
    requires Tiled(c, end, HDR) && i + 1 < |c| && c[i].off < o < c[i + 1].off
    ensures forall j :: 0 <= j < |c| ==> c[j].off != o
    ensures !IsFree(c, o)
  {
    forall j | 0 <= j < |c| ensures c[j].off != o {
      if j < i { assert c[j].off < c[i].off; }
      if j > i + 1 { assert c[i + 1].off < c[j].off; }
    }
  }

  lemma TakeInv(p: Pool, end: nat, i: nat, n: nat)
    requires Inv(p, end) && i + 1 < |p.chain| && !p.chain[i].used && Size(p.chain, i) >= n
    ensures Inv(TakeBlock(p, i, n), end)
    ensures Available(TakeBlock(p, i, n).chain) == Available(p.chain)
              - (if Size(p.chain, i) >= n + HDR + MINI then n + HDR else Size(p.chain, i))
  {
    hide Tiled, Coalesced, Mark, Split, Total, IsFree;
    var c := p.chain;
    WithoutIs(p.free, c[i].off);
    TotalMark(c, i, true, false, HDR);
    MarkTiled(c, end, HDR, i, true);
    MarkKeeps(c, i, true);
    forall x ensures IsFree(Mark(c, i, true), x) <==> IsFree(c, x) && x != c[i].off {
      FreeMark(c, end, i, x);
    }
    var o := c[i].off + HDR + n;
    if Size(c, i) >= n + HDR + MINI {
      ClaimPartWellFormed(c, end, HDR, i, o);
      TotalSplit(Mark(c, i, true), i, o, false, HDR);
      InsideIsNew(c, end, i, o);
      PushIn(Without(p.free, c[i].off), o);
      forall x ensures IsFree(Split(Mark(c, i, true), i, o), x) <==> IsFree(Mark(c, i, true), x) || x == o {
        FreeSplit(Mark(c, i, true), i, o, x);
      }
    } else {
      ClaimWholeWellFormed(c, end, HDR, i);
    }
  }

  /** Where block `j` is found after block `k` was given out. */
  function AfterTake(c: seq<Blk>, k: nat, n: nat, j: nat): nat
    requires k + 1 < |c|
  {
    if j < k || Size(c, k) < n + HDR + MINI then j else j + 1
  }

  lemma TakeIndex(p: Pool, k: nat, n: nat, j: nat)
    requires k + 1 < |p.chain| && j < |p.chain|
    ensures var d, split := TakeBlock(p, k, n).chain, Size(p.chain, k) >= n + HDR + MINI;
            && |d| == |p.chain| + (if split then 1 else 0)
            && d[if j > k && split then j + 1 else j] == (if j == k then Blk(p.chain[k].off, true) else p.chain[j])
            && (split ==> d[k + 1].off == p.chain[k].off + HDR + n)
  {
    hide Mark, Split;
    var m := Mark(p.chain, k, true);
    MarkIndex(p.chain, k, true, j);
    if Size(p.chain, k) >= n + HDR + MINI { SplitIndex(m, k, p.chain[k].off + HDR + n, j); }
  }

  lemma TakeKeeps(p: Pool, end: nat, k: nat, n: nat, j: nat)
    requires Inv(p, end) && k + 1 < |p.chain| && !p.chain[k].used && Size(p.chain, k) >= n
    requires j + 1 < |p.chain| && p.chain[j].used
    ensures var c, d, i := p.chain, TakeBlock(p, k, n).chain, AfterTake(p.chain, k, n, j);
            && i + 1 < |d| && d[i] == c[j] && d[i + 1].off == c[j + 1].off
            && IndexOf(d, c[j].off, 0) == i
    ensures var c, d := p.chain, TakeBlock(p, k, n).chain;
            k + 1 < |d| && d[k] == Blk(c[k].off, true) && Size(d, k) >= n && IndexOf(d, c[k].off, 0) == k
  {
    hide Coalesced, Total, IsFree, Mark, Split, Tiled;
    var c, d, i := p.chain, TakeBlock(p, k, n).chain, AfterTake(p.chain, k, n, j);
    TakeInv(p, end, k, n);
    TakeIndex(p, k, n, j);
    TakeIndex(p, k, n, j + 1);
    TakeIndex(p, k, n, k);
    TakeIndex(p, k, n, k + 1);
    IndexFrom(d, end, 0, i);
    IndexFrom(d, end, 0, k);
  }

  /** What the search of rt_memheap_alloc finds. */
  lemma FoundBlock(p: Pool, end: nat, n: nat) returns (k: nat)
    requires Inv(p, end) && FirstBig(p, n, 0) < |p.free|
    ensures k + 1 < |p.chain| && p.chain[k] == Blk(p.free[FirstBig(p, n, 0)], false) && Size(p.chain, k) >= n
    ensures k == IndexOf(p.chain, p.free[FirstBig(p, n, 0)], 0)
  {
    var x := p.free[FirstBig(p, n, 0)];
    assert x in p.free;
    k := FreeIndex(p.chain, end, x);
  }

  lemma AllocKeepsLive(p: Pool, end: nat, size: nat, addr: nat)
    requires Inv(p, end) && Live(p.chain, addr)
    ensures |AllocSpec(p, size).0.chain| > 0 && Live(AllocSpec(p, size).0.chain, addr)
  {
    hide Inv, TakeBlock;
    if AllocSpec(p, size).1.At? {
      var k := FoundBlock(p, end, Request(size));
      TakeKeeps(p, end, k, Request(size), IndexOf(p.chain, addr - HDR, 0));
    }
  }

  // ---------- releasing ----------

  /** Joining in the order of rt_memheap_free, left first, gives the same chain. */
  lemma LeftThenRight(c: seq<Blk>, i: nat)
    requires 0 < i && i + 1 < |c| && !c[i - 1].used
    ensures |JoinLeft(c, i)| == |c| - 1 && JoinLeft(c, i)[i - 1] == c[i - 1] && JoinLeft(c, i)[i] == c[i + 1]
    ensures Plug(c, i) == JoinRight(JoinLeft(c, i), i - 1)
  {
    var d := Drop(c, i);
    if !c[i + 1].used {
      assert Drop(d, i) == Drop(Drop(c, i + 1), i);
    }
  }

  lemma TotalPlug(c: seq<Blk>, end: nat, i: nat)
    requires Tiled(c, end, HDR) && i + 1 < |c| && !c[i].used
    ensures Available(Plug(c, i)) == Available(c) + (if c[i + 1].used then 0 else HDR)
                                                 + (if i > 0 && !c[i - 1].used then HDR else 0)
  {
    var right := JoinRight(c, i);
    if !c[i + 1].used { TotalDrop(c, i + 1, false, HDR); }
    if i > 0 && !c[i - 1].used { TotalDrop(right, i, false, HDR); }
  }

  lemma FreePlug(c: seq<Blk>, end: nat, i: nat, x: nat)
    requires Tiled(c, end, HDR) && i + 1 < |c| && !c[i].used
    ensures IsFree(Plug(c, i), x) <==>
              IsFree(c, x) && !(!c[i + 1].used && x == c[i + 1].off) && !(i > 0 && !c[i - 1].used && x == c[i].off)
  {
    hide IsFree;
    var right := JoinRight(c, i);
    if !c[i + 1].used {
      FreeDrop(c, end, i + 1, x);
      DropTiled(c, end, HDR, i + 1);
    }
    if i > 0 && !c[i - 1].used { FreeDrop(right, end, i, x); }
  }

  lemma ReleaseInv(p: Pool, end: nat, i: nat)
    requires Inv(p, end) && i + 1 < |p.chain| && p.chain[i].used
    ensures Inv(ReleaseBlock(p, i), end)
    ensures var c := p.chain;
            Available(ReleaseBlock(p, i).chain) == Available(c) + Size(c, i)
              + (if c[i + 1].used then 0 else HDR) + (if i > 0 && !c[i - 1].used then HDR else 0)
  {
    hide Coalesced, Plug, Total, IsFree;
    var c := p.chain;
    var m := Mark(c, i, false);
    ReleaseWellFormed(c, end, HDR, i);
    MarkTiled(c, end, HDR, i, false);
    TotalMark(c, i, false, false, HDR);
    TotalPlug(m, end, i);
    FreeNotUsed(c, end, i);
    ReleaseList(p, end, i);
    forall x ensures IsFree(Plug(m, i), x) <==> x in FreedList(p, i) {
      FreePlug(m, end, i, x);
      FreeMark(c, end, i, x);
    }
  }

  lemma ReleaseList(p: Pool, end: nat, i: nat)
    requires Inv(p, end) && i + 1 < |p.chain| && p.chain[i].used
    ensures Distinct(FreedList(p, i))
    ensures var c := p.chain;
            forall x :: x in FreedList(p, i) <==>
              (x in p.free && !(!c[i + 1].used && x == c[i + 1].off)) || (x == c[i].off && !(i > 0 && !c[i - 1].used))
  {
    hide Coalesced, IsFree;
    var c := p.chain;
    FreeNotUsed(c, end, i);
    HeadersDiffer(c, end, HDR, i, i + 1);
    WithoutIs(p.free, c[i + 1].off);
    PushIn(if c[i + 1].used then p.free else Without(p.free, c[i + 1].off), c[i].off);
  }

  // ---------- growing and shrinking in place ----------

  lemma GrownTiled(c: seq<Blk>, end: nat, i: nat, o: nat)
    requires WellFormed(c, end, HDR) && i + 2 < |c| && c[i].off + HDR <= o && o + HDR <= c[i + 2].off
    requires !c[i + 1].used
    ensures WellFormed(c[i + 1 := Blk(o, false)], end, HDR)
  {
    var d := c[i + 1 := Blk(o, false)];
    forall j, k | 0 <= j < k < |d| ensures d[j].off + HDR <= d[k].off {
      if j == i + 1 {
        assert c[i + 2].off <= c[k].off;
      } else if k == i + 1 {
        assert c[j].off <= c[i].off;
      }
    }
    forall j, k | 0 <= j && k == j + 1 && k < |d| ensures d[j].used || d[k].used {
      assert d[j].used == c[j].used && d[k].used == c[k].used;
    }
  }

  lemma FreeMove(c: seq<Blk>, end: nat, i: nat, o: nat, x: nat)
    requires Tiled(c, end, HDR) && i + 2 < |c| && !c[i + 1].used
    ensures IsFree(c[i + 1 := Blk(o, false)], x) <==> (IsFree(c, x) && x != c[i + 1].off) || x == o
  {
    var d := c[i + 1 := Blk(o, false)];
    assert d[i + 1] == Blk(o, false);
    if IsFree(c, x) && x != c[i + 1].off {
      var j :| 0 <= j < |c| && c[j] == Blk(x, false);
      assert d[j] == Blk(x, false);
    }
    if IsFree(d, x) && x != o {
      var j :| 0 <= j < |d| && d[j] == Blk(x, false);
      HeadersDiffer(c, end, HDR, i + 1, j);
      assert c[j] == Blk(x, false);
    }
  }

  lemma GrownInv(p: Pool, end: nat, i: nat, n: nat)
    requires Inv(p, end) && i + 1 < |p.chain| && p.chain[i].used
    requires CanGrow(p.chain, i, n) && n > Size(p.chain, i)
    ensures Inv(Grown(p, i, n), end)
    ensures Available(Grown(p, i, n).chain) == Available(p.chain) - (n - Size(p.chain, i))
  {
    hide Total, IsFree, Tiled, Coalesced;
    var c, o := p.chain, p.chain[i].off + HDR + n;
    GrownTiled(c, end, i, o);
    TotalMove(c, i, o, false, HDR);
    InsideIsNew(c, end, i + 1, o);
    WithoutIs(p.free, c[i + 1].off);
    PushIn(Without(p.free, c[i + 1].off), o);
    forall x ensures IsFree(Grown(p, i, n).chain, x) <==> (IsFree(c, x) && x != c[i + 1].off) || x == o {
      FreeMove(c, end, i, o, x);
    }
  }

  lemma ShrunkInv(p: Pool, end: nat, i: nat, n: nat)
    requires Inv(p, end) && i + 1 < |p.chain| && p.chain[i].used && n + HDR + MINI < Size(p.chain, i)
    ensures Inv(Shrunk(p, i, n), end)
    ensures Available(Shrunk(p, i, n).chain) == Available(p.chain)
              + (Size(p.chain, i) - n - HDR) + (if p.chain[i + 1].used then 0 else HDR)
  {
    hide Total, IsFree, Tiled, Coalesced, Split, Plug, CoalescedBut;
    var c, o := p.chain, p.chain[i].off + HDR + n;
    var d := Split(c, i, o);
    SplitReady(c, end, HDR, i, o);
    SplitIndex(c, i, o, i);
    SplitIndex(c, i, o, i + 1);
    PlugWellFormed(d, end, HDR, i + 1);
    TotalSplit(c, i, o, false, HDR);
    TotalPlug(d, end, i + 1);
    InsideIsNew(c, end, i, o);
    WithoutIs(p.free, c[i + 1].off);
    PushIn(if c[i + 1].used then p.free else Without(p.free, c[i + 1].off), o);
    forall x ensures IsFree(Plug(d, i + 1), x) <==> x in Shrunk(p, i, n).free {
      FreePlug(d, end, i + 1, x);
      FreeSplit(c, i, o, x);
    }
  }

  lemma {:induction false} FirstBigFrom(p: Pool, n: nat, from: nat, t: nat)
    requires |p.chain| > 0 && from <= t <= |p.free|
    requires forall j :: from <= j < t ==> !BigEnough(p.chain, p.free[j], n)
    requires t == |p.free| || BigEnough(p.chain, p.free[t], n)
    ensures FirstBig(p, n, from) == t
    decreases t - from
  {
    if from < t { FirstBigFrom(p, n, from + 1, t); }
  }

  lemma FirstBigIs(p: Pool, n: nat, t: nat)
    requires |p.chain| > 0 && t <= |p.free|
    requires forall j :: 0 <= j < t ==> !BigEnough(p.chain, p.free[j], n)
    requires t == |p.free| || BigEnough(p.chain, p.free[t], n)
    ensures FirstBig(p, n, 0) == t
  {
    FirstBigFrom(p, n, 0, t);
  }

  lemma HeaderFree(c: seq<Blk>, i: nat)
    requires i < |c| && !c[i].used
    ensures IsFree(c, c[i].off)
  {
    assert c[i] == Blk(c[i].off, false);
  }

  lemma HeaderInside(c: seq<Blk>, end: nat, i: nat)
    requires Tiled(c, end, HDR) && i + 1 < |c|
    ensures c[i].off + HDR <= c[i + 1].off <= end
  {
    assert c[i + 1].off <= c[|c| - 1].off;
  }

  /** Cutting first and marking second gives the same chain. */
  lemma MarkAfterSplit(c: seq<Blk>, i: nat, o: nat)
    requires i + 1 < |c|
    ensures Mark(Split(c, i, o), i, true) == Split(Mark(c, i, true), i, o)
  {
  }
}
