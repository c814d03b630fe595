/** memheap.c: all blocks of the pool form one circular doubly linked list in address order, and
    the free ones a second one in last-in first-out order.  Headers are named by their address (in
    units of four bytes); the fields of the headers are kept in one array per field, with the
    free-list header of the control block at the address just behind the pool. */
module Memheap {
  import opened BlockChain
  import opened DList
  import opened Lists
  import opened MemheapChain
  import opened MemheapTheorems

  /** The header addresses of a chain. */
  function Offs(c: seq<Blk>): seq<nat> {
    seq(|c|, i requires 0 <= i < |c| => c[i].off)
  }

  /** The free list with the free-list header in front. */
  function Listed(p: Pool, header: nat): seq<nat> {
    [header] + p.free
  }

  ghost predicate Flags(c: seq<Blk>, used: seq<bool>) {
    forall i :: 0 <= i < |c| ==> c[i].off < |used| && used[c[i].off] == c[i].used
  }

  // ---------- links of chains and of the rings that hold them ----------

  lemma OffsSplit(c: seq<Blk>, end: nat, i: nat, o: nat)
    requires Tiled(c, end, HDR) && i + 1 < |c| && c[i].off < o < c[i + 1].off
    ensures Offs(Split(c, i, o)) == InsertedAfter(Offs(c), i, o)
    ensures o !in Offs(c) && o < end
  {
    InsideIsNew(c, end, i, o);
    assert c[i + 1].off <= c[|c| - 1].off;
  }

  lemma OffsDrop(c: seq<Blk>, i: nat)
    requires i < |c|
    ensures Offs(Drop(c, i)) == Removed(Offs(c), i)
  {
  }

  lemma OffsMark(c: seq<Blk>, i: nat, used: bool)
    requires i < |c|
    ensures Offs(Mark(c, i, used)) == Offs(c)
  {
  }

  lemma FlagsDrop(c: seq<Blk>, i: nat, used: seq<bool>)
    requires Flags(c, used) && i < |c|
    ensures Flags(Drop(c, i), used)
  {
    var d := Drop(c, i);
    forall j | 0 <= j < |d| ensures d[j].off < |used| && used[d[j].off] == d[j].used {
      assert d[j] == if j < i then c[j] else c[j + 1];
    }
  }

  lemma FlagsSplit(c: seq<Blk>, i: nat, o: nat, used: seq<bool>)
    requires Flags(c, used) && i + 1 < |c| && o !in Offs(c) && o < |used|
    ensures Flags(Split(c, i, o), used[o := false])
  {
    var d, u := Split(c, i, o), used[o := false];
    forall j | 0 <= j < |d| ensures d[j].off < |u| && u[d[j].off] == d[j].used {
      if j != i + 1 {
        var k := if j <= i then j else j - 1;
        assert d[j] == c[k] && c[k].off == Offs(c)[k];
      } else {
        assert d[j] == Blk(o, false);
      }
    }
  }

  lemma FlagsMark(c: seq<Blk>, end: nat, i: nat, mark: bool, used: seq<bool>)
    requires Tiled(c, end, HDR) && Flags(c, used) && i + 1 < |c|
    ensures c[i].off < |used| && Flags(Mark(c, i, mark), used[c[i].off := mark])
  {
    var d, u := Mark(c, i, mark), used[c[i].off := mark];
    forall j | 0 <= j < |d| ensures d[j].off < |u| && u[d[j].off] == d[j].used {
      if j != i { HeadersDiffer(c, end, HDR, i, j); }
    }
  }

  lemma TwoRing(a: nat, b: nat, next: seq<nat>, prev: seq<nat>)
    requires a != b && a < |next| == |prev| && b < |next|
    requires next[a] == b && next[b] == a && prev[a] == b && prev[b] == a
    ensures Ring([a, b], next, prev)
  {
    forall t {:trigger Succ([a, b], t)} | 0 <= t < 2
      ensures next[[a, b][t]] == Succ([a, b], t) && prev[Succ([a, b], t)] == [a, b][t]
    {
    }
  }

  lemma InitialFlags(end: nat, used: seq<bool>)
    requires 0 < end < |used| && !used[0] && used[end]
    ensures Flags(Initial(end), used)
  {
  }

  lemma InitialInv(end: nat)
    requires end >= HDR
    ensures Inv(Pool(Initial(end), [0]), end) && Tiled(Initial(end), end, HDR)
  {
    assert Initial(end)[0] == Blk(0, false);
  }

  lemma RingDistinct(l: seq<nat>, next: seq<nat>, prev: seq<nat>, free: seq<nat>, header: nat)
    requires Ring(l, next, prev) && l == [header] + free
    ensures Distinct(free)
  {
    forall i, j | 0 <= i < j < |free| ensures free[i] != free[j] {
      assert l[i + 1] == free[i] && l[j + 1] == free[j];
    }
  }

  /** In the ring of the free list, the header of the list comes back only at the end. */
  lemma NotHeader(l: seq<nat>, next: seq<nat>, prev: seq<nat>, free: seq<nat>, header: nat, t: nat)
    requires Ring(l, next, prev) && l == [header] + free && t <= |free|
    ensures Succ(l, t) == header <==> t == |free|
    ensures t < |free| ==> Succ(l, t) == free[t]
  {
    if t < |free| { assert l[t + 1] != l[0]; }
  }

  lemma NonEmpty(c: seq<Blk>, end: nat)
    requires Tiled(c, end, HDR)
    ensures |c| > 0
  {
  }

  lemma MarkSteps(c: seq<Blk>, i: nat)
    requires i + 1 < |c|
    ensures |Mark(c, i, false)| == |c| && Mark(c, i, false)[i] == Blk(c[i].off, false)
    ensures Mark(c, i, false)[i + 1] == c[i + 1]
    ensures i > 0 ==> Mark(c, i, false)[i - 1] == c[i - 1]
  {
  }

  lemma PlugNoLeft(c: seq<Blk>, i: nat)
    requires i + 1 < |c| && (i > 0 ==> c[i - 1].used)
    ensures Plug(c, i) == JoinRight(c, i)
  {
    assert i > 0 ==> JoinRight(c, i)[i - 1] == c[i - 1];
  }

  /** What the code sees of the neighbours of header `i` in the ring of blocks; the block before
      the first one is the tailer, which is used. */
  lemma ReadNeighbours(c: seq<Blk>, end: nat, next: seq<nat>, prev: seq<nat>, used: seq<bool>, i: nat)
    requires Tiled(c, end, HDR) && Ring(Offs(c), next, prev) && Flags(c, used) && |used| == |next|
    requires i + 1 < |c|
    ensures c[i].off < |next| && next[c[i].off] == c[i + 1].off < |used| && prev[c[i].off] < |used|
    ensures used[next[c[i].off]] == c[i + 1].used
    ensures used[prev[c[i].off]] == (i == 0 || c[i - 1].used)
    ensures i > 0 ==> prev[c[i].off] == c[i - 1].off
    ensures i + 2 == |c| ==> c[i + 1].used
  {
    ReadLinks(Offs(c), next, prev, i);
  }

  lemma RightFree(p: Pool, end: nat, i: nat)
    requires Inv(p, end) && i + 1 < |p.chain| && !p.chain[i + 1].used
    ensures p.chain[i + 1].off in p.free
  {
    HeaderFree(p.chain, i + 1);
  }

  lemma NotLast(c: seq<Blk>, end: nat, i: nat)
    requires Tiled(c, end, HDR) && i < |c| && !c[i].used
    ensures i + 1 < |c|
  {
  }

  /** The `len` words at `src` before are the `len` words at `dst` after. */
  predicate Copied(w: seq<nat>, src: nat, w': seq<nat>, dst: nat, len: int) {
    0 <= len && src + len <= |w| && dst + len <= |w'| && w[src..src + len] == w'[dst..dst + len]
  }

  /** No word of a live block other than the one at `except` has changed. */
  ghost predicate DataKept(c: seq<Blk>, w: seq<nat>, w': seq<nat>, except: nat) {
    |w| == |w'| &&
    forall j, a :: PayloadWord(c, j, a, except) && 0 <= a < |w| ==> w[a] == w'[a]
  }

  ghost predicate PayloadWord(c: seq<Blk>, j: int, a: int, except: nat) {
    0 <= j && j + 1 < |c| && c[j].used && c[j].off + HDR != except && c[j].off + HDR <= a < c[j + 1].off
  }

  /** The fields of a header: magic (the used bit), next, prev, next_free, prev_free.  A header at address `x`
      takes the words from `x` to x + HDR - 1. */
  datatype Header = Header(used: bool, next: nat, prev: nat, nextFree: nat, prevFree: nat)

  function Packed(n: nat, used: seq<bool>, next: seq<nat>, prev: seq<nat>, nextFree: seq<nat>,
                  prevFree: seq<nat>): (h: seq<Header>)
    requires n <= |used| && n <= |next| && n <= |prev| && n <= |nextFree| && n <= |prevFree|
    ensures |h| == n && forall x :: 0 <= x < n ==> h[x] == Header(used[x], next[x], prev[x], nextFree[x], prevFree[x])
  {
    seq(n, x requires 0 <= x < n => Header(used[x], next[x], prev[x], nextFree[x], prevFree[x]))
  }

  /** A header at `x` would overlap the payload of a live block other than the one at `except`. */
  ghost predicate Overlaps(c: seq<Blk>, x: int, except: nat) {
    exists j :: Covers(c, j, x, except)
  }

  ghost predicate Covers(c: seq<Blk>, j: int, x: int, except: nat) {
    0 <= j && j + 1 < |c| && c[j].used && c[j].off + HDR != except && c[j].off < x < c[j + 1].off
  }

  /** No word of such a payload has been written through a header. */
  ghost predicate HeadersKept(c: seq<Blk>, h: seq<Header>, h': seq<Header>, except: nat) {
    |h| == |h'| && forall x :: 0 <= x < |h| && Overlaps(c, x, except) ==> h'[x] == h[x]
  }

  /** The header of a block overlaps no payload, and neither does one that lies in a free block or in the block
      that is excepted. */
  lemma HeaderOutside(c: seq<Blk>, end: nat, i: nat, x: nat, except: nat)
    requires Tiled(c, end, HDR) && i < |c|
    requires x == c[i].off || (i + 1 < |c| && c[i].off <= x < c[i + 1].off && (!c[i].used || c[i].off + HDR == except))
    ensures !Overlaps(c, x, except)
  {
    forall j ensures !Covers(c, j, x, except) {
      if 0 <= j && j + 1 < |c| {
        if j < i { assert c[j + 1].off <= c[i].off; }
        if i < j { assert i + 1 < |c| && c[i + 1].off <= c[j].off; }
      }
    }
  }

  /** The header that moves up when block `i` grows lies in the free block behind it, or in the block. */
  lemma GrownOutside(c: seq<Blk>, end: nat, i: nat, x: nat)
    requires Tiled(c, end, HDR) && i + 2 < |c| && c[i].used && !c[i + 1].used && c[i].off <= x < c[i + 2].off
    ensures !Overlaps(c, x, c[i].off + HDR)
  {
    HeaderOutside(c, end, if x < c[i + 1].off then i else i + 1, x, c[i].off + HDR);
  }

  /** A live block overlaps the same addresses after an allocation. */
  lemma OverlapsAfterAlloc(p: Pool, end: nat, size: nat, x: int, except: nat)
    requires Inv(p, end) && Overlaps(p.chain, x, except)
    ensures Overlaps(AllocSpec(p, size).0.chain, x, except) && Overlaps(p.chain, x, 0)
  {
    var c, d := p.chain, AllocSpec(p, size).0.chain;
    var j :| Covers(c, j, x, except);
    assert Covers(c, j, x, 0);
    var addr, len := c[j].off + HDR, c[j + 1].off - (c[j].off + HDR);
    assert BlockAt(c, j, addr, len, HDR);
    AllocStep(p, end, size, addr, len);
    var i :| BlockAt(d, i, addr, len, HDR);
    assert Covers(d, i, x, except);
  }

  lemma HeadersKeptTwice(p: Pool, end: nat, size: nat, h: seq<Header>, h': seq<Header>, h'': seq<Header>, except: nat)
    requires Inv(p, end) && HeadersKept(p.chain, h, h', 0)
    requires h'' == h' || HeadersKept(AllocSpec(p, size).0.chain, h', h'', except)
    ensures HeadersKept(p.chain, h, h'', except)
  {
    hide Inv, Overlaps, AllocSpec;
    forall x | 0 <= x < |h| && Overlaps(p.chain, x, except) ensures h''[x] == h[x] {
      OverlapsAfterAlloc(p, end, size, x, except);
    }
  }

  lemma HeadersSame(c: seq<Blk>, h: seq<Header>, except: nat)
    ensures HeadersKept(c, h, h, except)
  {
  }

  lemma FreeOutside(p: Pool, end: nat, x: nat, except: nat)
    requires Inv(p, end) && x in p.free
    ensures !Overlaps(p.chain, x, except)
  {
    var i := FreeIndex(p.chain, end, x);
    HeaderOutside(p.chain, end, i, x, except);
  }

  lemma DropKeeps(c: seq<Blk>, i: nat)
    requires 0 < i && i + 1 < |c|
    ensures |Drop(c, i)| == |c| - 1 && Drop(c, i)[i - 1] == c[i - 1] && Drop(c, i)[i] == c[i + 1]
  {
  }

  /** Unlinking the free right neighbour and linking a new header moves the boundary. */
  lemma SplitAfterDrop(c: seq<Blk>, i: nat, o: nat)
    requires i + 2 < |c|
    ensures Split(Drop(c, i + 1), i, o) == c[i + 1 := Blk(o, false)]
  {
  }

  /** The block that rt_memheap_realloc moves to is apart from the one it moves from. */
  lemma MoveTarget(p: Pool, end: nat, k: nat, n: nat, i: nat)
    requires Inv(p, end) && k + 1 < |p.chain| && !p.chain[k].used && Size(p.chain, k) >= n
    requires i + 1 < |p.chain| && p.chain[i].used
    ensures p.chain[i].off + HDR + Size(p.chain, i) <= end
    ensures p.chain[k].off + HDR + n <= end
    ensures p.chain[i].off + HDR + Size(p.chain, i) <= p.chain[k].off || p.chain[k].off + HDR + n <= p.chain[i].off
  {
    HeaderInside(p.chain, end, i);
    HeaderInside(p.chain, end, k);
  }

  /** Writes into a block that was free touch no word of a live block. */
  lemma KeptBy(p: Pool, end: nat, k: nat, n: nat, dst: nat, len: nat, w: seq<nat>, w': seq<nat>, except: nat)
    requires Inv(p, end) && k + 1 < |p.chain| && !p.chain[k].used && Size(p.chain, k) >= n >= len
    requires dst == p.chain[k].off + HDR && |w| == |w'|
    requires forall a :: 0 <= a < |w| && !(dst <= a < dst + len) ==> w'[a] == w[a]
    ensures DataKept(p.chain, w, w', except)
  {
    var c := p.chain;
    forall j, a | PayloadWord(c, j, a, except) && 0 <= a < |w| ensures w[a] == w'[a] {
      if j < k {
        assert c[j + 1].off <= c[k].off;
      } else {
        assert j != k && c[k + 1].off <= c[j].off;
      }
    }
  }

  lemma ListedAt(p: Pool, header: nat, x: nat) returns (t: nat)
    requires Distinct(p.free) && x in p.free
    ensures 0 < t < |Listed(p, header)| && Listed(p, header)[t] == x
    ensures Removed(Listed(p, header), t) == Listed(Pool(p.chain, Without(p.free, x)), header)
  {
    var s :| 0 <= s < |p.free| && p.free[s] == x;
    WithoutPlace(p.free, s);
    t := s + 1;
    assert Removed(Listed(p, header), t) == [header] + Removed(p.free, s);
  }

  /** The link fields of two headers that follow each other in a ring. */
  method TwoHeaders(length: nat, a: nat, b: nat) returns (next: array<nat>, prev: array<nat>)
    requires a != b && a < length && b < length
    ensures fresh(next) && fresh(prev) && next != prev && next.Length == prev.Length == length
    ensures Ring([a, b], next[..], prev[..])
  {
    next, prev := new nat[length], new nat[length];
    next[a], prev[a] := b, b;
    next[b], prev[b] := a, a;
    TwoRing(a, b, next[..], prev[..]);
  }

  /** A new header inside block `i` is not in the free list. */
  lemma NotListed(p: Pool, end: nat, i: nat, o: nat)
    requires Inv(p, end) && i + 1 < |p.chain| && p.chain[i].off < o < p.chain[i + 1].off
    ensures o !in p.free && o !in Without(p.free, p.chain[i + 1].off)
  {
    InsideIsNew(p.chain, end, i, o);
    WithoutIs(p.free, p.chain[i + 1].off);
  }

  class Heap {
    /** pool_size; also the address under which the free-list header is known. */
    const poolSize: nat
    /** magic: the used bit */
    const used: array<bool>
    const next: array<nat>
    const prev: array<nat>
    const nextFree: array<nat>
    const prevFree: array<nat>
    const data: array<nat>
    var availableSize: int
    var maxUsedSize: int
    ghost var pool: Pool
    /** The addresses where no header may be written in the operation under way, and the fields that were
        there when it began. */
    ghost var guarded: set<nat>
    ghost var before: seq<Header>

    ghost function HeaderAt(x: nat): Header
      requires used.Length == next.Length == prev.Length == nextFree.Length == prevFree.Length == poolSize + 1
      requires x <= poolSize
      reads used, next, prev, nextFree, prevFree
    {
      Header(used[x], next[x], prev[x], nextFree[x], prevFree[x])
    }

    ghost function Headers(): seq<Header>
      requires used.Length == next.Length == prev.Length == nextFree.Length == prevFree.Length == poolSize + 1
      reads used, next, prev, nextFree, prevFree
    {
      Packed(poolSize, used[..], next[..], prev[..], nextFree[..], prevFree[..])
    }

    /** All headers lie outside, and what lies inside is as it was. */
    ghost predicate Guard()
      reads this`guarded, this`before, this`pool, used, next, prev, nextFree, prevFree
    {
      && used.Length == next.Length == prev.Length == nextFree.Length == prevFree.Length == poolSize + 1 == |before| + 1
      && (forall x :: x in Offs(pool.chain) ==> x !in guarded)
      && (forall x :: x in pool.free ==> x !in guarded)
      && (forall x :: x in guarded ==> x < poolSize && HeaderAt(x) == before[x])
    }

    /** Both rings and the used bits show `pool`. */
    ghost predicate Shows()
      reads this, used, next, prev, nextFree, prevFree
    {
      && next != prev && next != nextFree && next != prevFree && prev != nextFree && prev != prevFree
      && nextFree != prevFree && data != next && data != prev && data != nextFree && data != prevFree
      && poolSize >= 2 * HDR
      && used.Length == next.Length == prev.Length == nextFree.Length == prevFree.Length == poolSize + 1
      && data.Length == poolSize
      && Tiled(pool.chain, poolSize - HDR, HDR)
      && Ring(Offs(pool.chain), next[..], prev[..])
      && Ring(Listed(pool, poolSize), nextFree[..], prevFree[..])
      && Flags(pool.chain, used[..])
      && Guard()
    }

    ghost predicate Valid()
      reads this, used, next, prev, nextFree, prevFree
    {
      && Shows() && Inv(pool, poolSize - HDR)
      && availableSize == Available(pool.chain)
    }

    /** rt_memheap_init */
    constructor (poolSize: nat)
      requires poolSize >= 2 * HDR
      ensures Valid() && this.poolSize == poolSize
      ensures fresh(used) && fresh(next) && fresh(prev) && fresh(nextFree) && fresh(prevFree) && fresh(data)
      ensures pool == Pool(Initial(poolSize - HDR), [0])
      ensures availableSize == poolSize - 2 * HDR && maxUsedSize == 2 * HDR
    {
      this.poolSize := poolSize;
      var tail := poolSize - HDR;
      var u := new bool[poolSize + 1];
      u[0], u[tail] := false, true;
      var n, p := TwoHeaders(poolSize + 1, 0, tail);
      var nf, pf := TwoHeaders(poolSize + 1, poolSize, 0);
      used, next, prev, nextFree, prevFree := u, n, p, nf, pf;
      data := new nat[poolSize];
      availableSize := poolSize - 2 * HDR;
      maxUsedSize := 2 * HDR;
      pool := Pool(Initial(tail), [0]);
      guarded, before := {}, seq(poolSize, _ => Header(false, 0, 0, 0, 0));
      new;
      hide Ring, Inv, Tiled, Flags, Distinct, Available;
      InitialTotals(tail, HDR);
      InitialInv(tail);
      assert Offs(pool.chain) == [0, tail];
      InitialFlags(tail, used[..]);
      assert Listed(pool, poolSize) == [poolSize, 0];
    }

    /** An operation on the block at `except`, if any, begins. */
    ghost method Protect(except: nat)
      requires Valid()
      modifies this`guarded, this`before
      ensures Valid() && Protected(pool.chain, except) && before == Headers()
    {
      hide Ring, Flags, Coalesced, Distinct, Total;
      forall x | x in Offs(pool.chain) ensures !Overlaps(pool.chain, x, except) {
        var i :| 0 <= i < |pool.chain| && Offs(pool.chain)[i] == x;
        HeaderOutside(pool.chain, poolSize - HDR, i, x, except);
      }
      forall x | x in pool.free ensures !Overlaps(pool.chain, x, except) {
        FreeOutside(pool, poolSize - HDR, x, except);
      }
      guarded := set x: nat | x < poolSize && Overlaps(pool.chain, x, except);
      before := Headers();
    }

    /** What Guard says at the end of the operation. */
    lemma Guarded(c: seq<Blk>, h: seq<Header>, except: nat)
      requires Guard() && Protected(c, except) && before == h
      ensures HeadersKept(c, h, Headers(), except)
    {
    }

    ghost predicate Protected(c: seq<Blk>, except: nat)
      reads this`guarded
    {
      forall x: nat :: x in guarded <==> x < poolSize && Overlaps(c, x, except)
    }

    /** Take `x` off the free list. */
    method Unlist(x: nat)
      requires Shows() && x in pool.free
      modifies nextFree, prevFree, this`pool
      ensures Shows() && pool == Pool(old(pool).chain, Without(old(pool).free, x))
      ensures x !in pool.free
    {
      hide Ring, Tiled, Flags, Distinct;
      ghost var l := Listed(pool, poolSize);
      RingDistinct(l, nextFree[..], prevFree[..], pool.free, poolSize);
      WithoutIs(pool.free, x);
      ghost var t := ListedAt(pool, poolSize, x);
      Unlink(nextFree, prevFree, x, l, t);
      pool := Pool(pool.chain, Without(pool.free, x));
    }

    /** Insert `x` at the head of the free list. */
    method Enlist(x: nat)
      requires Shows() && x !in pool.free && x < poolSize && x !in guarded
      modifies nextFree, prevFree, this`pool
      ensures Shows() && pool == Pool(old(pool).chain, [x] + old(pool).free)
    {
      hide Ring, Tiled, Flags, Distinct;
      ghost var l := Listed(pool, poolSize);
      assert l[0] == poolSize;
      LinkAfter(nextFree, prevFree, poolSize, x, l, 0);
      pool := Pool(pool.chain, [x] + pool.free);
      assert InsertedAfter(l, 0, x) == Listed(pool, poolSize);
    }

    /** Write a free header at `x` and link it behind the header `at`. */
    method InsertBlock(at: nat, x: nat, ghost i: nat)
      requires Shows() && i + 1 < |pool.chain| && pool.chain[i].off == at
      requires at + HDR <= x && x + HDR <= pool.chain[i + 1].off && x !in guarded
      modifies used, next, prev, this`pool
      ensures Shows() && pool == Pool(Split(old(pool).chain, i, x), old(pool).free)
    {
      hide Ring, Tiled, Flags, Distinct, Split;
      ghost var c, u := pool.chain, used[..];
      OffsSplit(c, poolSize - HDR, i, x);
      SplitTiled(c, poolSize - HDR, HDR, i, x);
      FlagsSplit(c, i, x, u);
      assert at in Offs(c) && Succ(Offs(c), i) in Offs(c) by { assert Offs(c)[i] == at; }
      used[x] := false;
      assert used[..] == u[x := false];
      LinkAfter(next, prev, at, x, Offs(c), i);
      pool := Pool(Split(c, i, x), pool.free);
      InsertedIn(Offs(c), i, x);
    }

    /** Unlink the header `x` from the ring of blocks: its space belongs to the block before it. */
    method RemoveBlock(x: nat, ghost i: nat)
      requires Shows() && 0 < i && i + 1 < |pool.chain| && pool.chain[i].off == x
      modifies next, prev, this`pool
      ensures Shows() && pool == Pool(Drop(old(pool).chain, i), old(pool).free)
      ensures next[x] == old(next[x]) && prev[x] == old(prev[x])
    {
      hide Tiled, Flags;
      ghost var c := pool.chain;
      OffsDrop(c, i);
      DropTiled(c, poolSize - HDR, HDR, i);
      FlagsDrop(c, i, used[..]);
      ReadLinks(Offs(c), next[..], prev[..], i);
      Unlink(next, prev, x, Offs(c), i);
      pool := Pool(Drop(c, i), pool.free);
    }

    /** Write the used bit of the header `x`. */
    method SetUsed(x: nat, mark: bool, ghost i: nat)
      requires Shows() && i + 1 < |pool.chain| && pool.chain[i].off == x
      modifies used, this`pool
      ensures Shows() && pool == Pool(Mark(old(pool).chain, i, mark), old(pool).free)
    {
      hide Ring, Tiled, Flags, Mark;
      ghost var c, u := pool.chain, used[..];
      assert x in Offs(c) by { assert Offs(c)[i] == x; }
      OffsMark(c, i, mark);
      MarkTiled(c, poolSize - HDR, HDR, i, mark);
      FlagsMark(c, poolSize - HDR, i, mark, u);
      used[x] := mark;
      assert used[..] == u[x := mark];
      pool := Pool(Mark(c, i, mark), pool.free);
    }

    /** rt_memheap_alloc */
    method Alloc(size: nat) returns (r: Ptr)
      requires Valid()
      modifies this, used, next, prev, nextFree, prevFree
      ensures Valid() && (pool, r) == AllocSpec(old(pool), size)
      ensures maxUsedSize == MaxAfterAlloc(old(pool), poolSize - HDR, size, old(maxUsedSize))
      ensures HeadersKept(old(pool).chain, old(Headers()), Headers(), 0)
    {
      hide Ring, Tiled, Flags, Coalesced, Distinct, Overlaps;
      var n := Request(size);
      Protect(0);
      if n < availableSize {
        var header, found := Search(n);
        if found {
          ghost var k := FoundBlock(pool, poolSize - HDR, n);
          Take(header, n, k);
          return At(header + HDR);
        }
      }
      return Null;
    }

    /** The loop of rt_memheap_alloc over the free list. */
    method Search(n: nat) returns (header: nat, found: bool)
      requires Valid() && n > 0
      ensures var t := FirstBig(pool, n, 0);
              if found then t < |pool.free| && header == pool.free[t] else t == |pool.free|
    {
      hide Ring, Tiled, Flags, Coalesced, Distinct, IsFree, Total;
      ghost var l, t := Listed(pool, poolSize), 0;
      NonEmpty(pool.chain, poolSize - HDR);
      ReadLinks(l, nextFree[..], prevFree[..], 0);
      var freeSize: int := 0;
      header := nextFree[poolSize];
      while header != poolSize && freeSize < n
        invariant t <= |pool.free| && header == Succ(l, t)
        invariant forall j :: 0 <= j < t ==> !BigEnough(pool.chain, pool.free[j], n)
        invariant freeSize >= n ==> t < |pool.free| && BigEnough(pool.chain, pool.free[t], n)
        decreases |pool.free| - t, if freeSize < n then 1 else 0
      {
        NotHeader(l, nextFree[..], prevFree[..], pool.free, poolSize, t);
        assert header == pool.free[t];
        assert header in pool.free;
        ghost var i := FreeIndex(pool.chain, poolSize - HDR, header);
        ReadLinks(Offs(pool.chain), next[..], prev[..], i);
        ReadLinks(l, nextFree[..], prevFree[..], t + 1);
        freeSize := next[header] - header - HDR;
        if freeSize < n {
          header := nextFree[header];
          t := t + 1;
        }
      }
      found := freeSize >= n;
      if !found { NotHeader(l, nextFree[..], prevFree[..], pool.free, poolSize, t); }
      FirstBigIs(pool, n, t);
    }

    /** What rt_memheap_alloc does with the block it has found. */
    method Take(header: nat, n: nat, ghost k: nat)
      requires Valid() && k + 1 < |pool.chain| && pool.chain[k] == Blk(header, false) && Size(pool.chain, k) >= n
      requires Protected(pool.chain, 0)
      modifies this`availableSize, this`maxUsedSize, this`pool, used, next, prev, nextFree, prevFree
      ensures Valid() && pool == TakeBlock(old(pool), k, n)
      ensures maxUsedSize == if poolSize - availableSize > old(maxUsedSize) then poolSize - availableSize
              else old(maxUsedSize)
    {
      hide Ring, Tiled, Flags, Coalesced, Distinct, Mark, Split, IsFree;
      ghost var p := pool;
      assert IsFree(p.chain, header) by { HeaderFree(p.chain, k); }
      TakeInv(p, poolSize - HDR, k, n);
      ReadLinks(Offs(p.chain), next[..], prev[..], k);
      var freeSize := next[header] - header - HDR;
      if freeSize >= n + HDR + MINI {
        var rest := header + n + HDR;
        InsideIsNew(p.chain, poolSize - HDR, k, rest);
        HeaderOutside(p.chain, poolSize - HDR, k, rest, 0);
        SplitIndex(p.chain, k, rest, k);
        InsertBlock(header, rest, k);
        Unlist(header);
        WithoutIs(p.free, header);
        HeaderInside(p.chain, poolSize - HDR, k);
        Enlist(rest);
        availableSize := availableSize - n - HDR;
        if poolSize - availableSize > maxUsedSize { maxUsedSize := poolSize - availableSize; }
        MarkAfterSplit(p.chain, k, rest);
      } else {
        availableSize := availableSize - freeSize;
        if poolSize - availableSize > maxUsedSize { maxUsedSize := poolSize - availableSize; }
        Unlist(header);
      }
      SetUsed(header, true, k);
    }

    /** rt_memheap_free */
    method Free(q: Ptr)
      requires Valid() && |pool.chain| > 0 && (q.At? ==> Live(pool.chain, q.addr))
      modifies this`availableSize, this`pool, this`guarded, this`before, used, next, prev, nextFree, prevFree
      ensures Valid() && pool == FreeSpec(old(pool), q)
      ensures HeadersKept(old(pool).chain, old(Headers()), Headers(), if q.At? then q.addr else 0)
    {
      hide Ring, Tiled, Flags, Coalesced, Distinct, Plug, Release, Mark, IsFree, Total, Overlaps;
      if q.Null? { return; }
      Protect(q.addr);
      ghost var p, i := pool, IndexOf(pool.chain, q.addr - HDR, 0);
      var header := q.addr - HDR;
      ReleaseInv(p, poolSize - HDR, i);
      ReadLinks(Offs(p.chain), next[..], prev[..], i);
      availableSize := availableSize + (next[header] - header - HDR);
      SetUsed(header, false, i);
      MarkSteps(p.chain, i);
      Merge(header, i, p);
    }

    /** The merging part of rt_memheap_free, on the block `i` that was just marked as freed. */
    method Merge(header: nat, ghost i: nat, ghost p: Pool)
      requires Shows() && Inv(p, poolSize - HDR)
      requires i + 1 < |p.chain| && p.chain[i] == Blk(header, true)
      requires pool == Pool(Mark(p.chain, i, false), p.free)
      modifies this`availableSize, this`pool, next, prev, nextFree, prevFree
      ensures Shows() && pool == ReleaseBlock(p, i)
      ensures availableSize == old(availableSize)
                + (if p.chain[i + 1].used then 0 else HDR) + (if i > 0 && !p.chain[i - 1].used then HDR else 0)
    {
      hide Ring, Tiled, Flags, Coalesced, Distinct, Plug, Mark, IsFree, Total, Drop;
      var h, insert := header, true;
      ghost var j := i;
      ghost var m := pool.chain;
      OffsMark(p.chain, i, false);
      assert Offs(p.chain)[i] == header;
      MarkSteps(p.chain, i);
      ReadNeighbours(m, poolSize - HDR, next[..], prev[..], used[..], i);
      if !used[prev[h]] {
        availableSize := availableSize + HDR;
        LeftThenRight(m, i);
        RemoveBlock(h, i);
        h := prev[h];
        insert := false;
        j := i - 1;
      } else {
        PlugNoLeft(m, i);
      }
      ghost var d := pool.chain;
      ReadNeighbours(d, poolSize - HDR, next[..], prev[..], used[..], j);
      if !used[next[h]] {
        availableSize := availableSize + HDR;
        var right := next[h];
        RightFree(p, poolSize - HDR, i);
        RemoveBlock(right, j + 1);
        Unlist(right);
      }
      if insert {
        FreeNotUsed(p.chain, poolSize - HDR, i);
        HeaderInside(p.chain, poolSize - HDR, i);
        WithoutIs(p.free, p.chain[i + 1].off);
        Enlist(h);
      }
    }

    /** rt_memheap_realloc.  The first min(old, new) words of the block survive, whether it grows or
        shrinks in place or moves; no word of another live block changes; a failed request leaves
        the heap as it was. */
    method Realloc(q: Ptr, newsize: nat) returns (r: Ptr)
      requires Valid() && |pool.chain| > 0 && (q.At? ==> Live(pool.chain, q.addr))
      modifies this, used, next, prev, nextFree, prevFree, data
      ensures Valid() && (pool, r) == ReallocSpec(old(pool), poolSize - HDR, q, newsize)
      ensures maxUsedSize == MaxAfter(old(pool), poolSize - HDR, q, newsize, old(maxUsedSize))
      ensures DataKept(old(pool).chain, old(data[..]), data[..], if q.At? then q.addr else 0)
      ensures HeadersKept(old(pool).chain, old(Headers()), Headers(), if q.At? then q.addr else 0)
      ensures q.At? && r.At? ==>
                var len := Least(Size(old(pool).chain, IndexOf(old(pool).chain, q.addr - HDR, 0)), Request(newsize));
                Copied(old(data[..]), q.addr, data[..], r.addr, len)
      ensures r.Null? && newsize != 0 ==> pool == old(pool) && data[..] == old(data[..])
    {
      hide Ring, Tiled, Flags, Coalesced, Distinct, Plug, Release, Mark, Split, IsFree, Total, TakeBlock, Headers;
      if newsize == 0 {
        Free(q);
        return Null;
      }
      var n := Request(newsize);
      if q.Null? {
        r := Alloc(4 * n);
        return;
      }
      r := Resize(q, newsize, n);
    }

    /** rt_memheap_realloc of a live block to a size other than 0. */
    method Resize(q: Ptr, newsize: nat, n: nat) returns (r: Ptr)
      requires Valid() && |pool.chain| > 0 && q.At? && Live(pool.chain, q.addr) && newsize > 0
      requires n == Request(newsize) && MINI <= n < TWO_32 / 4
      modifies this, used, next, prev, nextFree, prevFree, data
      ensures Valid() && (pool, r) == ReallocSpec(old(pool), poolSize - HDR, q, newsize)
      ensures maxUsedSize == MaxAfter(old(pool), poolSize - HDR, q, newsize, old(maxUsedSize))
      ensures DataKept(old(pool).chain, old(data[..]), data[..], q.addr)
      ensures HeadersKept(old(pool).chain, old(Headers()), Headers(), q.addr)
      ensures r.At? ==>
                Copied(old(data[..]), q.addr, data[..], r.addr,
                    Least(Size(old(pool).chain, IndexOf(old(pool).chain, q.addr - HDR, 0)), n))
      ensures r.Null? ==> pool == old(pool) && data[..] == old(data[..])
    {
      hide Ring, Tiled, Flags, Coalesced, Distinct, Plug, Release, Mark, Split, IsFree, Total, TakeBlock, Request;
      ghost var i := IndexOf(pool.chain, q.addr - HDR, 0);
      var header := q.addr - HDR;
      var oldsize, room := RoomBehind(header, n, i);
      ghost var c, h := pool.chain, Headers();
      hide HeadersKept, Guard, DataKept, Copied, CanGrow, AllocSpec, FreeSpec, Shrunk, Grown, InUse, Available, Inv;
      if n > oldsize {
        if !room {
          r := Move(q, oldsize, n, i);
          return;
        }
        GrowInPlace(header, n, i);
      } else if n + HDR + MINI < oldsize {
        ShrinkInPlace(header, n, i);
      } else {
        HeadersSame(c, h, q.addr);
      }
      WordsSame(c, data[..], q.addr, oldsize);
      r := q;
    }

    method GrowInPlace(header: nat, n: nat, ghost i: nat)
      requires Valid() && i + 1 < |pool.chain| && pool.chain[i] == Blk(header, true)
      requires CanGrow(pool.chain, i, n) && n > Size(pool.chain, i)
      modifies this, used, next, prev, nextFree, prevFree
      ensures Valid() && pool == Grown(old(pool), i, n)
      ensures maxUsedSize == Larger(old(maxUsedSize), InUse(pool, poolSize - HDR))
      ensures HeadersKept(old(pool).chain, old(Headers()), Headers(), header + HDR)
    {
      ghost var c, h := pool.chain, Headers();
      hide Inv, HeadersKept, CanGrow, Grown, Available, Guard;
      Protect(header + HDR);
      Grow(header, n, i);
      Guarded(c, h, header + HDR);
    }

    method ShrinkInPlace(header: nat, n: nat, ghost i: nat)
      requires Valid() && i + 1 < |pool.chain| && pool.chain[i] == Blk(header, true)
      requires n + HDR + MINI < Size(pool.chain, i)
      modifies this`availableSize, this`pool, this`guarded, this`before, used, next, prev, nextFree, prevFree
      ensures Valid() && pool == Shrunk(old(pool), i, n)
      ensures HeadersKept(old(pool).chain, old(Headers()), Headers(), header + HDR)
    {
      ghost var c, h := pool.chain, Headers();
      hide Inv, HeadersKept, Shrunk, Available, Guard;
      Protect(header + HDR);
      Shrink(header, n, i);
      Guarded(c, h, header + HDR);
    }

    lemma WordsSame(c: seq<Blk>, w: seq<nat>, addr: nat, len: nat)
      requires addr + len <= |w|
      ensures DataKept(c, w, w, addr) && forall k :: 0 <= k <= len ==> Copied(w, addr, w, addr, k)
    {
    }

    /** The size of a block, and whether the block behind it is free and has room for the growth. */
    method RoomBehind(header: nat, n: nat, ghost i: nat) returns (oldsize: nat, room: bool)
      requires Valid() && i + 1 < |pool.chain| && pool.chain[i] == Blk(header, true)
      ensures oldsize == Size(pool.chain, i) && room == CanGrow(pool.chain, i, n)
      ensures header + HDR + oldsize <= data.Length
    {
      hide Ring, Flags, Coalesced, Distinct, IsFree, Total;
      HeaderInside(pool.chain, poolSize - HDR, i);
      ReadNeighbours(pool.chain, poolSize - HDR, next[..], prev[..], used[..], i);
      var right := next[header];
      oldsize := right - header - HDR;
      if used[right] { return oldsize, false; }
      NotLast(pool.chain, poolSize - HDR, i + 1);
      ReadNeighbours(pool.chain, poolSize - HDR, next[..], prev[..], used[..], i + 1);
      var nextsize := next[right] - right - HDR;
      room := nextsize + oldsize > n + MINI;
    }

    /** rt_memheap_realloc, growing into the free block behind. */
    method Grow(header: nat, n: nat, ghost i: nat)
      requires Valid() && i + 1 < |pool.chain| && pool.chain[i] == Blk(header, true)
      requires CanGrow(pool.chain, i, n) && n > Size(pool.chain, i) && Protected(pool.chain, header + HDR)
      modifies this`availableSize, this`maxUsedSize, this`pool, used, next, prev, nextFree, prevFree
      ensures Valid() && pool == Grown(old(pool), i, n)
      ensures maxUsedSize == Larger(old(maxUsedSize), poolSize - availableSize)
    {
      hide Ring, Tiled, Flags, Coalesced, Distinct, Drop, Split, IsFree, Total;
      ghost var p, c := pool, pool.chain;
      GrownInv(p, poolSize - HDR, i, n);
      ReadNeighbours(c, poolSize - HDR, next[..], prev[..], used[..], i);
      var oldsize := next[header] - header - HDR;
      var right := next[header];
      availableSize := availableSize - (n - oldsize);
      if poolSize - availableSize > maxUsedSize { maxUsedSize := poolSize - availableSize; }
      RightFree(p, poolSize - HDR, i);
      Unlist(right);
      RemoveBlock(right, i + 1);
      var moved := header + HDR + n;
      DropKeeps(c, i + 1);
      GrownOutside(c, poolSize - HDR, i, moved);
      InsertBlock(header, moved, i);
      SplitAfterDrop(c, i, moved);
      InsideIsNew(c, poolSize - HDR, i + 1, moved);
      WithoutIs(p.free, right);
      HeaderInside(c, poolSize - HDR, i + 1);
      Enlist(moved);
    }

    /** rt_memheap_realloc, splitting the block. */
    method Shrink(header: nat, n: nat, ghost i: nat)
      requires Valid() && i + 1 < |pool.chain| && pool.chain[i] == Blk(header, true)
      requires n + HDR + MINI < Size(pool.chain, i) && Protected(pool.chain, header + HDR)
      modifies this`availableSize, this`pool, used, next, prev, nextFree, prevFree
      ensures Valid() && pool == Shrunk(old(pool), i, n)
    {
      hide Ring, Tiled, Flags, Coalesced, Distinct, Drop, Split, Plug, IsFree, Total, Inv, Available;
      ghost var p, c := pool, pool.chain;
      var rest := header + n + HDR;
      ShrunkInv(p, poolSize - HDR, i, n);
      NotListed(p, poolSize - HDR, i, rest);
      HeaderInside(c, poolSize - HDR, i);
      HeaderOutside(c, poolSize - HDR, i, rest, header + HDR);
      InsertBlock(header, rest, i);
      SplitIndex(c, i, rest, i);
      SplitIndex(c, i, rest, i + 1);
      ghost var d := pool.chain;
      PlugNoLeft(d, i + 1);
      ReadNeighbours(d, poolSize - HDR, next[..], prev[..], used[..], i + 1);
      if !used[next[rest]] {
        RightFree(p, poolSize - HDR, i);
        NotLast(d, poolSize - HDR, i + 2);
        DropKeeps(d, i + 2);
        AbsorbRight(rest, i + 1);
      }
      ReadNeighbours(pool.chain, poolSize - HDR, next[..], prev[..], used[..], i + 1);
      Enlist(rest);
      availableSize := availableSize + (next[rest] - rest - HDR);
    }

    /** The free block behind `h` leaves the free list and joins `h`. */
    method AbsorbRight(h: nat, ghost i: nat)
      requires Shows() && i + 1 < |pool.chain| && pool.chain[i].off == h
      requires !pool.chain[i + 1].used && pool.chain[i + 1].off in pool.free
      modifies this`availableSize, this`pool, next, prev, nextFree, prevFree
      ensures Shows() && pool == Pool(Drop(old(pool).chain, i + 1), Without(old(pool).free, old(pool).chain[i + 1].off))
      ensures i + 2 < |old(pool).chain| && availableSize == old(availableSize) - Size(old(pool).chain, i + 1)
    {
      hide Ring, Flags, Drop;
      ghost var c := pool.chain;
      NotLast(c, poolSize - HDR, i + 1);
      hide Tiled;
      ReadNeighbours(c, poolSize - HDR, next[..], prev[..], used[..], i);
      ReadNeighbours(c, poolSize - HDR, next[..], prev[..], used[..], i + 1);
      var right := next[h];
      availableSize := availableSize - (next[right] - right - HDR);
      RemoveBlock(right, i + 1);
      Unlist(right);
    }

    /** rt_memheap_realloc, moving the block: allocate, copy, free. */
    method Move(q: Ptr, oldsize: nat, n: nat, ghost i: nat) returns (r: Ptr)
      requires Valid() && |pool.chain| > 0 && q.At? && Live(pool.chain, q.addr)
      requires i == IndexOf(pool.chain, q.addr - HDR, 0) && oldsize == Size(pool.chain, i)
      requires MINI <= n < TWO_32 / 4 && n > oldsize
      modifies this, used, next, prev, nextFree, prevFree, data
      ensures Valid()
      ensures var (d, s) := AllocSpec(old(pool), 4 * n);
              && r == s && |d.chain| > 0 && Live(d.chain, q.addr)
              && pool == if s.Null? then d else FreeSpec(d, q)
      ensures maxUsedSize == MaxAfterAlloc(old(pool), poolSize - HDR, 4 * n, old(maxUsedSize))
      ensures DataKept(old(pool).chain, old(data[..]), data[..], q.addr)
      ensures HeadersKept(old(pool).chain, old(Headers()), Headers(), q.addr)
      ensures r.At? ==> Copied(old(data[..]), q.addr, data[..], r.addr, oldsize)
      ensures r.Null? ==> pool == old(pool) && data[..] == old(data[..])
    {
      hide Ring, Tiled, Flags, Inv, FreeSpec, Available, TakeBlock, BigEnough, IsFree, Headers, HeadersKept;
      ghost var p, h := pool, Headers();
      AllocKeepsLive(p, poolSize - HDR, 4 * n, q.addr);
      r := Alloc(4 * n);
      ghost var h' := Headers();
      if r.Null? { HeadersKeptTwice(p, poolSize - HDR, 4 * n, h, h', h', q.addr); }
      if r.At? {
        ghost var k := FoundBlock(p, poolSize - HDR, n);
        MoveTarget(p, poolSize - HDR, k, n, i);
        CopyWords(r.addr, q.addr, oldsize);
        KeptBy(p, poolSize - HDR, k, n, r.addr, oldsize, old(data[..]), data[..], q.addr);
        Free(q);
        HeadersKeptTwice(p, poolSize - HDR, 4 * n, h, h', Headers(), q.addr);
      }
    }

    /** rt_memcpy */
    method CopyWords(dst: nat, src: nat, len: nat)
      requires dst + len <= data.Length && src + len <= data.Length
      requires src + len <= dst || dst + len <= src
      modifies data
      ensures Copied(old(data[..]), src, data[..], dst, len)
      ensures forall a :: 0 <= a < data.Length && !(dst <= a < dst + len) ==> data[a] == old(data[a])
    {
      for a := 0 to len
        invariant forall b :: dst <= b < dst + a ==> data[b] == old(data[src + (b - dst)])
        invariant forall b :: 0 <= b < data.Length && !(dst <= b < dst + a) ==> data[b] == old(data[b])
      {
        data[dst + a] := data[src + a];
      }
    }
  }
}
