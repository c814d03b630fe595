/** When rt_malloc of slab.c returns NULL, where it takes its pages, and when rt_free gives pages back. */
module SlabOutcomes {
  import opened Arith
  import opened Lists
  import opened SlabZone
  import PageList
  import opened SlabSpec
  import opened SlabTheorems

  /** `n` pages in a row are free. */
  ghost predicate SomeRun(l: seq<PageList.Run>, n: nat) {
    exists a: nat :: PageList.AllFree(l, a, n)
  }

  /** From `s` to `t` exactly the `n` pages from `a` on have been taken off the free pages. */
  ghost predicate PagesTaken(s: Slab, t: Slab, a: nat, n: nat) {
    && PageList.AllFree(s.pg.list, a, n)
    && forall p :: PageList.Free(t.pg.list, p) <==> PageList.Free(s.pg.list, p) && !(a <= p < a + n)
  }

  lemma AllocNone(l: seq<PageList.Run>, n: nat)
    requires PageList.Canonical(l) && n > 0
    ensures PageList.Alloc(l, n).1.None? <==> !SomeRun(l, n)
  {
    PageList.AllocKeeps(l, n);
    var (r, a) := PageList.Alloc(l, n);
    hide PageList.Alloc, PageList.AllFree;
    if a.Some? { assert PageList.AllFree(l, a.page, n); }
    if SomeRun(l, n) {
      var b: nat :| PageList.AllFree(l, b, n);
      PageList.AllocIsLowest(l, n, b);
    }
  }

  /** Whether a zone of the chunk size of a small request has a free chunk, or a spare zone can become one. */
  predicate ZoneAtHand(s: Slab, size: nat, zoneSize: nat)
    requires |s.lists| == ZONES && ZoneSize(zoneSize) && 0 < size < Limit(zoneSize)
  {
    BelowLimit(size, zoneSize);
    s.lists[ZoneIndex(size).1] != [] || s.spare != []
  }

  /** The pages a request needs: its own for a large one, a whole zone for a small one that finds no zone. */
  function PagesNeeded(s: Slab, size: nat, zoneSize: nat): nat
    requires |s.lists| == ZONES && ZoneSize(zoneSize) && size > 0
  {
    if size >= Limit(zoneSize) then RoundUp(size, PAGE) / PAGE
    else if ZoneAtHand(s, size, zoneSize) then 0
    else zoneSize / PAGE
  }

  lemma LargeSource(s: Slab, n: nat)
    requires PageList.Inv(s.pg, Pool(s)) && n > 0
    ensures var (t, ptr) := MallocLarge(s, n);
            && (ptr.None? <==> !SomeRun(s.pg.list, n))
            && (ptr.Some? ==> PagesTaken(s, t, PageList.LowestRun(s.pg.list, n), n))
  {
    AllocNone(s.pg.list, n);
    PageList.AllocKeeps(s.pg.list, n);
    PageList.AllocAtLowestRun(s.pg.list, n);
    hide PageList.Alloc, PageList.AllFree, SomeRun;
  }

  lemma ZoneSource(s: Slab, zi: nat, zoneSize: nat)
    requires Inv(s, zoneSize) && zi < ZONES && ChunkOf(zi) <= Limit(zoneSize)
    ensures ChunkOf(zi) > 0 && Offset(ChunkOf(zi)) + ChunkOf(zi) <= zoneSize && Count(zoneSize) > 0
    ensures var (t, ptr) := FromPages(s, zi, zoneSize);
            var n := Count(zoneSize);
            && (ptr.None? <==> !SomeRun(s.pg.list, n))
            && (ptr.Some? ==> PagesTaken(s, t, PageList.LowestRun(s.pg.list, n), n))
  {
    NewZoneIs(zi, zoneSize);
    var n := Count(zoneSize);
    AllocNone(s.pg.list, n);
    PageList.AllocKeeps(s.pg.list, n);
    PageList.AllocAtLowestRun(s.pg.list, n);
    hide PageList.Alloc, PageList.AllFree, SomeRun, ChunkOf, Offset, NewZone, MarkZone, Inv;
  }

  lemma ZoneHanded(s: Slab, zi: nat, zoneSize: nat)
    requires Inv(s, zoneSize) && zi < ZONES && ChunkOf(zi) <= Limit(zoneSize)
    ensures ChunkOf(zi) > 0 && Offset(ChunkOf(zi)) + ChunkOf(zi) <= zoneSize
    ensures s.spare != [] ==> FromSpare(s, zi, zoneSize).1.Some? && FromSpare(s, zi, zoneSize).0.pg == s.pg
    ensures s.lists[zi] != [] ==>
              && s.lists[zi][0] in s.zones && Counted(s.zones[s.lists[zi][0]]) && s.zones[s.lists[zi][0]].nfree > 0
              && FromZone(s, zi).1.Some? && FromZone(s, zi).0.pg == s.pg
  {
    NewZoneIs(zi, zoneSize);
    if s.lists[zi] != [] { FirstOnList(s, zoneSize, zi); }
    hide Inv, ChunkOf, Offset, NewZone, Counted;
  }

  /** rt_malloc returns NULL exactly for size 0 and when the request needs pages and no run of free pages is
      long enough: a large request needs its own, a small one those of a zone when neither the list of its
      chunk size nor the list of spare zones has any. */
  lemma MallocNull(s: Slab, size: nat, zoneSize: nat)
    requires Inv(s, zoneSize)
    ensures Malloc(s, size, zoneSize).1.None? <==>
              size == 0 || (PagesNeeded(s, size, zoneSize) > 0
                            && !SomeRun(s.pg.list, PagesNeeded(s, size, zoneSize)))
  {
    if size > 0 { MallocSource(s, size, zoneSize); }
  }

  /** Where the pages come from: exactly those needed are taken, from the lowest run that is long enough; while
      a zone is at hand no page is. */
  lemma MallocSource(s: Slab, size: nat, zoneSize: nat)
    requires Inv(s, zoneSize) && size > 0
    ensures var (t, ptr) := Malloc(s, size, zoneSize);
            var n := PagesNeeded(s, size, zoneSize);
            && (ptr.None? <==> n > 0 && !SomeRun(s.pg.list, n))
            && (ptr.Some? && n > 0 ==> PagesTaken(s, t, PageList.LowestRun(s.pg.list, n), n))
            && (n == 0 ==> t.pg == s.pg)
  {
    if size >= Limit(zoneSize) {
      RoundUpIs(size, PAGE);
      var n := RoundUp(size, PAGE) / PAGE;
      LargeSource(s, n);
      hide PagesTaken, SomeRun, MallocLarge, RoundUp, Inv;
    } else {
      ZoneIndexFits(size);
      BelowLimit(size, zoneSize);
      var zi := ZoneIndex(size).1;
      hide ZoneIndex, ChunkOf, Offset, Counted, PagesTaken, SomeRun, FromPages, FromZone, FromSpare, Limit;
      ZoneHanded(s, zi, zoneSize);
      ZoneSource(s, zi, zoneSize);
      hide Inv;
    }
  }

  /** An instance for every heap: a fresh one with pages for a zone behind its page table serves every request
      below the limit. */
  lemma FreshServes(usage: seq<Usage>, zoneSize: nat, size: nat)
    requires |usage| >= TablePages(|usage|) + Count(zoneSize)
    requires ZoneSize(zoneSize) && 0 < size < Limit(zoneSize)
    ensures Inv(Fresh(usage), zoneSize) && Malloc(Fresh(usage), size, zoneSize).1.Some?
  {
    FreshInv(usage, zoneSize);
    var s, m, n := Fresh(usage), TablePages(|usage|), Count(zoneSize);
    TablePositive(|usage|);
    PageList.AllocKeeps([PageList.Run(0, |usage|)], m);
    assert PageList.AllFree(s.pg.list, m, n);
    MallocNull(s, size, zoneSize);
  }

  // ---------- giving back ----------

  /** No other chunk of the zone is in use. */
  ghost predicate LastChunk(s: Slab, z: nat, k: nat)
    requires z in s.zones
  {
    forall j: nat :: Used(s.zones[z], j) ==> j == k
  }

  /** Another zone with the same chunk size has a free chunk. */
  ghost predicate OtherZone(s: Slab, z: nat)
    requires z in s.zones && s.zones[z].index < |s.lists|
  {
    exists y :: y in s.lists[s.zones[z].index] && y != z
  }

  /** From `s` to `t` exactly the `n` pages from `a` on have become free. */
  ghost predicate PagesFreed(s: Slab, t: Slab, a: nat, n: nat) {
    forall p :: PageList.Free(t.pg.list, p) <==> PageList.Free(s.pg.list, p) || a <= p < a + n
  }

  lemma OwnPages(pg: PageList.State, a: nat, pool: PageList.Run)
    requires PageList.Inv(pg, pool) && a in pg.live
    ensures pg.live[a] > 0 && PageList.Canonical(pg.list) && PageList.NoneFree(pg.list, a, pg.live[a])
  {
    forall p | a <= p < a + pg.live[a] ensures !PageList.Free(pg.list, p) {
      assert PageList.Within(pg.live, a, p);
    }
  }

  /** rt_free of a large block frees exactly its pages. */
  lemma FreeLargeOutcome(s: Slab, a: nat, zoneSize: nat)
    requires Inv(s, zoneSize) && Live(s, Whole(a))
    ensures PagesFreed(s, Free(s, Whole(a), zoneSize), a, s.pg.live[a])
  {
    OwnPages(s.pg, a, Pool(s));
    PageList.ReleaseKeeps(s.pg.list, a, s.pg.live[a]);
    hide Inv, PageList.Inv, PageList.Release, PageList.NoneFree;
  }

  lemma LongerList(l: seq<nat>, z: nat)
    requires Distinct(l) && z in l
    ensures |l| > 1 <==> exists y :: y in l && y != z
  {
    if |l| > 1 { assert l[0] in l && l[1] in l && l[0] != l[1]; }
  }

  /** After a chunk has gone back to its zone: whether the zone is retired. */
  lemma ReturnedZone(s: Slab, z: nat, k: nat, zoneSize: nat)
    requires Inv(s, zoneSize) && Live(s, Chunk(z, k))
    ensures s.zones[z].index < |s.lists| && z in Returned(s, z, k).zones
    ensures var t := Returned(s, z, k);
            && t.zones[z].index == s.zones[z].index && t.pg == s.pg && t.spare == s.spare
            && (t.zones[z].nfree == t.zones[z].nmax <==> LastChunk(s, z, k))
            && (|t.lists[s.zones[z].index]| > 1 <==> OtherZone(s, z))
  {
    ZoneIs(s, zoneSize, z);
    WhereListed(s, zoneSize, z);
    GiveKeeps(s.zones[z], k);
    var t, zi := Returned(s, z, k), s.zones[z].index;
    CountSays(t.zones[z]);
    ReturnedInv(s, zoneSize, z, k);
    ReturnedList(s, zoneSize, z, k);
    WhereListed(t, zoneSize, z);
    hide Inv, Counted, Used, Fits;
    LongerList(t.lists[zi], z);
  }

  /** When rt_free of a chunk gives more back than the chunk: when it was the last of its zone in use and another
      zone of its size has a free chunk, the zone becomes spare, or with two spare zones already its pages
      become free.  Otherwise the zone stays, and no page changes hands. */
  lemma FreeChunkOutcome(s: Slab, z: nat, k: nat, zoneSize: nat)
    requires Inv(s, zoneSize) && Live(s, Chunk(z, k))
    ensures s.zones[z].index < |s.lists|
    ensures var t := Free(s, Chunk(z, k), zoneSize);
            var retires := LastChunk(s, z, k) && OtherZone(s, z);
            && t.spare == (if retires && |s.spare| < SPARE then [z] + s.spare else s.spare)
            && (z in t.zones <==> !(retires && |s.spare| >= SPARE))
            && (if retires && |s.spare| >= SPARE then PagesFreed(s, t, z, zoneSize / PAGE) else t.pg == s.pg)
  {
    ZoneIs(s, zoneSize, z);
    ReturnedZone(s, z, k, zoneSize);
    OwnPages(s.pg, z, Pool(s));
    PageList.ReleaseKeeps(s.pg.list, z, s.pg.live[z]);
    hide Inv, PageList.Inv, PageList.Release, PageList.NoneFree, LastChunk, OtherZone, Returned, ZoneBook, Marked,
        Used, UnmarkZone, Without;
  }
}
