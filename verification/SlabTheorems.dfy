/** What the slab allocator keeps in every run. */
module SlabTheorems {
  import opened Arith
  import opened Lists
  import opened SlabZone
  import PageList
  import opened SlabSpec

  // ---------- a change to one zone ----------

  /** Only zone `z` has changed, and where it is listed. */
  ghost predicate OnlyZone(s: Slab, t: Slab, z: nat) {
    && |s.lists| == |t.lists| == ZONES
    && (forall y :: y != z ==> (y in t.zones <==> y in s.zones) && (y in s.zones ==> t.zones[y] == s.zones[y]))
    && (forall i :: 0 <= i < ZONES ==> Distinct(t.lists[i]) && SameBut(s.lists[i], t.lists[i], z))
    && Distinct(t.spare) && |t.spare| <= SPARE && SameBut(s.spare, t.spare, z)
  }

  ghost predicate SameBut(l: seq<nat>, m: seq<nat>, z: nat) {
    forall y :: y != z ==> (y in m <==> y in l)
  }

  /** Zone `z` is listed as it should be. */
  ghost predicate Listed(t: Slab, zoneSize: nat, z: nat)
    requires |t.lists| == ZONES
  {
    && (z in t.zones ==> ZoneBook(t.zones[z], zoneSize, t.lists, t.spare, z))
    && (forall i :: 0 <= i < ZONES && z in t.lists[i] ==> z in t.zones && t.zones[z].index == i && t.zones[z].nfree > 0)
    && (z in t.spare ==> z in t.zones && t.zones[z].nfree == t.zones[z].nmax)
  }

  ghost predicate PagesOk(t: Slab, zoneSize: nat) {
    && PageList.Inv(t.pg, Pool(t))
    && (forall y :: y in t.zones ==> ZonePages(t.pg, t.usage, t.large, zoneSize, y))
    && (forall a :: a in t.large ==> LargeOk(t.pg, t.usage, a))
  }

  lemma ZoneChange(s: Slab, t: Slab, zoneSize: nat, z: nat)
    requires Inv(s, zoneSize) && OnlyZone(s, t, z) && Listed(t, zoneSize, z) && PagesOk(t, zoneSize)
    ensures Inv(t, zoneSize)
  {
    hide PageList.Inv, ZonePages, LargeOk, Counted, Fits;
    forall y | y in t.zones ensures ZoneBook(t.zones[y], zoneSize, t.lists, t.spare, y) {
      if y != z {
        assert ZoneBook(s.zones[y], zoneSize, s.lists, s.spare, y);
        IndexBound(s.zones[y], zoneSize);
        assert SameBut(s.lists[s.zones[y].index], t.lists[s.zones[y].index], z);
      }
    }
    forall i | 0 <= i < ZONES ensures ListOk(t.lists[i], i, t.zones) {
      assert ListOk(s.lists[i], i, s.zones) && SameBut(s.lists[i], t.lists[i], z);
      forall y | y in t.lists[i] ensures y in t.zones && t.zones[y].index == i && t.zones[y].nfree > 0 {
        if y != z { assert y in s.lists[i]; }
      }
    }
    forall y | y in t.spare ensures y in t.zones && t.zones[y].nfree == t.zones[y].nmax {
      if y != z { assert y in s.spare; }
    }
  }

  lemma IndexBound(zone: Zone, zoneSize: nat)
    requires Fits(zone, zoneSize)
    ensures zone.index < ZONES
  {
  }

  /** Where a zone may be listed in a state that is in order. */
  lemma WhereListed(s: Slab, zoneSize: nat, z: nat)
    requires Inv(s, zoneSize)
    ensures forall i :: 0 <= i < ZONES && z in s.lists[i] ==>
              z in s.zones && s.zones[z].index == i && s.zones[z].nfree > 0
    ensures z in s.spare ==> z in s.zones && s.zones[z].nfree == s.zones[z].nmax > 0
    ensures forall i :: 0 <= i < ZONES ==> Distinct(s.lists[i])
    ensures Distinct(s.spare) && |s.spare| <= SPARE
    ensures z in s.zones ==> ZoneBook(s.zones[z], zoneSize, s.lists, s.spare, z)
  {
    forall i | 0 <= i < ZONES
      ensures Distinct(s.lists[i])
              && (z in s.lists[i] ==> z in s.zones && s.zones[z].index == i && s.zones[z].nfree > 0)
    {
      assert ListOk(s.lists[i], i, s.zones);
    }
    if z in s.zones { assert ZoneBook(s.zones[z], zoneSize, s.lists, s.spare, z); }
  }

  // ---------- allocating ----------

  lemma FromZoneInv(s: Slab, zoneSize: nat, zi: nat)
    requires Inv(s, zoneSize) && zi < ZONES && s.lists[zi] != []
    ensures s.lists[zi][0] in s.zones && Counted(s.zones[s.lists[zi][0]]) && s.zones[s.lists[zi][0]].nfree > 0
    ensures Inv(FromZone(s, zi).0, zoneSize)
  {
    FirstOnList(s, zoneSize, zi);
    FromZoneOnly(s, zoneSize, zi);
    FromZoneListed(s, zoneSize, zi);
    assert PagesOk(FromZone(s, zi).0, zoneSize);
    hide Inv, PagesOk, OnlyZone, Listed, FromZone;
    ZoneChange(s, FromZone(s, zi).0, zoneSize, s.lists[zi][0]);
  }

  lemma FromZoneOnly(s: Slab, zoneSize: nat, zi: nat)
    requires Inv(s, zoneSize) && zi < ZONES && s.lists[zi] != []
    ensures s.lists[zi][0] in s.zones && Counted(s.zones[s.lists[zi][0]]) && s.zones[s.lists[zi][0]].nfree > 0
    ensures OnlyZone(s, FromZone(s, zi).0, s.lists[zi][0])
  {
    FirstOnList(s, zoneSize, zi);
    WhereListed(s, zoneSize, s.lists[zi][0]);
    TailIs(s.lists[zi]);
    hide Inv, Counted, TakeChunk, ZoneBook;
  }

  lemma FromZoneListed(s: Slab, zoneSize: nat, zi: nat)
    requires Inv(s, zoneSize) && zi < ZONES && s.lists[zi] != []
    ensures s.lists[zi][0] in s.zones && Counted(s.zones[s.lists[zi][0]]) && s.zones[s.lists[zi][0]].nfree > 0
    ensures |FromZone(s, zi).0.lists| == ZONES && Listed(FromZone(s, zi).0, zoneSize, s.lists[zi][0])
  {
    FirstOnList(s, zoneSize, zi);
    var z := s.lists[zi][0];
    WhereListed(s, zoneSize, z);
    TakeKeeps(s.zones[z]);
    TailIs(s.lists[zi]);
    CountSays(s.zones[z]);
    var t, zone := FromZone(s, zi).0, TakeChunk(s.zones[z]).0;
    assert Fits(zone, zoneSize) && zone.index == zi && zone.nfree + 1 == s.zones[z].nfree;
    hide Inv, Counted, Fits, Used, TakeChunk;
    assert z in s.lists[zi] && z !in s.spare;
  }

  lemma FromSpareInv(s: Slab, zoneSize: nat, zi: nat)
    requires Inv(s, zoneSize) && zi < ZONES && s.spare != [] && s.lists[zi] == [] && ChunkOf(zi) <= Limit(zoneSize)
    ensures ChunkOf(zi) > 0 && Offset(ChunkOf(zi)) + ChunkOf(zi) <= zoneSize
    ensures Inv(FromSpare(s, zi, zoneSize).0, zoneSize)
  {
    NewZoneIs(zi, zoneSize);
    var z := s.spare[0];
    var t := FromSpare(s, zi, zoneSize).0;
    assert z in s.spare;
    WhereListed(s, zoneSize, z);
    TailIs(s.spare);
    assert PagesOk(t, zoneSize);
    hide PageList.Inv, ZonePages, LargeOk, Counted, Fits, Offset, NewZone;
    ZoneChange(s, t, zoneSize, z);
  }

  lemma NewZoneIs(zi: nat, zoneSize: nat)
    requires ZoneSize(zoneSize) && zi < ZONES && ChunkOf(zi) <= Limit(zoneSize)
    ensures ChunkOf(zi) > 0 && Offset(ChunkOf(zi)) + ChunkOf(zi) <= zoneSize
    ensures var z := NewZone(zi, ChunkOf(zi), zoneSize); Counted(z) && Fits(z, zoneSize) && z.index == zi && z.nfree > 0
  {
    NewZoneFits(zi, zoneSize);
  }

  // ---------- pages taken and returned ----------

  /** The page table is the same outside a block. */
  ghost predicate SameOutside(u: seq<Usage>, v: seq<Usage>, a: nat, n: nat) {
    |u| == |v| && forall p :: 0 <= p < |u| && !(a <= p < a + n) ==> v[p] == u[p]
  }

  ghost predicate BlockApart(pg: PageList.State, b: nat, a: nat, n: nat) {
    forall p :: PageList.Within(pg.live, b, p) ==> !(a <= p < a + n)
  }

  lemma ZonePagesFrame(pg: PageList.State, pg': PageList.State, u: seq<Usage>, v: seq<Usage>,
                       large: set<nat>, large': set<nat>, zoneSize: nat, z: nat, a: nat, n: nat)
    requires ZonePages(pg, u, large, zoneSize, z) && SameOutside(u, v, a, n) && BlockApart(pg, z, a, n)
    requires z in pg'.live && pg'.live[z] == pg.live[z] && (z in large' ==> z in large)
    ensures ZonePages(pg', v, large', zoneSize, z)
  {
    forall o | 0 <= o < Count(zoneSize) ensures Marked(v, z, o) {
      assert Marked(u, z, o) && PageList.Within(pg.live, z, z + o);
    }
  }

  lemma LargeFrame(pg: PageList.State, pg': PageList.State, u: seq<Usage>, v: seq<Usage>, b: nat, a: nat, n: nat)
    requires LargeOk(pg, u, b) && SameOutside(u, v, a, n) && BlockApart(pg, b, a, n) && pg.live[b] > 0
    requires b in pg'.live && pg'.live[b] == pg.live[b]
    ensures LargeOk(pg', v, b)
  {
    assert PageList.Within(pg.live, b, b);
  }

  /** Taking pages leaves the blocks in use alone. */
  lemma TakenPages(s: Slab, zoneSize: nat, n: nat, v: seq<Usage>, large: set<nat>)
    requires Inv(s, zoneSize) && n > 0 && PageList.Alloc(s.pg.list, n).1.Some?
    requires SameOutside(s.usage, v, PageList.Alloc(s.pg.list, n).1.page, n)
    requires large <= s.large + {PageList.Alloc(s.pg.list, n).1.page}
    ensures var a := PageList.Alloc(s.pg.list, n).1.page;
            var pg := PageList.State(PageList.Alloc(s.pg.list, n).0, s.pg.live[a := n]);
            && PageList.Inv(pg, Pool(s)) && a + n <= |s.usage| && a !in s.zones && a !in s.large
            && (forall z :: z in s.zones ==> ZonePages(pg, v, large, zoneSize, z))
            && (forall b :: b in s.large ==> LargeOk(pg, v, b))
  {
    AllocInside(s.pg, n, Pool(s));
    PageList.StepInv(s.pg, PageList.AllocPages(n), Pool(s));
    PageList.AllocKeeps(s.pg.list, n);
    var a := PageList.Alloc(s.pg.list, n).1.page;
    var pg := PageList.State(PageList.Alloc(s.pg.list, n).0, s.pg.live[a := n]);
    forall b | b in s.pg.live ensures BlockApart(s.pg, b, a, n) && s.pg.live[b] > 0 {}
    hide PageList.Inv, PageList.Alloc, PageList.Free, PageList.Canonical;
    assert a in s.zones ==> ZonePages(s.pg, s.usage, s.large, zoneSize, a);
    assert a in s.large ==> LargeOk(s.pg, s.usage, a);
    forall z | z in s.zones ensures ZonePages(pg, v, large, zoneSize, z) {
      ZonePagesFrame(s.pg, pg, s.usage, v, s.large, large, zoneSize, z, a, n);
    }
    forall b | b in s.large ensures LargeOk(pg, v, b) {
      LargeFrame(s.pg, pg, s.usage, v, b, a, n);
    }
  }

  /** Returning a block leaves the others alone. */
  lemma ReturnedPages(s: Slab, zoneSize: nat, a: nat, v: seq<Usage>)
    requires Inv(s, zoneSize) && a in s.pg.live && SameOutside(s.usage, v, a, s.pg.live[a])
    ensures var pg := PageList.State(PageList.Release(s.pg.list, a, s.pg.live[a]), s.pg.live - {a});
            && PageList.Inv(pg, Pool(s))
            && (forall z :: z in s.zones && z != a ==> ZonePages(pg, v, s.large - {a}, zoneSize, z))
            && (forall b :: b in s.large && b != a ==> LargeOk(pg, v, b))
  {
    PageList.StepInv(s.pg, PageList.FreePages(a), Pool(s));
    var n := s.pg.live[a];
    var pg := PageList.State(PageList.Release(s.pg.list, a, n), s.pg.live - {a});
    forall b | b in s.pg.live && b != a ensures BlockApart(s.pg, b, a, n) && s.pg.live[b] > 0 {
      forall p | PageList.Within(s.pg.live, b, p) ensures !(a <= p < a + n) {
        assert a <= p < a + n ==> PageList.Within(s.pg.live, a, p);
      }
    }
    hide PageList.Inv, PageList.Release, PageList.Free, PageList.Canonical;
    forall z | z in s.zones && z != a ensures ZonePages(pg, v, s.large - {a}, zoneSize, z) {
      ZonePagesFrame(s.pg, pg, s.usage, v, s.large, s.large - {a}, zoneSize, z, a, n);
    }
    forall b | b in s.large && b != a ensures LargeOk(pg, v, b) {
      assert LargeOk(s.pg, s.usage, b);
      LargeFrame(s.pg, pg, s.usage, v, b, a, n);
    }
  }

  lemma MallocLargeInv(s: Slab, zoneSize: nat, n: nat)
    requires Inv(s, zoneSize)
    ensures Inv(MallocLarge(s, n).0, zoneSize)
  {
    if n > 0 && PageList.Alloc(s.pg.list, n).1.Some? {
      var a := PageList.Alloc(s.pg.list, n).1.page;
      AllocInside(s.pg, n, Pool(s));
      TakenPages(s, zoneSize, n, s.usage[a := Large(n)], s.large + {a});
      hide PageList.Inv, ZonePages, ZoneBook, ListOk, SpareOk, PageList.Alloc;
    }
  }

  lemma FromPagesInv(s: Slab, zoneSize: nat, zi: nat)
    requires Inv(s, zoneSize) && zi < ZONES && s.lists[zi] == [] && ChunkOf(zi) <= Limit(zoneSize)
    ensures ChunkOf(zi) > 0 && Offset(ChunkOf(zi)) + ChunkOf(zi) <= zoneSize && Count(zoneSize) > 0
    ensures Inv(FromPages(s, zi, zoneSize).0, zoneSize)
  {
    NewZoneIs(zi, zoneSize);
    var n := Count(zoneSize);
    if PageList.Alloc(s.pg.list, n).1.Some? {
      var z := PageList.Alloc(s.pg.list, n).1.page;
      var t := FromPages(s, zi, zoneSize).0;
      TakenPages(s, zoneSize, n, MarkZone(s.usage, z, n), s.large);
      WhereListed(s, zoneSize, z);
      assert ZonePages(t.pg, t.usage, t.large, zoneSize, z) by {
        forall o | 0 <= o < n ensures Marked(t.usage, z, o) {}
      }
      hide PageList.Inv, PageList.Alloc, ZonePages, LargeOk, Counted, Offset, NewZone, MarkZone;
      assert PagesOk(t, zoneSize);
      ZoneChange(s, t, zoneSize, z);
    }
  }

  // ---------- freeing ----------

  lemma FreeLargeInv(s: Slab, zoneSize: nat, a: nat)
    requires Inv(s, zoneSize) && a in s.large
    ensures a in s.pg.live && Inv(Free(s, Whole(a), zoneSize), zoneSize)
  {
    LargeIs(s, zoneSize, a);
    var t := Free(s, Whole(a), zoneSize);
    assert s.pg.live[a] > 0;
    ReturnedPages(s, zoneSize, a, t.usage);
    if a in s.zones { ZoneIs(s, zoneSize, a); }
    hide PageList.Inv, ZonePages, ZoneBook, ListOk, SpareOk, PageList.Release;
  }

  lemma ReturnedInv(s: Slab, zoneSize: nat, z: nat, k: nat)
    requires Inv(s, zoneSize) && Live(s, Chunk(z, k))
    ensures s.zones[z].index < |s.lists| && Inv(Returned(s, z, k), zoneSize)
  {
    ZoneIs(s, zoneSize, z);
    WhereListed(s, zoneSize, z);
    GiveKeeps(s.zones[z], k);
    CountSays(s.zones[z]);
    var t := Returned(s, z, k);
    assert PagesOk(t, zoneSize);
    assert Fits(t.zones[z], zoneSize);
    hide PageList.Inv, ZonePages, LargeOk, Counted, Fits, Used;
    ZoneChange(s, t, zoneSize, z);
  }

  lemma RetiredOnly(s: Slab, zoneSize: nat, z: nat)
    requires Inv(s, zoneSize) && z in s.zones && z !in s.spare
    ensures s.zones[z].index < |s.lists| && OnlyZone(s, Retired(s, z, s.zones[z].index, zoneSize), z)
  {
    ZoneIs(s, zoneSize, z);
    WhereListed(s, zoneSize, z);
    WithoutIs(s.lists[s.zones[z].index], z);
    hide Inv, Without, PageList.Release, UnmarkZone, ZonePages, ZoneBook;
  }

  /** The retired zone leaves its list, and is then spare or no zone any more. */
  lemma RetiredListed(s: Slab, zoneSize: nat, z: nat)
    requires Inv(s, zoneSize) && z in s.zones && z !in s.spare && s.zones[z].nfree == s.zones[z].nmax
    ensures s.zones[z].index < |s.lists| == ZONES && Listed(Retired(s, z, s.zones[z].index, zoneSize), zoneSize, z)
  {
    ZoneIs(s, zoneSize, z);
    WhereListed(s, zoneSize, z);
    WithoutIs(s.lists[s.zones[z].index], z);
    hide Inv, Without, PageList.Release, UnmarkZone, ZonePages, Counted, Fits;
  }

  lemma RetiredPages(s: Slab, zoneSize: nat, z: nat)
    requires Inv(s, zoneSize) && z in s.zones
    ensures s.zones[z].index < |s.lists| && PagesOk(Retired(s, z, s.zones[z].index, zoneSize), zoneSize)
  {
    ZoneIs(s, zoneSize, z);
    var t := Retired(s, z, s.zones[z].index, zoneSize);
    if |s.spare| + 1 <= SPARE {
    } else {
      ReturnedPages(s, zoneSize, z, t.usage);
      assert z !in s.large && s.large - {z} == s.large;
      hide ZonePages, LargeOk, PageList.Inv;
    }
  }

  lemma RetiredInv(s: Slab, zoneSize: nat, z: nat)
    requires Inv(s, zoneSize) && z in s.zones && z !in s.spare && s.zones[z].nfree == s.zones[z].nmax
    ensures s.zones[z].index < |s.lists| && Inv(Retired(s, z, s.zones[z].index, zoneSize), zoneSize)
  {
    RetiredOnly(s, zoneSize, z);
    RetiredListed(s, zoneSize, z);
    RetiredPages(s, zoneSize, z);
    hide Inv, OnlyZone, Listed, PagesOk, Retired;
    ZoneChange(s, Retired(s, z, s.zones[z].index, zoneSize), zoneSize, z);
  }

  // ---------- blocks ----------

  /** Block `b` of `s` is the same block in `t`. */
  ghost predicate SameBlock(s: Slab, t: Slab, b: Block) {
    Live(s, b) && Live(t, b) && Start(t, b) == Start(s, b) && Size(t, b) == Size(s, b)
  }

  ghost predicate Gains(s: Slab, t: Slab, b: Block) {
    !Live(s, b) && Live(t, b) && (forall x :: Live(s, x) ==> SameBlock(s, t, x))
        && forall x :: Live(t, x) ==> Live(s, x) || x == b
  }

  /** What an allocation of `size` bytes promises: one new block at the address returned, large enough,
      and every other block as it was; or nothing changes. */
  ghost predicate Allocated(s: Slab, t: Slab, ptr: PageList.Option, size: nat) {
    match ptr
    case None => t == s
    case Some(p) => exists b :: Gains(s, t, b) && Start(t, b) == p && Size(t, b) >= size
  }

  lemma FromZoneGains(s: Slab, zoneSize: nat, zi: nat)
    requires Inv(s, zoneSize) && zi < ZONES && s.lists[zi] != []
    ensures s.lists[zi][0] in s.zones && Counted(s.zones[s.lists[zi][0]]) && s.zones[s.lists[zi][0]].nfree > 0
    ensures Allocated(s, FromZone(s, zi).0, FromZone(s, zi).1, ChunkOf(zi)) && FromZone(s, zi).1.Some?
  {
    FirstOnList(s, zoneSize, zi);
    var z := s.lists[zi][0];
    TakeKeeps(s.zones[z]);
    var t := FromZone(s, zi).0;
    var b := Chunk(z, TakeChunk(s.zones[z]).1);
    hide Inv, ChunkOf;
    forall x: Block | Live(t, x) ensures Live(s, x) || x == b {}
    forall x: Block | Live(s, x) ensures SameBlock(s, t, x) {}
    assert Gains(s, t, b);
  }

  lemma NewZoneUse(zi: nat, zoneSize: nat)
    requires ZoneSize(zoneSize) && zi < ZONES && ChunkOf(zi) <= Limit(zoneSize)
    ensures ChunkOf(zi) > 0 && Offset(ChunkOf(zi)) + ChunkOf(zi) <= zoneSize
    ensures var zone := NewZone(zi, ChunkOf(zi), zoneSize);
            zone.chunk == ChunkOf(zi) && forall k: nat :: Used(zone, k) <==> k == 0
  {
    NewZoneFits(zi, zoneSize);
  }

  lemma FromSpareGains(s: Slab, zoneSize: nat, zi: nat)
    requires Inv(s, zoneSize) && zi < ZONES && s.spare != [] && ChunkOf(zi) <= Limit(zoneSize)
    ensures ChunkOf(zi) > 0 && Offset(ChunkOf(zi)) + ChunkOf(zi) <= zoneSize
    ensures Allocated(s, FromSpare(s, zi, zoneSize).0, FromSpare(s, zi, zoneSize).1, ChunkOf(zi))
    ensures FromSpare(s, zi, zoneSize).1.Some?
  {
    NewZoneUse(zi, zoneSize);
    var z := s.spare[0];
    assert z in s.spare;
    WhereListed(s, zoneSize, z);
    CountSays(s.zones[z]);
    var t := FromSpare(s, zi, zoneSize).0;
    var b := Chunk(z, 0);
    hide Inv, ChunkOf, NewZone, Used, Counted, Offset;
    forall x: Block | Live(t, x) ensures Live(s, x) || x == b {}
    forall x: Block | Live(s, x) ensures SameBlock(s, t, x) {}
    assert Gains(s, t, b);
  }

  lemma FromPagesGains(s: Slab, zoneSize: nat, zi: nat)
    requires Inv(s, zoneSize) && zi < ZONES && ChunkOf(zi) <= Limit(zoneSize)
    ensures ChunkOf(zi) > 0 && Offset(ChunkOf(zi)) + ChunkOf(zi) <= zoneSize && Count(zoneSize) > 0
    ensures Allocated(s, FromPages(s, zi, zoneSize).0, FromPages(s, zi, zoneSize).1, ChunkOf(zi))
  {
    NewZoneUse(zi, zoneSize);
    var n := Count(zoneSize);
    if PageList.Alloc(s.pg.list, n).1.Some? {
      var z := PageList.Alloc(s.pg.list, n).1.page;
      var t := FromPages(s, zi, zoneSize).0;
      TakenPages(s, zoneSize, n, MarkZone(s.usage, z, n), s.large);
      AllocInside(s.pg, n, Pool(s));
      var b := Chunk(z, 0);
      hide Inv, ChunkOf, NewZone, Used, Counted, Offset, PageList.Alloc, PageList.Inv, MarkZone;
      forall x: Block | Live(t, x) ensures Live(s, x) || x == b {}
      forall x: Block | Live(s, x) ensures SameBlock(s, t, x) {}
      assert Gains(s, t, b);
    }
  }

  lemma MallocLargeGains(s: Slab, zoneSize: nat, n: nat)
    requires Inv(s, zoneSize)
    ensures Allocated(s, MallocLarge(s, n).0, MallocLarge(s, n).1, n * PAGE)
  {
    if n > 0 && PageList.Alloc(s.pg.list, n).1.Some? {
      var a := PageList.Alloc(s.pg.list, n).1.page;
      AllocInside(s.pg, n, Pool(s));
      TakenPages(s, zoneSize, n, s.usage[a := Large(n)], s.large + {a});
      var t := MallocLarge(s, n).0;
      var b := Whole(a);
      hide Inv, PageList.Alloc, PageList.Inv, Used;
      forall x: Block | Live(t, x) ensures Live(s, x) || x == b {}
      forall x: Block | Live(s, x) ensures SameBlock(s, t, x) {}
      assert Gains(s, t, b);
    }
  }

  /** rt_malloc keeps the allocator in order and hands out a block that was not in use. */
  lemma MallocKeeps(s: Slab, size: nat, zoneSize: nat)
    requires Inv(s, zoneSize)
    ensures var (t, ptr) := Malloc(s, size, zoneSize);
            && Inv(t, zoneSize) && Allocated(s, t, ptr, size) && (size == 0 ==> ptr.None?)
  {
    hide PageList.Inv, ZonePages, ZoneBook, LargeOk, ListOk, SpareOk, Allocated, Counted;
    if size == 0 {
      Nothing(s, size);
    } else if size >= Limit(zoneSize) {
      RoundUpIs(size, PAGE);
      var n := RoundUp(size, PAGE) / PAGE;
      assert n * PAGE >= size;
      MallocLargeInv(s, zoneSize, n);
      MallocLargeGains(s, zoneSize, n);
      Enough(s, MallocLarge(s, n).0, MallocLarge(s, n).1, n * PAGE, size);
    } else {
      ZoneIndexFits(size);
      BelowLimit(size, zoneSize);
      var zi := ZoneIndex(size).1;
      hide ZoneIndex, ChunkOf;
      if s.lists[zi] != [] {
        FromZoneInv(s, zoneSize, zi);
        FromZoneGains(s, zoneSize, zi);
        Enough(s, FromZone(s, zi).0, FromZone(s, zi).1, ChunkOf(zi), size);
      } else if s.spare != [] {
        FromSpareInv(s, zoneSize, zi);
        FromSpareGains(s, zoneSize, zi);
        Enough(s, FromSpare(s, zi, zoneSize).0, FromSpare(s, zi, zoneSize).1, ChunkOf(zi), size);
      } else {
        FromPagesInv(s, zoneSize, zi);
        FromPagesGains(s, zoneSize, zi);
        Enough(s, FromPages(s, zi, zoneSize).0, FromPages(s, zi, zoneSize).1, ChunkOf(zi), size);
      }
    }
  }

  lemma Nothing(s: Slab, size: nat)
    ensures Allocated(s, s, PageList.None, size)
  {
  }

  lemma Enough(s: Slab, t: Slab, ptr: PageList.Option, more: nat, size: nat)
    requires Allocated(s, t, ptr, more) && size <= more
    ensures Allocated(s, t, ptr, size)
  {
  }

  /** The chunk size of a request below the limit is at most the limit. */
  lemma BelowLimit(size: nat, zoneSize: nat)
    requires 0 < size < Limit(zoneSize) && ZoneSize(zoneSize)
    ensures 0 <= ZoneIndex(size).1 < ZONES && ChunkOf(ZoneIndex(size).1) <= Limit(zoneSize)
  {
    ZoneIndexFits(size);
  }

  /** rt_free keeps the allocator in order; exactly the freed block is no longer in use. */
  lemma FreeKeeps(s: Slab, b: Block, zoneSize: nat)
    requires Inv(s, zoneSize) && Live(s, b)
    ensures Inv(Free(s, b, zoneSize), zoneSize)
    ensures Gains(Free(s, b, zoneSize), s, b)
  {
    match b
    case Whole(a) =>
      FreeLargeInv(s, zoneSize, a);
      FreeLargeGains(s, zoneSize, a);
    case Chunk(z, k) =>
      ReturnedInv(s, zoneSize, z, k);
      ReturnedGains(s, zoneSize, z, k);
      var t := Returned(s, z, k);
      ReturnedList(s, zoneSize, z, k);
      if t.zones[z].nfree == t.zones[z].nmax && |t.lists[t.zones[z].index]| > 1 {
        RetiredInv(t, zoneSize, z);
        RetiredSame(t, zoneSize, z);
        GainsSame(s, t, Retired(t, z, t.zones[z].index, zoneSize), b);
      }
      hide PageList.Inv, ZonePages, ZoneBook, LargeOk, ListOk, SpareOk, Returned, Retired, Gains, Counted;
      ZoneIs(s, zoneSize, z);
  }

  lemma FreeLargeGains(s: Slab, zoneSize: nat, a: nat)
    requires Inv(s, zoneSize) && Live(s, Whole(a))
    ensures Gains(Free(s, Whole(a), zoneSize), s, Whole(a))
  {
    LargeIs(s, zoneSize, a);
    var t := Free(s, Whole(a), zoneSize);
    var b := Whole(a);
    forall x | x in s.large ensures x in s.pg.live { assert LargeOk(s.pg, s.usage, x); }
    hide Inv, PageList.Release, Used;
    forall x: Block | Live(t, x) ensures SameBlock(t, s, x) {}
    forall x: Block | Live(s, x) ensures Live(t, x) || x == b {}
  }

  lemma ReturnedGains(s: Slab, zoneSize: nat, z: nat, k: nat)
    requires Inv(s, zoneSize) && Live(s, Chunk(z, k))
    ensures s.zones[z].index < |s.lists| && Gains(Returned(s, z, k), s, Chunk(z, k))
  {
    ZoneIs(s, zoneSize, z);
    GiveKeeps(s.zones[z], k);
    var t := Returned(s, z, k);
    hide Inv, Used, Counted;
    forall x: Block | Live(t, x) ensures SameBlock(t, s, x) {}
    forall x: Block | Live(s, x) ensures Live(t, x) || x == Chunk(z, k) {}
  }

  lemma ReturnedList(s: Slab, zoneSize: nat, z: nat, k: nat)
    requires Inv(s, zoneSize) && Live(s, Chunk(z, k))
    ensures s.zones[z].index < |s.lists| && z in Returned(s, z, k).zones && z !in Returned(s, z, k).spare
  {
    ZoneIs(s, zoneSize, z);
    WhereListed(s, zoneSize, z);
    CountSays(s.zones[z]);
  }

  lemma RetiredSame(s: Slab, zoneSize: nat, z: nat)
    requires Inv(s, zoneSize) && z in s.zones && z !in s.spare && s.zones[z].nfree == s.zones[z].nmax
    ensures s.zones[z].index < |s.lists|
    ensures forall x :: Live(Retired(s, z, s.zones[z].index, zoneSize), x) ==>
            SameBlock(Retired(s, z, s.zones[z].index, zoneSize), s, x)
    ensures forall x :: Live(s, x) ==> Live(Retired(s, z, s.zones[z].index, zoneSize), x)
  {
    ZoneIs(s, zoneSize, z);
    CountSays(s.zones[z]);
    var t := Retired(s, z, s.zones[z].index, zoneSize);
    hide Inv, Used, Counted, PageList.Release;
    forall x: Block | Live(t, x) ensures SameBlock(t, s, x) {}
    forall x: Block | Live(s, x) ensures Live(t, x) {}
  }

  lemma GainsSame(s: Slab, t: Slab, u: Slab, b: Block)
    requires Gains(t, s, b)
    requires forall x :: Live(u, x) ==> SameBlock(u, t, x)
    requires forall x :: Live(t, x) ==> Live(u, x)
    ensures Gains(u, s, b)
  {
    hide Live, Start, Size;
    forall x | Live(u, x) ensures SameBlock(u, s, x) {
      assert SameBlock(u, t, x) && SameBlock(t, s, x);
    }
  }

  // ---------- isolation ----------

  /** Where a block lies: inside the pages that its zone or the block itself has taken. */
  lemma BlockInside(s: Slab, zoneSize: nat, b: Block)
    requires Inv(s, zoneSize) && Live(s, b)
    ensures b.page in s.pg.live && s.pg.live[b.page] > 0
    ensures b.page * PAGE <= Start(s, b) && Start(s, b) + Size(s, b) <= (b.page + s.pg.live[b.page]) * PAGE
    ensures b.page + s.pg.live[b.page] <= |s.usage|
  {
    assert PageList.Inv(s.pg, Pool(s)) && ZoneSize(zoneSize);
    match b
    case Whole(a) =>
      LargeIs(s, zoneSize, a);
      hide Inv, PageList.Inv;
      LastPage(s.pg, a, Pool(s));
      Distribute(a, s.pg.live[a], PAGE);
    case Chunk(z, k) =>
      ZoneIs(s, zoneSize, z);
      ZoneInside(s, zoneSize, z, k);
  }

  lemma ZoneInside(s: Slab, zoneSize: nat, z: nat, k: nat)
    requires PageList.Inv(s.pg, Pool(s)) && ZoneSize(zoneSize) && z in s.zones && Used(s.zones[z], k)
    requires ZonePages(s.pg, s.usage, s.large, zoneSize, z) && Counted(s.zones[z]) && Fits(s.zones[z], zoneSize)
    ensures s.pg.live[z] > 0 && z + s.pg.live[z] <= |s.usage|
    ensures z * PAGE <= Start(s, Chunk(z, k))
            && Start(s, Chunk(z, k)) + Size(s, Chunk(z, k)) <= (z + s.pg.live[z]) * PAGE
  {
    var zone := s.zones[z];
    ChunkInside(zone, zoneSize, k);
    LastPage(s.pg, z, Pool(s));
    hide PageList.Inv, Fits, Counted, Used;
    Box(z, zone.off + k * zone.chunk, zone.chunk, Count(zoneSize));
  }

  lemma Box(z: nat, d: nat, c: nat, n: nat)
    requires d + c <= n * PAGE
    ensures z * PAGE + d + c <= (z + n) * PAGE
    ensures c > 0 ==> (z * PAGE + d) / PAGE == z + d / PAGE && d / PAGE < n
  {
    Distribute(z, n, PAGE);
    AddMultiple(d, z, PAGE);
  }

  lemma ChunkInside(zone: Zone, zoneSize: nat, k: nat)
    requires Counted(zone) && Fits(zone, zoneSize) && Used(zone, k)
    ensures k < zone.nmax && zone.off + k * zone.chunk + zone.chunk <= zoneSize
  {
    Scale(k + 1, zone.nmax, zone.chunk);
    Distribute(k, 1, zone.chunk);
  }

  lemma LastPage(pg: PageList.State, a: nat, pool: PageList.Run)
    requires PageList.Inv(pg, pool) && a in pg.live
    ensures pg.live[a] > 0 && pool.start <= a && a + pg.live[a] <= pool.End()
  {
    assert PageList.Within(pg.live, a, a) && PageList.Within(pg.live, a, a + pg.live[a] - 1);
  }

  lemma PagesApart(pg: PageList.State, a: nat, b: nat, pool: PageList.Run)
    requires PageList.Inv(pg, pool) && a in pg.live && b in pg.live && a < b
    ensures a + pg.live[a] <= b
  {
    assert pg.live[b] > 0;
    assert PageList.Within(pg.live, b, b);
    assert b < a + pg.live[a] ==> PageList.Within(pg.live, a, b);
  }

  ghost predicate Apart(s: Slab, b: Block, c: Block)
    requires Live(s, b) && Live(s, c)
  {
    Start(s, b) + Size(s, b) <= Start(s, c) || Start(s, c) + Size(s, c) <= Start(s, b)
  }

  /** No two blocks in use share a byte. */
  lemma BlocksApart(s: Slab, zoneSize: nat, b: Block, c: Block)
    requires Inv(s, zoneSize) && Live(s, b) && Live(s, c) && b != c
    ensures Apart(s, b, c)
  {
    BlockInside(s, zoneSize, b);
    BlockInside(s, zoneSize, c);
    if b.page < c.page {
      PagesApart(s.pg, b.page, c.page, Pool(s));
      Scale(b.page + s.pg.live[b.page], c.page, PAGE);
    } else if c.page < b.page {
      PagesApart(s.pg, c.page, b.page, Pool(s));
      Scale(c.page + s.pg.live[c.page], b.page, PAGE);
    } else {
      assert b.page in s.zones ==> ZonePages(s.pg, s.usage, s.large, zoneSize, b.page);
      var zone := s.zones[b.page];
      assert ZoneBook(zone, zoneSize, s.lists, s.spare, b.page);
      ChunkInside(zone, zoneSize, b.k);
      ChunkInside(zone, zoneSize, c.k);
      if b.k < c.k { ChunksApart(zone, zoneSize, b.k, c.k); } else { ChunksApart(zone, zoneSize, c.k, b.k); }
    }
  }

  /** From the address of a block in use, the page table leads back to that block. */
  lemma FindsBlock(s: Slab, zoneSize: nat, b: Block)
    requires Inv(s, zoneSize) && Live(s, b)
    ensures Start(s, b) / PAGE < |s.usage| && Find(s, Start(s, b)) == b
    ensures match b
            case Whole(a) => a == Start(s, b) / PAGE && s.usage[a].Large?
            case Chunk(z, k) =>
              && z in s.zones && z <= Start(s, b) / PAGE && s.usage[Start(s, b) / PAGE] == Small(Start(s, b) / PAGE - z)
              && s.zones[z].chunk > 0 && Start(s, b) >= z * PAGE + s.zones[z].off
                 && ChunkNumber(Start(s, b), z, s.zones[z]) == k
  {
    BlockInside(s, zoneSize, b);
    assert ZoneSize(zoneSize);
    var ptr := Start(s, b);
    match b
    case Whole(a) =>
      LargeIs(s, zoneSize, a);
      hide Inv;
      Multiple(a, PAGE);
    case Chunk(z, k) =>
      ZoneIs(s, zoneSize, z);
      var zone := s.zones[z];
      ChunkInside(zone, zoneSize, k);
      assert zone.chunk > 0;
      hide Inv, Fits, Used, Counted;
      hide Find;
      Multiple(k, zone.chunk);
      var r := k * zone.chunk;
      Box(z, zone.off + r, zone.chunk, Count(zoneSize));
      assert Marked(s.usage, z, (zone.off + r) / PAGE);
      FindChunk(s, ptr, z, r);
  }

  lemma FindChunk(s: Slab, ptr: nat, z: nat, r: nat)
    requires z in s.zones && s.zones[z].chunk > 0 && ptr == z * PAGE + s.zones[z].off + r
    requires z <= ptr / PAGE < |s.usage| && s.usage[ptr / PAGE] == Small(ptr / PAGE - z)
    ensures Find(s, ptr) == Chunk(z, r / s.zones[z].chunk)
  {
  }

  // ---------- alignment ----------

  lemma {:induction false} SmallPowers(c: nat)
    requires PowerOfTwo(c) && c <= 8192
    ensures c == 1 || c == 2 || c == 4 || c == 8 || c == 16 || c == 32 || c == 64 || c == 128 || c == 256 || c == 512
         || c == 1024 || c == 2048 || c == 4096 || c == 8192
  {
    if c > 1 { SmallPowers(c / 2); }
  }

  lemma SizeIsChunk(size: nat, j: nat)
    requires j < ZONES && ChunkOf(j) == size < ZONE_LIMIT
    ensures ZoneIndex(size).0 == size
  {
    ChunkPositive(j);
    ZoneIndexFits(size);
    var i := ZoneIndex(size).1;
    if i < j { ChunkOrder(i, j); } else if j < i {
      ChunkOrder(j, i);
      if j < i - 1 { ChunkOrder(j, i - 1); }
    }
  }

  lemma ChunkPositive(j: nat)
    requires j < ZONES
    ensures ChunkOf(j) > 0
  {
  }

  /** The powers of two from 8 to the limit are chunk sizes; smaller ones get chunks of 8. */
  lemma PowerIsChunk(size: nat)
    requires PowerOfTwo(size) && size <= 8192
    ensures var c := ZoneIndex(size).0; c == (if size < MIN_CHUNK then MIN_CHUNK else size) && PowerOfTwo(c)
  {
    SmallPowers(size);
    if size < MIN_CHUNK {
      assert ZoneIndex(1).0 == ZoneIndex(2).0 == ZoneIndex(4).0 == MIN_CHUNK && PowerOfTwo(MIN_CHUNK);
    } else {
      hide PowerOfTwo, ZoneIndex;
      var j := if size == 8 then 0 else if size == 16 then 1 else if size == 32 then 3 else if size == 64 then 7
               else if size == 128 then 15 else if size == 256 then 23 else if size == 512 then 31
               else if size == 1024 then 39 else if size == 2048 then 47 else if size == 4096 then 55 else 63;
      SizeIsChunk(size, j);
    }
  }

  predicate Aligned(p: nat, c: nat) {
    c > 0 && p % c == 0
  }

  /** The address of an offset in a heap that begins at page `base` of the memory. */
  function Absolute(base: nat, ptr: nat): nat {
    base * PAGE + ptr
  }

  /** Whether page `page` begins at a multiple of `size`. */
  predicate PageFits(page: nat, size: nat) {
    size <= PAGE || (size / PAGE > 0 && page % (size / PAGE) == 0)
  }

  lemma PageAligned(page: nat, size: nat)
    requires PowerOfTwo(size)
    ensures Aligned(page * PAGE, size) <==> PageFits(page, size)
  {
    assert PowerOfTwo(PAGE);
    if size <= PAGE {
      PowerCases(size, PAGE);
      PagesMultiple(page, size);
    } else {
      PowerCases(PAGE, size);
      ScaledMultiple(page, size / PAGE, PAGE);
    }
  }

  lemma AddressAligned(base: nat, z: nat, zone: Zone, zoneSize: nat, k: nat)
    requires Fits(zone, zoneSize) && PowerOfTwo(zone.chunk)
    ensures Aligned(Absolute(base, Address(z, zone, k)), zone.chunk) <==> PageFits(base + z, zone.chunk)
  {
    ChunkAligned(zone, zoneSize, base + z, k);
    Distribute(base, z, PAGE);
    PageAligned(base + z, zone.chunk);
  }

  /** The page from which a request is served, as it can be read from the lists before the call: that of
      the first zone on the list of the chunk size, of the first spare zone, or the start of the lowest
      run of free pages that is long enough. */
  function Serving(s: Slab, size: nat, zoneSize: nat): nat
    requires |s.lists| == ZONES && ZoneSize(zoneSize) && size > 0
  {
    if size >= Limit(zoneSize) then PageList.LowestRun(s.pg.list, RoundUp(size, PAGE) / PAGE)
    else
      BelowLimit(size, zoneSize);
      var l := s.lists[ZoneIndex(size).1];
      if l != [] then l[0] else if s.spare != [] then s.spare[0] else PageList.LowestRun(s.pg.list, Count(zoneSize))
  }

  lemma FromZoneAligned(s: Slab, zoneSize: nat, zi: nat, base: nat)
    requires Inv(s, zoneSize) && zi < ZONES && s.lists[zi] != [] && PowerOfTwo(ChunkOf(zi))
    ensures s.lists[zi][0] in s.zones && Counted(s.zones[s.lists[zi][0]]) && s.zones[s.lists[zi][0]].nfree > 0
    ensures FromZone(s, zi).1.Some?
    ensures Aligned(Absolute(base, FromZone(s, zi).1.page), ChunkOf(zi)) <==>
            PageFits(base + s.lists[zi][0], ChunkOf(zi))
  {
    FirstOnList(s, zoneSize, zi);
    var z := s.lists[zi][0];
    var (zone, k) := TakeChunk(s.zones[z]);
    assert Fits(zone, zoneSize) && zone.chunk == ChunkOf(zi);
    hide Inv, ChunkOf, PowerOfTwo, Aligned, Address, Counted, Fits, PageFits, Absolute;
    AddressAligned(base, z, zone, zoneSize, k);
  }

  lemma NewZoneAligned(s: Slab, zoneSize: nat, zi: nat, base: nat)
    requires Inv(s, zoneSize) && zi < ZONES && PowerOfTwo(ChunkOf(zi)) && ChunkOf(zi) <= Limit(zoneSize)
    ensures ChunkOf(zi) > 0 && Offset(ChunkOf(zi)) + ChunkOf(zi) <= zoneSize && Count(zoneSize) > 0
    ensures s.spare != [] ==>
              (Aligned(Absolute(base, FromSpare(s, zi, zoneSize).1.page), ChunkOf(zi)) <==>
                  PageFits(base + s.spare[0], ChunkOf(zi)))
    ensures var ptr := FromPages(s, zi, zoneSize).1;
            ptr.Some? ==>
              (Aligned(Absolute(base, ptr.page), ChunkOf(zi)) <==>
                  PageFits(base + PageList.LowestRun(s.pg.list, Count(zoneSize)), ChunkOf(zi)))
  {
    NewZoneIs(zi, zoneSize);
    var zone := NewZone(zi, ChunkOf(zi), zoneSize);
    assert zone.chunk == ChunkOf(zi) && Count(zoneSize) > 0;
    PageList.AllocAtLowestRun(s.pg.list, Count(zoneSize));
    var a := PageList.Alloc(s.pg.list, Count(zoneSize)).1;
    hide Inv, ChunkOf, PowerOfTwo, Aligned, Address, Offset, NewZone, Fits, Counted, PageFits, Absolute;
    if s.spare != [] { AddressAligned(base, s.spare[0], zone, zoneSize, 0); }
    if a.Some? { AddressAligned(base, a.page, zone, zoneSize, 0); }
  }

  lemma LargeAligned(s: Slab, n: nat, size: nat, base: nat)
    requires PageList.Inv(s.pg, Pool(s)) && PowerOfTwo(size)
    ensures var ptr := MallocLarge(s, n).1;
            ptr.Some? ==>
                (Aligned(Absolute(base, ptr.page), size) <==> PageFits(base + PageList.LowestRun(s.pg.list, n), size))
  {
    if n > 0 {
      PageList.AllocAtLowestRun(s.pg.list, n);
      var a := PageList.LowestRun(s.pg.list, n);
      Distribute(base, a, PAGE);
      PageAligned(base + a, size);
    }
  }

  lemma AlignedDown(p: nat, size: nat)
    requires PowerOfTwo(size) && size <= MIN_CHUNK && Aligned(p, MIN_CHUNK)
    ensures Aligned(p, size)
  {
    assert PowerOfTwo(MIN_CHUNK);
    PowerCases(size, MIN_CHUNK);
    MultipleOf(p, MIN_CHUNK, size);
  }

  /** A request below the limit: its chunk is aligned when the page that serves it is. */
  lemma ChunkRequest(s: Slab, size: nat, zoneSize: nat, base: nat)
    requires Inv(s, zoneSize) && 0 < size < Limit(zoneSize) && PowerOfTwo(ZoneIndex(size).0)
    ensures var (ptr, c) := (Malloc(s, size, zoneSize).1, ZoneIndex(size).0);
            ptr.Some? ==> (Aligned(Absolute(base, ptr.page), c) <==> PageFits(base + Serving(s, size, zoneSize), c))
  {
    ZoneIndexFits(size);
    BelowLimit(size, zoneSize);
    var zi := ZoneIndex(size).1;
    hide PowerOfTwo, Aligned, Absolute, PageFits, ZoneIndex, ChunkOf, Offset, NewZone, FromZone, FromSpare,
        FromPages, Counted, Limit;
    NewZoneAligned(s, zoneSize, zi, base);
    if s.lists[zi] != [] { FromZoneAligned(s, zoneSize, zi, base); }
    hide Inv;
  }

  /** When a request for a power of two is aligned to its size: always up to a page, and beyond a page
      exactly when the page that serves it is. */
  lemma PowerAligned(s: Slab, size: nat, zoneSize: nat, base: nat)
    requires Inv(s, zoneSize) && PowerOfTwo(size)
    ensures var ptr := Malloc(s, size, zoneSize).1;
            ptr.Some? ==>
              (Aligned(Absolute(base, ptr.page), size) <==>
               size <= PAGE || (base + Serving(s, size, zoneSize)) % (size / PAGE) == 0)
  {
    var page := base + Serving(s, size, zoneSize);
    var ptr := Malloc(s, size, zoneSize).1;
    assert PageFits(page, size) <==> size <= PAGE || page % (size / PAGE) == 0;
    hide PowerOfTwo, Aligned, Absolute, PageFits;
    if size >= Limit(zoneSize) {
      LargeAligned(s, RoundUp(size, PAGE) / PAGE, size, base);
    } else {
      LimitPower(size, zoneSize);
      PowerIsChunk(size);
      ChunkRequest(s, size, zoneSize, base);
      hide Malloc, Serving, ZoneIndex;
      if size < MIN_CHUNK {
        SmallFits(page, size);
        if ptr.Some? { AlignedDown(Absolute(base, ptr.page), size); }
      }
    }
  }

  lemma SmallFits(page: nat, size: nat)
    requires size <= MIN_CHUNK
    ensures PageFits(page, size) && PageFits(page, MIN_CHUNK)
  {
  }

  lemma LimitPower(size: nat, zoneSize: nat)
    requires PowerOfTwo(size) && size < Limit(zoneSize) && ZoneSize(zoneSize)
    ensures 0 < size <= 8192
  {
    if size > 8192 { PowerCases(8192, size); }
  }

  /** A fresh heap is in order, with the page table at its start. */
  lemma FreshInv(usage: seq<Usage>, zoneSize: nat)
    requires usage != [] && ZoneSize(zoneSize)
    ensures Inv(Fresh(usage), zoneSize)
    ensures PageList.Alloc([PageList.Run(0, |usage|)], TablePages(|usage|)).1 == PageList.Some(0)
  {
    var npages := |usage|;
    var pool := PageList.Run(0, npages);
    RoundUpIs(npages * USAGE, PAGE);
    TablePositive(npages);
    assert [pool][1..] == [];
    PageList.RunConserves(pool, []);
    var s := PageList.State([pool], map[]);
    assert PageList.Steps(s, []) == s;
    PageList.StepInv(s, PageList.AllocPages(TablePages(npages)), pool);
    hide PageList.Inv;
  }

  /** Beyond a page a request need not be aligned: the first request for 8192 bytes in a fresh heap of up
      to 1024 pages is served behind the page table, at address 4096 of the heap, so it is aligned
      exactly when the heap begins at an odd page. */
  lemma NotAlignedBeyondPage(usage: seq<Usage>, zoneSize: nat, base: nat)
    requires 3 <= |usage| <= 1024 && ZoneSizeFor(zoneSize, |usage| * PAGE)
    ensures Inv(Fresh(usage), zoneSize)
    ensures Malloc(Fresh(usage), 8192, zoneSize).1 == PageList.Some(4096)
    ensures Aligned(Absolute(base, 4096), 8192) <==> base % 2 == 1
  {
    FreshInv(usage, zoneSize);
    var s := Fresh(usage);
    OnePage(|usage| * USAGE);
    assert s.pg.list == [PageList.Run(1, |usage| - 1)];
    OnePage(8192 - PAGE);
    Multiple(2, PAGE);
    assert RoundUp(8192, PAGE) / PAGE == 2;
    assert Absolute(base, 4096) == (base + 1) * PAGE;
    ScaledMultiple(base + 1, 2, PAGE);
  }

  lemma OnePage(n: nat)
    requires 0 < n <= PAGE
    ensures RoundUp(n, PAGE) / PAGE == 1
  {
    RoundUpIs(n, PAGE);
  }

  // ---------- runs ----------

  datatype Action = Alloc(size: nat) | Release(ptr: nat)

  /** rt_free is given the address of a block in use. */
  ghost predicate Enabled(s: Slab, a: Action) {
    match a
    case Alloc(_) => true
    case Release(ptr) => ptr / PAGE < |s.usage| && Live(s, Find(s, ptr)) && Start(s, Find(s, ptr)) == ptr
  }

  ghost function Step(s: Slab, a: Action, zoneSize: nat): Slab
    requires Inv(s, zoneSize) && Enabled(s, a)
  {
    match a
    case Alloc(size) => Malloc(s, size, zoneSize).0
    case Release(ptr) => Free(s, Find(s, ptr), zoneSize)
  }

  lemma StepKeeps(s: Slab, a: Action, zoneSize: nat)
    requires Inv(s, zoneSize) && Enabled(s, a)
    ensures Inv(Step(s, a, zoneSize), zoneSize)
  {
    match a
    case Alloc(size) => MallocKeeps(s, size, zoneSize);
    case Release(ptr) => FreeKeeps(s, Find(s, ptr), zoneSize);
  }

  ghost predicate Run(ss: seq<Slab>, acts: seq<Action>, zoneSize: nat) {
    |ss| == |acts| + 1 && Inv(ss[0], zoneSize) && forall k :: 0 <= k < |acts| ==> Follows(ss, acts, zoneSize, k)
  }

  ghost predicate Follows(ss: seq<Slab>, acts: seq<Action>, zoneSize: nat, k: int)
    requires 0 <= k < |acts| && |ss| == |acts| + 1
  {
    Inv(ss[k], zoneSize) ==> Enabled(ss[k], acts[k]) && ss[k + 1] == Step(ss[k], acts[k], zoneSize)
  }

  /** In every run the counts of every zone agree, zones are listed as they should be, pages are
      conserved, and no two blocks in use share a byte. */
  lemma {:induction false} RunIsolation(ss: seq<Slab>, acts: seq<Action>, zoneSize: nat, k: nat)
    requires Run(ss, acts, zoneSize) && k <= |acts|
    ensures Inv(ss[k], zoneSize)
    ensures forall b, c :: Live(ss[k], b) && Live(ss[k], c) && b != c ==> Apart(ss[k], b, c)
  {
    if k > 0 {
      RunIsolation(ss, acts, zoneSize, k - 1);
      assert Follows(ss, acts, zoneSize, k - 1);
      StepKeeps(ss[k - 1], acts[k - 1], zoneSize);
    }
    hide Inv, Live, Apart;
    forall b, c | Live(ss[k], b) && Live(ss[k], c) && b != c ensures Apart(ss[k], b, c) {
      BlocksApart(ss[k], zoneSize, b, c);
    }
  }
}
