/** The slab allocator object: the tables of slab.c above the page allocator. */
module Slab {
  import opened Arith
  import opened Lists
  import opened SlabZone
  import opened SlabSpec
  import opened SlabTheorems
  import PageList
  import Pages

  class Slab {
    const pages: Pages.Pages
    const usage: array<Usage>        // memusage
    const lists: array<seq<nat>>     // zone_array
    var zones: map<nat, Zone>        // the zone headers, by their first page
    var spare: seq<nat>              // zone_free
    const zoneSize: nat
    ghost var live: map<nat, nat>
    ghost var large: set<nat>

    ghost function View(): SlabSpec.Slab
      reads this, pages, usage, lists
    {
      SlabSpec.Slab(PageList.State(pages.runs, live), usage[..], zones, large, lists[..], spare)
    }

    ghost predicate Valid()
      reads this, pages, pages.next, pages.count, usage, lists
    {
      && pages.Valid() && Inv(View(), zoneSize) && usage.Length == pages.next.Length
      && Separate()
    }

    /** The tables do not overlap. */
    ghost predicate Separate()
      reads this, pages
    {
      && (usage as object) != lists && (usage as object) != pages.next && (usage as object) != pages.count
      && (lists as object) != pages.next && (lists as object) != pages.count
    }

    /** rt_system_heap_init of a heap of whole pages.  The page table comes first. */
    constructor (npages: nat)
      requires npages > 0
      ensures Valid() && usage.Length == npages && View() == Fresh(usage[..]) && ZoneSizeFor(zoneSize, npages * PAGE)
    {
      var chosen := ChooseZoneSize(npages * PAGE);
      zoneSize := chosen;
      pages := new Pages.Pages(npages);
      lists := new seq<nat>[ZONES](_ => []);
      usage := new Usage[npages];
      zones, spare, live, large := map[], [], map[], {};
      new;
      var m := RoundUp(npages * USAGE, PAGE) / PAGE;
      TablePositive(npages);
      FreshInv(usage[..], zoneSize);
      var a := pages.AllocPages(m);
      live := map[a.page := m];
      hide Inv, PageList.Alloc;
      assert lists[..] == Fresh(usage[..]).lists;
    }

    /** The chunk taken from a zone, whose header is updated in place. */
    method Take(z: nat) returns (k: nat)
      requires z in zones && Counted(zones[z]) && zones[z].nfree > 0
      modifies `zones
      ensures k == TakeChunk(old(zones)[z]).1 && zones == old(zones)[z := TakeChunk(old(zones)[z]).0]
    {
      var zone := zones[z];
      zone := zone.(nfree := zone.nfree - 1);
      if zone.uindex + 1 != zone.nmax {
        zone := zone.(uindex := zone.uindex + 1);
        k := zone.uindex;
      } else {
        k := zone.freed[0];
        zone := zone.(freed := zone.freed[1..]);
      }
      zones := zones[z := zone];
    }

    /** The loop that marks the pages of a zone. */
    method Mark(z: nat, n: nat)
      requires z + n <= usage.Length
      modifies usage
      ensures usage[..] == MarkZone(old(usage[..]), z, n)
    {
      for off := 0 to n
        invariant forall p :: 0 <= p < usage.Length ==>
                    usage[p] == if z <= p < z + off then Small(p - z) else old(usage[p])
      {
        usage[z + off] := Small(off);
      }
    }

    method Unmark(z: nat, n: nat)
      requires z + n <= usage.Length
      modifies usage
      ensures usage[..] == UnmarkZone(old(usage[..]), z, n)
    {
      for i := 0 to n
        invariant forall p :: 0 <= p < usage.Length ==> usage[p] == if z <= p < z + i then Unused else old(usage[p])
      {
        usage[z + i] := Unused;
      }
    }

    /** rt_malloc */
    method Allocate(size: nat) returns (ptr: PageList.Option)
      requires Valid()
      modifies this, usage, lists, pages, pages.next, pages.count
      ensures Valid() && (View(), ptr) == Malloc(old(View()), size, zoneSize)
    {
      MallocKeeps(View(), size, zoneSize);
      if size == 0 { return PageList.None; }
      hide PageList.Inv, ZonePages, ZoneBook, LargeOk, ListOk, SpareOk, Allocated;
      if size >= Limit(zoneSize) {
        ptr := AllocateLarge(RoundUp(size, PAGE) / PAGE);
        return;
      }
      ZoneIndexFits(size);
      var zi := ZoneIndex(size).1;
      BelowLimit(size, zoneSize);
      NewZoneFits(zi, zoneSize);
      hide ZoneIndex, ChunkOf, Fits, Counted, Used;
      if lists[zi] != [] {
        FirstOnList(View(), zoneSize, zi);
        ptr := AllocateFromZone(zi);
      } else {
        ptr := AllocateNewZone(zi);
      }
    }

    method AllocateLarge(n: nat) returns (ptr: PageList.Option)
      requires Valid()
      modifies this, usage, pages, pages.next, pages.count
      ensures (View(), ptr) == MallocLarge(old(View()), n) && pages.Valid()
    {
      hide ZonePages, ZoneBook, LargeOk, ListOk, SpareOk;
      ghost var s := View();
      if n > 0 { PageList.AllocKeeps(s.pg.list, n); }
      var a := pages.AllocPages(n);
      if n == 0 || a.None? {
        return PageList.None;
      }
      AllocInside(old(View()).pg, n, Pool(old(View())));
      usage[a.page] := Large(n);
      live, large := live[a.page := n], large + {a.page};
      return PageList.Some(a.page * PAGE);
    }

    method AllocateFromZone(zi: nat) returns (ptr: PageList.Option)
      requires zi < lists.Length && lists[zi] != [] && lists[zi][0] in zones
      requires Counted(zones[lists[zi][0]]) && zones[lists[zi][0]].nfree > 0
      modifies `zones, lists
      ensures (View(), ptr) == FromZone(old(View()), zi)
    {
      hide Counted;
      var z := lists[zi][0];
      var k := Take(z);
      if zones[z].nfree == 0 {
        lists[zi] := lists[zi][1..];
      }
      return PageList.Some(Address(z, zones[z], k));
    }

    method AllocateNewZone(zi: nat) returns (ptr: PageList.Option)
      requires Valid() && zi < lists.Length && ChunkOf(zi) > 0 && Offset(ChunkOf(zi)) + ChunkOf(zi) <= zoneSize
      modifies this, usage, lists, pages, pages.next, pages.count
      ensures (View(), ptr) == if old(spare) != [] then FromSpare(old(View()), zi, zoneSize)
              else FromPages(old(View()), zi, zoneSize)
      ensures pages.Valid()
    {
      hide ZonePages, ZoneBook, LargeOk, ListOk, SpareOk, NewZone, MarkZone;
      var z;
      if spare != [] {
        z := spare[0];
        spare := spare[1..];
      } else {
        var n := zoneSize / PAGE;
        PageList.AllocKeeps(pages.runs, n);
        var a := pages.AllocPages(n);
        if a.None? { return PageList.None; }
        AllocInside(old(View()).pg, n, Pool(old(View())));
        z := a.page;
        Mark(z, n);
        live := live[z := n];
      }
      var zone := NewZone(zi, ChunkOf(zi), zoneSize);
      zones := zones[z := zone];
      lists[zi] := [z] + lists[zi];
      return PageList.Some(Address(z, zone, 0));
    }

    /** rt_free of the address of a block in use. */
    method Deallocate(ptr: nat, ghost b: Block)
      requires Valid() && Live(View(), b) && Start(View(), b) == ptr
      modifies this, usage, lists, pages, pages.next, pages.count
      ensures Valid() && View() == Free(old(View()), b, zoneSize)
    {
      hide Inv, Free, Live, Start, Find, ChunkNumber, Gains, Pages.Rep, PageList.Canonical;
      FreeKeeps(View(), b, zoneSize);
      FindsBlock(View(), zoneSize, b);
      var p := ptr / PAGE;
      match usage[p]
      case Large(_) => DeallocateLarge(p);
      case Small(off) =>
        var z := p - off;
        DeallocateChunk(z, ChunkNumber(ptr, z, zones[z]));
    }

    method DeallocateLarge(a: nat)
      requires Valid() && Live(View(), Whole(a))
      modifies this, usage, pages, pages.next, pages.count
      ensures View() == Free(old(View()), Whole(a), zoneSize) && pages.Valid()
    {
      ghost var s := View();
      LargeIs(s, zoneSize, a);
      BlockPages(s, zoneSize, a);
      hide ZonePages, ZoneBook, ListOk, SpareOk, PageList.Inv;
      var n := usage[a].pages;
      usage[a] := Large(0);
      pages.FreePages(a, n);
      live, large := live - {a}, large - {a};
    }

    method DeallocateChunk(z: nat, k: nat)
      requires Valid() && Live(View(), Chunk(z, k))
      modifies this, usage, lists, pages, pages.next, pages.count
      ensures View() == Free(old(View()), Chunk(z, k), zoneSize) && pages.Valid()
    {
      ghost var s := View();
      ZoneIs(s, zoneSize, z);
      ReturnedInv(s, zoneSize, z, k);
      ReturnedList(s, zoneSize, z, k);
      hide ZonePages, ZoneBook, LargeOk, ListOk, SpareOk, PageList.Inv, Fits, Counted, Used, Retired;
      var zone := zones[z];
      zones := zones[z := zone.(nfree := zone.nfree + 1, freed := [k] + zone.freed)];
      if zone.nfree == 0 {
        lists[zone.index] := [z] + lists[zone.index];
      }
      assert View() == Returned(s, z, k);
      if zone.nfree + 1 == zone.nmax && |lists[zone.index]| > 1 {
        Retire(z, zone.index);
      }
    }

    /** A zone with no chunk in use becomes spare, or gives its pages back. */
    method Retire(z: nat, zi: nat)
      requires Valid() && z in zones && zones[z].index == zi < lists.Length && z in lists[zi]
      modifies this, usage, lists, pages, pages.next, pages.count
      ensures View() == Retired(old(View()), z, zi, zoneSize) && pages.Valid()
    {
      ghost var s := View();
      ZoneIs(s, zoneSize, z);
      BlockPages(s, zoneSize, z);
      assert |spare| <= SPARE;
      hide ZonePages, ZoneBook, LargeOk, ListOk, SpareOk, PageList.Inv, Fits, Counted, UnmarkZone;
      lists[zi] := Unlink(lists[zi], z);
      spare := [z] + spare;
      if |spare| > SPARE {
        spare := spare[1..];
        assert spare == s.spare;
        var n := zoneSize / PAGE;
        Unmark(z, n);
        pages.FreePages(z, n);
        zones, live := zones - {z}, live - {z};
      }
    }
  }

  /** The zone size grows with the heap. */
  method ChooseZoneSize(bytes: nat) returns (z: nat)
    ensures ZoneSizeFor(z, bytes)
  {
    z := 32768;
    while z < 131072 && 2 * z < bytes / 1024
      invariant ZoneSize(z) && (z > 32768 ==> z < bytes / 1024)
      decreases 131072 - z
    {
      z := 2 * z;
    }
  }

  /** The loop that finds a zone on its list and unlinks it. */
  method Unlink(l: seq<nat>, z: nat) returns (r: seq<nat>)
    requires z in l
    ensures r == Without(l, z)
  {
    var i := 0;
    assert UnlinkAt(l, z, 0) by { assert l[0..] == l && l[..0] + Without(l, z) == Without(l, z); }
    while l[i] != z
      invariant i < |l| && UnlinkAt(l, z, i)
      decreases |l| - i
    {
      UnlinkNext(l, z, i);
      i := i + 1;
    }
    UnlinkNext(l, z, i);
    r := l[..i] + l[i + 1..];
  }

  ghost predicate UnlinkAt(l: seq<nat>, z: nat, i: nat) {
    i <= |l| && z in l[i..] && Without(l, z) == l[..i] + Without(l[i..], z)
  }

  lemma UnlinkNext(l: seq<nat>, z: nat, i: nat)
    requires UnlinkAt(l, z, i) && i < |l|
    ensures if l[i] == z then Without(l, z) == l[..i] + l[i + 1..] else i + 1 < |l| && UnlinkAt(l, z, i + 1)
  {
    var t := l[i..];
    assert t[0] == l[i] && t[1..] == l[i + 1..] && t == [l[i]] + l[i + 1..];
    var w := Without(l[i + 1..], z);
    assert l[..i] + ([l[i]] + w) == l[..i + 1] + w;
  }

  /** The pages of a block in use are not free. */
  lemma BlockPages(s: SlabSpec.Slab, zoneSize: nat, a: nat)
    requires Inv(s, zoneSize) && a in s.pg.live
    ensures s.pg.live[a] > 0 && a + s.pg.live[a] <= |s.usage| && PageList.NoneFree(s.pg.list, a, s.pg.live[a])
  {
    LastPage(s.pg, a, Pool(s));
    forall p | a <= p < a + s.pg.live[a] ensures !PageList.Free(s.pg.list, p) {
      assert PageList.Within(s.pg.live, a, p);
    }
  }
}
