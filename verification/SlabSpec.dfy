/** The slab allocator of slab.c above its page allocator.  Addresses are byte offsets from the start
    of the heap, which is aligned to a page. */
module SlabSpec {
  import opened Arith
  import opened Lists
  import opened SlabZone
  import opened PageList

  /** struct memusage: what a page is used for; the offset in its zone, or the pages of a large block */
  datatype Usage = Unused | Small(off: nat) | Large(pages: nat)

  /** ZONE_RELEASE_THRESH */
  const SPARE: nat := 2

  /** `pg` is the page allocator with the blocks it has given out, `zones` the zone headers by their
      first page, `large` the first pages of large blocks in use, `lists` is zone_array and `spare`
      is zone_free. */
  datatype Slab = Slab(
    pg: PageList.State,
    usage: seq<Usage>,
    zones: map<nat, Zone>,
    large: set<nat>,
    lists: seq<seq<nat>>,
    spare: seq<nat>)

  /** A block in use: chunk `k` of the zone at page `page`, or a block of whole pages. */
  datatype Block = Chunk(page: nat, k: nat) | Whole(page: nat)

  function Count(zoneSize: nat): nat {
    zoneSize / PAGE
  }

  function Pool(s: Slab): Run {
    Run(0, |s.usage|)
  }

  // ---------- a fresh heap ----------

  /** sizeof(struct memusage) */
  const USAGE: nat := 4

  /** The pages of the page table, which come first. */
  function TablePages(npages: nat): nat {
    RoundUp(npages * USAGE, PAGE) / PAGE
  }

  lemma TablePositive(npages: nat)
    requires npages > 0
    ensures TablePages(npages) > 0
  {
    RoundUpIs(npages * USAGE, PAGE);
  }

  /** What rt_system_heap_init leaves.  The page table is as it is found. */
  function Fresh(usage: seq<Usage>): Slab
    requires usage != []
  {
    var m := TablePages(|usage|);
    TablePositive(|usage|);
    Slab(PageList.State(Alloc([Run(0, |usage|)], m).0, map[0 := m]), usage, map[], {}, seq(ZONES, _ => []), [])
  }

  /** The zone size that rt_system_heap_init chooses. */
  predicate ZoneSizeFor(z: nat, bytes: nat) {
    ZoneSize(z) && (z < 131072 ==> 2 * z >= bytes / 1024) && (z > 32768 ==> z < bytes / 1024)
  }

  // ---------- the invariant ----------

  ghost predicate Inv(s: Slab, zoneSize: nat) {
    && ZoneSize(zoneSize) && |s.lists| == ZONES
    && PageList.Inv(s.pg, Pool(s))
    && (forall z :: z in s.zones ==> ZonePages(s.pg, s.usage, s.large, zoneSize, z))
    && (forall z :: z in s.zones ==> ZoneBook(s.zones[z], zoneSize, s.lists, s.spare, z))
    && (forall a :: a in s.large ==> LargeOk(s.pg, s.usage, a))
    && (forall i :: 0 <= i < ZONES ==> ListOk(s.lists[i], i, s.zones))
    && SpareOk(s.spare, s.zones)
  }

  /** A zone has its pages, and they are marked with their offsets. */
  ghost predicate ZonePages(pg: PageList.State, usage: seq<Usage>, large: set<nat>, zoneSize: nat, z: nat) {
    && z in pg.live && pg.live[z] == Count(zoneSize) && z !in large
    && forall o :: 0 <= o < Count(zoneSize) ==> Marked(usage, z, o)
  }

  /** The counts of a zone agree, its chunks fit, and while it has free chunks it is either on the list
      of its index or spare. */
  ghost predicate ZoneBook(zone: Zone, zoneSize: nat, lists: seq<seq<nat>>, spare: seq<nat>, z: nat) {
    && Counted(zone) && Fits(zone, zoneSize) && |lists| == ZONES
    && (zone.nfree > 0 ==> (z in lists[zone.index] <==> z !in spare))
  }

  predicate Marked(usage: seq<Usage>, z: nat, o: nat) {
    z + o < |usage| && usage[z + o] == Small(o)
  }

  ghost predicate LargeOk(pg: PageList.State, usage: seq<Usage>, a: nat) {
    a in pg.live && a < |usage| && usage[a] == Large(pg.live[a])
  }

  /** The zones on a list have its index and free chunks. */
  ghost predicate ListOk(l: seq<nat>, i: nat, zones: map<nat, Zone>) {
    && Distinct(l)
    && forall z :: z in l ==> z in zones && zones[z].index == i && zones[z].nfree > 0
  }

  /** At most two zones are spare, and no chunk of them is in use. */
  ghost predicate SpareOk(l: seq<nat>, zones: map<nat, Zone>) {
    && |l| <= SPARE && Distinct(l)
    && forall z :: z in l ==> z in zones && zones[z].nfree == zones[z].nmax
  }

  // ---------- operations ----------

  /** rt_malloc */
  function Malloc(s: Slab, size: nat, zoneSize: nat): (Slab, Option)
    requires Inv(s, zoneSize)
  {
    if size == 0 then (s, None)
    else if size >= Limit(zoneSize) then MallocLarge(s, RoundUp(size, PAGE) / PAGE)
    else
      ZoneIndexFits(size);
      var (chunk, zi) := ZoneIndex(size);
      if s.lists[zi] != [] then
        FirstOnList(s, zoneSize, zi);
        FromZone(s, zi)
      else if s.spare != [] then
        NewZoneFits(zi, zoneSize);
        FromSpare(s, zi, zoneSize)
      else
        NewZoneFits(zi, zoneSize);
        FromPages(s, zi, zoneSize)
  }

  /** Whole pages, with the count noted at the first. */
  function MallocLarge(s: Slab, n: nat): (Slab, Option)
    requires PageList.Inv(s.pg, Pool(s))
  {
    if n == 0 then (s, None)
    else
      var (l, a) := Alloc(s.pg.list, n);
      AllocInside(s.pg, n, Pool(s));
      if a.None? then (s, None)
      else
        (s.(pg := PageList.State(l, s.pg.live[a.page := n]), usage := s.usage[a.page := Large(n)],
            large := s.large + {a.page}),
         Some(a.page * PAGE))
  }

  lemma AllocInside(pg: PageList.State, n: nat, pool: Run)
    requires PageList.Inv(pg, pool) && n > 0
    ensures var a := Alloc(pg.list, n).1;
            a.Some? ==> pool.start <= a.page && a.page + n <= pool.End() && a.page !in pg.live
  {
    AllocKeeps(pg.list, n);
    var a := Alloc(pg.list, n).1;
    if a.Some? {
      assert PageList.Free(pg.list, a.page) && PageList.Free(pg.list, a.page + n - 1);
      assert a.page in pg.live ==> Within(pg.live, a.page, a.page);
    }
  }

  function Address(z: nat, zone: Zone, k: nat): nat {
    z * PAGE + zone.off + k * zone.chunk
  }

  /** A chunk of the first zone on the list; the zone leaves the list with its last free chunk. */
  function FromZone(s: Slab, zi: nat): (Slab, Option)
    requires zi < |s.lists| && s.lists[zi] != [] && s.lists[zi][0] in s.zones
    requires Counted(s.zones[s.lists[zi][0]]) && s.zones[s.lists[zi][0]].nfree > 0
  {
    var z := s.lists[zi][0];
    var (zone, k) := TakeChunk(s.zones[z]);
    (s.(zones := s.zones[z := zone], lists := if zone.nfree == 0 then s.lists[zi := s.lists[zi][1..]] else s.lists),
     Some(Address(z, zone, k)))
  }

  /** The first chunk of a new zone in the pages of a spare one. */
  function FromSpare(s: Slab, zi: nat, zoneSize: nat): (Slab, Option)
    requires zi < |s.lists| && s.spare != [] && ChunkOf(zi) > 0 && Offset(ChunkOf(zi)) + ChunkOf(zi) <= zoneSize
  {
    var z := s.spare[0];
    var zone := NewZone(zi, ChunkOf(zi), zoneSize);
    (s.(zones := s.zones[z := zone], lists := s.lists[zi := [z] + s.lists[zi]], spare := s.spare[1..]),
     Some(Address(z, zone, 0)))
  }

  /** The first chunk of a new zone in new pages. */
  function FromPages(s: Slab, zi: nat, zoneSize: nat): (Slab, Option)
    requires zi < |s.lists| && ChunkOf(zi) > 0 && Offset(ChunkOf(zi)) + ChunkOf(zi) <= zoneSize && Count(zoneSize) > 0
  {
    var n := Count(zoneSize);
    var (l, a) := Alloc(s.pg.list, n);
    if a.None? then (s, None)
    else
      var z := a.page;
      var zone := NewZone(zi, ChunkOf(zi), zoneSize);
      (s.(pg := PageList.State(l, s.pg.live[z := n]), usage := MarkZone(s.usage, z, n),
          zones := s.zones[z := zone], lists := s.lists[zi := [z] + s.lists[zi]]),
       Some(Address(z, zone, 0)))
  }

  /** The pages of a new zone are marked with their offsets. */
  function MarkZone(usage: seq<Usage>, z: nat, n: nat): (r: seq<Usage>)
    ensures |r| == |usage|
    ensures forall p :: 0 <= p < |usage| ==> r[p] == if z <= p < z + n then Small(p - z) else usage[p]
  {
    seq(|usage|, p requires 0 <= p < |usage| => if z <= p < z + n then Small(p - z) else usage[p])
  }

  function UnmarkZone(usage: seq<Usage>, z: nat, n: nat): (r: seq<Usage>)
    ensures |r| == |usage|
    ensures forall p :: 0 <= p < |usage| ==> r[p] == if z <= p < z + n then Unused else usage[p]
  {
    seq(|usage|, p requires 0 <= p < |usage| => if z <= p < z + n then Unused else usage[p])
  }

  /** The blocks in use. */
  ghost predicate Live(s: Slab, b: Block) {
    match b
    case Chunk(z, k) => z in s.zones && Used(s.zones[z], k)
    case Whole(a) => a in s.large && a in s.pg.live
  }

  function Start(s: Slab, b: Block): nat
    requires b.Chunk? ==> b.page in s.zones
  {
    match b
    case Chunk(z, k) => Address(z, s.zones[z], k)
    case Whole(a) => a * PAGE
  }

  function Size(s: Slab, b: Block): nat
    requires if b.Chunk? then b.page in s.zones else b.page in s.pg.live
  {
    match b
    case Chunk(z, k) => s.zones[z].chunk
    case Whole(a) => s.pg.live[a] * PAGE
  }

  /** The number of the chunk at an address. */
  function ChunkNumber(ptr: nat, z: nat, zone: Zone): nat
    requires zone.chunk > 0 && ptr >= z * PAGE + zone.off
  {
    (ptr - z * PAGE - zone.off) / zone.chunk
  }

  /** rt_free of the block that starts at an address: the page table says what kind it is and where its
      zone begins. */
  function Find(s: Slab, ptr: nat): (b: Block)
    requires ptr / PAGE < |s.usage|
  {
    var p := ptr / PAGE;
    match s.usage[p]
    case Small(off) =>
      var z := if off <= p then p - off else 0;
      if z in s.zones && s.zones[z].chunk > 0 && ptr >= z * PAGE + s.zones[z].off
      then Chunk(z, ChunkNumber(ptr, z, s.zones[z])) else Whole(p)
    case _ => Whole(p)
  }

  function Free(s: Slab, b: Block, zoneSize: nat): Slab
    requires Inv(s, zoneSize) && Live(s, b)
  {
    match b
    case Whole(a) =>
      LargeIs(s, zoneSize, a);
      s.(pg := PageList.State(Release(s.pg.list, a, s.pg.live[a]), s.pg.live - {a}), usage := s.usage[a := Large(0)],
          large := s.large - {a})
    case Chunk(z, k) =>
      ZoneIs(s, zoneSize, z);
      var t := Returned(s, z, k);
      var zone := t.zones[z];
      if zone.nfree == zone.nmax && |t.lists[zone.index]| > 1 then Retired(t, z, zone.index, zoneSize) else t
  }

  /** The chunk goes back to its zone; a zone that had none free goes back to the list. */
  function Returned(s: Slab, z: nat, k: nat): Slab
    requires z in s.zones && s.zones[z].index < |s.lists|
  {
    var zone := s.zones[z];
    s.(zones := s.zones[z := GiveChunk(zone, k)],
       lists := if zone.nfree == 0 then s.lists[zone.index := [z] + s.lists[zone.index]] else s.lists)
  }

  /** A zone with no chunk in use becomes spare, or its pages are freed when there are enough spare. */
  function Retired(s: Slab, z: nat, zi: nat, zoneSize: nat): Slab
    requires zi < |s.lists|
  {
    var lists := s.lists[zi := Without(s.lists[zi], z)];
    if |s.spare| + 1 <= SPARE then s.(lists := lists, spare := [z] + s.spare)
    else
      s.(lists := lists, zones := s.zones - {z}, usage := UnmarkZone(s.usage, z, Count(zoneSize)),
         pg := PageList.State(Release(s.pg.list, z, Count(zoneSize)), s.pg.live - {z}))
  }

  lemma FirstOnList(s: Slab, zoneSize: nat, zi: nat)
    requires Inv(s, zoneSize) && zi < ZONES && s.lists[zi] != []
    ensures var z := s.lists[zi][0];
            z in s.zones && ZoneBook(s.zones[z], zoneSize, s.lists, s.spare, z)
            && s.zones[z].index == zi && s.zones[z].nfree > 0
    ensures Counted(s.zones[s.lists[zi][0]])
  {
    assert s.lists[zi][0] in s.lists[zi] && ListOk(s.lists[zi], zi, s.zones);
  }

  lemma ZoneIs(s: Slab, zoneSize: nat, z: nat)
    requires Inv(s, zoneSize) && z in s.zones
    ensures ZoneBook(s.zones[z], zoneSize, s.lists, s.spare, z) && ZonePages(s.pg, s.usage, s.large, zoneSize, z)
    ensures s.zones[z].index < |s.lists| == ZONES
  {
  }

  lemma LargeIs(s: Slab, zoneSize: nat, a: nat)
    requires Inv(s, zoneSize) && a in s.large
    ensures LargeOk(s.pg, s.usage, a)
  {
  }
}
