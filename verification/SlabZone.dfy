/** One zone of slab.c: chunks of one size, handed out first from space that was never used and then
    from the list of freed chunks. */
module SlabZone {
  import opened Arith

  /** ZALLOC_ZONE_LIMIT, NZONES, MIN_CHUNK_SIZE, RT_MM_PAGE_SIZE and sizeof(slab_zone) */
  const ZONE_LIMIT: nat := 16384
  const ZONES: nat := 72
  const MIN_CHUNK: nat := 8
  const PAGE: nat := 4096
  const HEADER: nat := 36

  /** zoneindex: the chunk size for a request and the index of the zones with that chunk size. */
  function ZoneIndex(n: nat): (r: (nat, int)) {
    if n < 128 then var c := RoundUp(n, 8); (c, c / 8 - 1)
    else if n < 256 then var c := RoundUp(n, 16); (c, c / 16 + 7)
    else if n < 512 then var c := RoundUp(n, 32); (c, c / 32 + 15)
    else if n < 1024 then var c := RoundUp(n, 64); (c, c / 64 + 23)
    else if n < 2048 then var c := RoundUp(n, 128); (c, c / 128 + 31)
    else if n < 4096 then var c := RoundUp(n, 256); (c, c / 256 + 39)
    else if n < 8192 then var c := RoundUp(n, 512); (c, c / 512 + 47)
    else if n < 16384 then var c := RoundUp(n, 1024); (c, c / 1024 + 55)
    else (n, 0)
  }

  /** The chunk size of the zones with a given index. */
  function ChunkOf(i: nat): nat {
    if i < 16 then 8 * (i + 1)
    else if i < 24 then 16 * (i - 7)
    else if i < 32 then 32 * (i - 15)
    else if i < 40 then 64 * (i - 23)
    else if i < 48 then 128 * (i - 31)
    else if i < 56 then 256 * (i - 39)
    else if i < 64 then 512 * (i - 47)
    else 1024 * (i - 55)
  }

  /** A request gets the smallest chunk size there is that holds it, and the index tells the size: two
      requests have the same index exactly when they have the same chunk size. */
  lemma ZoneIndexFits(n: nat)
    requires 0 < n < ZONE_LIMIT
    ensures var (c, i) := ZoneIndex(n);
            && 0 <= i < ZONES && c == ChunkOf(i) && n <= c <= ZONE_LIMIT && c % MIN_CHUNK == 0
            && (i > 0 ==> ChunkOf(i - 1) < n)
            && (n >= 128 ==> 8 * (c - n) < n)
  {
    hide RoundUp;
    if n < 128 { Row(n, 8); }
    else if n < 256 { Row(n, 16); }
    else if n < 512 { Row(n, 32); }
    else if n < 1024 { Row(n, 64); }
    else if n < 2048 { Row(n, 128); }
    else if n < 4096 { Row(n, 256); }
    else if n < 8192 { Row(n, 512); }
    else { Row(n, 1024); }
  }

  lemma Row(n: nat, m: nat)
    requires m > 0 && m % 8 == 0
    ensures var q := RoundUp(n, m) / m; RoundUp(n, m) == q * m && n <= q * m < n + m
    ensures RoundUp(n, m) % 8 == 0
  {
    RoundUpIs(n, m);
    var q := RoundUp(n, m) / m;
    assert m == m / 8 * 8;
    Regroup(q, m / 8, 8);
    Multiple(q * (m / 8), 8);
  }

  lemma ChunkOrder(i: nat, j: nat)
    requires i < j < ZONES
    ensures MIN_CHUNK <= ChunkOf(i) < ChunkOf(j) <= ZONE_LIMIT
  {
  }

  lemma SameIndexSameChunk(n: nat, m: nat)
    requires 0 < n < ZONE_LIMIT && 0 < m < ZONE_LIMIT
    ensures ZoneIndex(n).1 == ZoneIndex(m).1 <==> ZoneIndex(n).0 == ZoneIndex(m).0
    ensures n <= m ==> ZoneIndex(n).1 <= ZoneIndex(m).1
  {
    ZoneIndexFits(n);
    ZoneIndexFits(m);
    var i, j := ZoneIndex(n).1, ZoneIndex(m).1;
    if i < j { ChunkOrder(i, j); } else if j < i {
      ChunkOrder(j, i);
      if j < i - 1 { ChunkOrder(j, i - 1); }
    }
  }

  /** Rounding a size that is already a chunk size changes nothing, as rt_realloc relies on. */
  lemma ZoneIndexStable(n: nat)
    requires 0 < n < ZONE_LIMIT && ZoneIndex(n).0 < ZONE_LIMIT
    ensures ZoneIndex(ZoneIndex(n).0) == ZoneIndex(n)
  {
    ZoneIndexFits(n);
    var c := ZoneIndex(n).0;
    ZoneIndexFits(c);
    var i, j := ZoneIndex(n).1, ZoneIndex(c).1;
    if i < j {
      ChunkOrder(i, j);
      if i < j - 1 { ChunkOrder(i, j - 1); }
    } else if j < i { ChunkOrder(j, i); }
  }

  // ---------- zones ----------

  /** z_zoneindex, z_chunksize, the offset of z_baseptr, z_nmax, z_nfree, z_uindex, and the numbers of
      the chunks on z_freechunk. */
  datatype Zone = Zone(index: nat, chunk: nat, off: nat, nmax: nat, nfree: nat, uindex: nat, freed: seq<nat>)

  predicate PowerOfTwo(c: nat) {
    c == 1 || (c > 0 && c % 2 == 0 && PowerOfTwo(c / 2))
  }

  /** Where the chunks of a zone begin. */
  function Offset(chunk: nat): nat
    requires chunk > 0
  {
    if PowerOfTwo(chunk) then RoundUp(HEADER, chunk) else RoundUp(HEADER, MIN_CHUNK)
  }

  /** A new zone, whose first chunk is handed out at once. */
  function NewZone(index: nat, chunk: nat, zoneSize: nat): Zone
    requires chunk > 0 && Offset(chunk) + chunk <= zoneSize
  {
    var off := Offset(chunk);
    var nmax := (zoneSize - off) / chunk;
    assert nmax >= 1 by { Quotient(zoneSize - off, chunk, 1); }
    Zone(index, chunk, off, nmax, nmax - 1, 0, [])
  }

  /** The zone sizes that rt_system_heap_init can choose. */
  predicate ZoneSize(z: nat) {
    z == 32768 || z == 65536 || z == 131072
  }

  /** zone_limit: requests from this size on get whole pages. */
  function Limit(zoneSize: nat): nat {
    if zoneSize / 4 > ZONE_LIMIT then ZONE_LIMIT else zoneSize / 4
  }

  /** Numbers, counts and the list of freed chunks agree. */
  predicate Counted(z: Zone) {
    && z.chunk > 0 && z.uindex < z.nmax
    && (forall i, j :: 0 <= i < j < |z.freed| ==> z.freed[i] != z.freed[j])
    && (forall k :: k in z.freed ==> k <= z.uindex)
    && z.nfree == z.nmax - 1 - z.uindex + |z.freed|
  }

  /** The chunks lie in the zone, behind its header. */
  predicate Fits(z: Zone, zoneSize: nat) {
    z.index < ZONES && z.chunk == ChunkOf(z.index) > 0 && z.off == Offset(z.chunk) >= HEADER
    && z.off + z.nmax * z.chunk <= zoneSize && z.nmax >= 2
  }

  predicate Used(z: Zone, k: nat) {
    k <= z.uindex && k !in z.freed
  }

  /** rt_malloc from a zone that has free chunks. */
  function TakeChunk(z: Zone): (Zone, nat)
    requires Counted(z) && z.nfree > 0
  {
    if z.uindex + 1 != z.nmax then (z.(nfree := z.nfree - 1, uindex := z.uindex + 1), z.uindex + 1)
    else (z.(nfree := z.nfree - 1, freed := z.freed[1..]), z.freed[0])
  }

  /** rt_free of chunk `k` */
  function GiveChunk(z: Zone, k: nat): Zone {
    z.(nfree := z.nfree + 1, freed := [k] + z.freed)
  }

  /** No chunk is handed out twice: the chunk taken was not in use, and no other chunk changes. */
  lemma TakeKeeps(z: Zone)
    requires Counted(z) && z.nfree > 0
    ensures var (z', k) := TakeChunk(z);
            && Counted(z') && k < z.nmax && !Used(z, k) && (forall j: nat :: Used(z', j) <==> Used(z, j) || j == k)
  {
    var (z', k) := TakeChunk(z);
    if z.uindex + 1 == z.nmax {
      assert k in z.freed && z.freed == [k] + z'.freed;
      forall j | j in z'.freed ensures j in z.freed {}
    }
  }

  lemma GiveKeeps(z: Zone, k: nat)
    requires Counted(z) && Used(z, k)
    ensures var z' := GiveChunk(z, k);
            && Counted(z') && z'.nfree <= z.nmax && (forall j: nat :: Used(z', j) <==> Used(z, j) && j != k)
  {
    DistinctBound(GiveChunk(z, k).freed, z.uindex + 1);
  }

  /** The free chunk count says it all: it is nmax exactly when no chunk is in use, and 0 exactly when
      all are. */
  lemma CountSays(z: Zone)
    requires Counted(z)
    ensures z.nfree <= z.nmax
    ensures z.nfree == z.nmax <==> forall k: nat :: !Used(z, k)
    ensures z.nfree == 0 <==> forall k: nat :: k < z.nmax ==> Used(z, k)
  {
    DistinctBound(z.freed, z.uindex + 1);
    if z.nfree == z.nmax {
      forall k: nat ensures !Used(z, k) {
        if k <= z.uindex && k !in z.freed { DistinctBound([k] + z.freed, z.uindex + 1); }
      }
    } else if forall k: nat :: !Used(z, k) {
      forall k: nat | k <= z.uindex ensures k in z.freed { assert !Used(z, k); }
      AllListed(z.freed, z.uindex + 1);
    }
    if forall k: nat :: k < z.nmax ==> Used(z, k) {
      assert Used(z, z.nmax - 1);
      if z.freed != [] { assert z.freed[0] in z.freed && !Used(z, z.freed[0]); }
    }
  }

  /** Distinct numbers below n are at most n. */
  lemma {:induction false} DistinctBound(s: seq<nat>, n: nat)
    requires (forall i, j :: 0 <= i < j < |s| ==> s[i] != s[j]) && forall k :: k in s ==> k < n
    ensures |s| <= n
  {
    if s != [] {
      assert s[0] in s;
      if n - 1 in s {
        var i :| 0 <= i < |s| && s[i] == n - 1;
        var t := s[..i] + s[i + 1..];
        forall k | k in t ensures k < n - 1 { assert k in s; }
        DistinctBound(t, n - 1);
      } else {
        DistinctBound(s, n - 1);
      }
    }
  }

  /** If every number below n is listed, the list has at least n elements. */
  lemma {:induction false} AllListed(s: seq<nat>, n: nat)
    requires forall k: nat :: k < n ==> k in s
    ensures |s| >= n
  {
    if n > 0 {
      assert n - 1 in s;
      var i :| 0 <= i < |s| && s[i] == n - 1;
      var t := s[..i] + s[i + 1..];
      forall k: nat | k < n - 1 ensures k in t {
        assert k in s;
        var j :| 0 <= j < |s| && s[j] == k;
        assert t[if j < i then j else j - 1] == k;
      }
      AllListed(t, n - 1);
    }
  }

  // ---------- geometry ----------

  /** Every chunk size below the limit gives a zone with at least two chunks, all inside the zone. */
  lemma NewZoneFits(index: nat, zoneSize: nat)
    requires ZoneSize(zoneSize) && index < ZONES && ChunkOf(index) <= Limit(zoneSize)
    ensures ChunkOf(index) > 0 && Offset(ChunkOf(index)) + ChunkOf(index) <= zoneSize
    ensures var z := NewZone(index, ChunkOf(index), zoneSize);
            Fits(z, zoneSize) && Counted(z) && Used(z, 0) && forall k: nat :: k > 0 ==> !Used(z, k)
  {
    var c := ChunkOf(index);
    RoundUpIs(HEADER, c);
    RoundUpIs(HEADER, MIN_CHUNK);
    var off := Offset(c);
    assert off < HEADER + (if c > MIN_CHUNK then c else MIN_CHUNK);
    assert off + 2 * c <= zoneSize;
    Quotient(zoneSize - off, c, 2);
  }

  /** Two chunks of a zone do not overlap, and each lies between the header and the end of the zone. */
  lemma ChunksApart(z: Zone, zoneSize: nat, j: nat, k: nat)
    requires Fits(z, zoneSize) && j < k < z.nmax
    ensures HEADER <= z.off + j * z.chunk
    ensures z.off + j * z.chunk + z.chunk <= z.off + k * z.chunk
    ensures z.off + k * z.chunk + z.chunk <= zoneSize
  {
    assert j * z.chunk + z.chunk == (j + 1) * z.chunk;
    assert k * z.chunk + z.chunk == (k + 1) * z.chunk;
    Scale(j + 1, k, z.chunk);
    Scale(k + 1, z.nmax, z.chunk);
  }

  /** Chunks whose size is a power of two are aligned to their size exactly when the zone is, so always
      when the size is at most a page. */
  lemma ChunkAligned(z: Zone, zoneSize: nat, page: nat, k: nat)
    requires Fits(z, zoneSize) && PowerOfTwo(z.chunk)
    ensures (page * PAGE + z.off + k * z.chunk) % z.chunk == 0 <==> (page * PAGE) % z.chunk == 0
    ensures z.chunk <= PAGE ==> (page * PAGE) % z.chunk == 0
  {
    hide PowerOfTwo, ChunkOf;
    var q := (HEADER + z.chunk - 1) / z.chunk;
    assert z.off == q * z.chunk;
    AddMultiple(page * PAGE, q, z.chunk);
    AddMultiple(page * PAGE + q * z.chunk, k, z.chunk);
    if z.chunk <= PAGE {
      PageMultiple(z.index);
      PagesMultiple(page, z.chunk);
    }
  }

  lemma PagesMultiple(page: nat, c: nat)
    requires c > 0 && PAGE % c == 0
    ensures (page * PAGE) % c == 0
  {
    var d := PAGE / c;
    assert PAGE == d * c;
    Regroup(page, d, c);
    Multiple(page * d, c);
  }

  /** The chunk sizes that are powers of two and fit a page divide it. */
  lemma PageMultiple(i: nat)
    requires i < ZONES && PowerOfTwo(ChunkOf(i)) && ChunkOf(i) <= PAGE
    ensures ChunkOf(i) > 0 && PAGE % ChunkOf(i) == 0
  {
    PowerCases(ChunkOf(i), 4096);
  }

  lemma {:induction false} PowerCases(c: nat, p: nat)
    requires PowerOfTwo(c) && PowerOfTwo(p) && c <= p
    ensures p % c == 0
  {
    if c == 1 {
    } else if p == 1 {
    } else {
      PowerCases(c / 2, p / 2);
      var d := (p / 2) / (c / 2);
      assert p / 2 == d * (c / 2);
      assert p == d * c;
      Multiple(d, c);
    }
  }
}
