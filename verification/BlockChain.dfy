/** A run of memory blocks, each a header followed by its payload, as a value.

    A chain lists the headers in address order; its last entry is the end mark, a header that is
    always used.  The small-memory allocator and the memheap both keep such a chain; they differ in
    the size of a header (`hdr`) and in how close two headers may come (`gap`).
    Offsets and lengths are counted in units of RT_ALIGN_SIZE (four bytes), the unit to which both
    allocators round every request. */
module BlockChain {

  datatype Blk = Blk(off: nat, used: bool)

  /** Headers are in address order, start at 0, are at least `gap` apart, and
      reach exactly up to the header at `end`. */
  ghost predicate Tiled(c: seq<Blk>, end: nat, gap: nat) {
    && |c| >= 2
    && c[0].off == 0
    && c[|c| - 1] == Blk(end, true)
    && (forall i, j :: 0 <= i < j < |c| ==> c[i].off + gap <= c[j].off)
  }

  /** No two neighbours are both free. */
  ghost predicate Coalesced(c: seq<Blk>) {
    forall i, j :: 0 <= i && j == i + 1 && j < |c| ==> c[i].used || c[j].used
  }

  ghost predicate WellFormed(c: seq<Blk>, end: nat, gap: nat) {
    Tiled(c, end, gap) && Coalesced(c)
  }

  function Initial(end: nat): seq<Blk> {
    [Blk(0, false), Blk(end, true)]
  }

  // ---------- the steps that the allocators are made of ----------

  function Mark(c: seq<Blk>, i: nat, used: bool): seq<Blk>
    requires i < |c|
  {
    c[i := Blk(c[i].off, used)]
  }

  /** Cut block `i` so that a free block starts at `o`. */
  function Split(c: seq<Blk>, i: nat, o: nat): seq<Blk>
    requires i < |c|
  {
    c[..i + 1] + [Blk(o, false)] + c[i + 1..]
  }

  /** Forget header `i`: block `i` becomes part of block `i - 1`. */
  function Drop(c: seq<Blk>, i: nat): seq<Blk>
    requires i < |c|
  {
    c[..i] + c[i + 1..]
  }

  /** Join block `i + 1` into block `i` if it is free. */
  function JoinRight(c: seq<Blk>, i: nat): seq<Blk>
    requires i + 1 < |c|
  {
    if c[i + 1].used then c else Drop(c, i + 1)
  }

  /** Join block `i` into block `i - 1` if that one is free. */
  function JoinLeft(c: seq<Blk>, i: nat): seq<Blk>
    requires i < |c|
  {
    if i > 0 && !c[i - 1].used then Drop(c, i) else c
  }

  /** plug_holes: join the free block `i` with a free right neighbour, then with a free left one. */
  function Plug(c: seq<Blk>, i: nat): seq<Blk>
    requires i + 1 < |c|
  {
    JoinLeft(JoinRight(c, i), i)
  }

  function Release(c: seq<Blk>, i: nat): seq<Blk>
    requires i + 1 < |c|
  {
    Plug(Mark(c, i, false), i)
  }

  // ---------- tiling ----------

  lemma SplitTiled(c: seq<Blk>, end: nat, gap: nat, i: nat, o: nat)
    requires Tiled(c, end, gap) && i + 1 < |c|
    requires c[i].off + gap <= o && o + gap <= c[i + 1].off
    ensures Tiled(Split(c, i, o), end, gap)
  {
    var d := Split(c, i, o);
    forall j, k | 0 <= j < k < |d| ensures d[j].off + gap <= d[k].off {
      assert d[j] == if j <= i then c[j] else if j == i + 1 then Blk(o, false) else c[j - 1];
      assert d[k] == if k <= i then c[k] else if k == i + 1 then Blk(o, false) else c[k - 1];
    }
  }

  lemma DropTiled(c: seq<Blk>, end: nat, gap: nat, i: nat)
    requires Tiled(c, end, gap) && 0 < i && i + 1 < |c|
    ensures Tiled(Drop(c, i), end, gap)
  {
  }

  /** Free blocks touch nowhere, except perhaps at block `i`. */
  ghost predicate CoalescedBut(c: seq<Blk>, i: nat) {
    forall j, k :: 0 <= j && k == j + 1 && k < |c| && j != i && k != i ==> c[j].used || c[k].used
  }

  /** Joining block `i + 1` into block `i` leaves a used block to the right of `i`. */
  lemma DropRight(c: seq<Blk>, end: nat, gap: nat, i: nat)
    requires Tiled(c, end, gap) && i + 1 < |c| && CoalescedBut(c, i) && !c[i + 1].used
    ensures Tiled(Drop(c, i + 1), end, gap) && CoalescedBut(Drop(c, i + 1), i)
    ensures i + 1 < |Drop(c, i + 1)| && Drop(c, i + 1)[i + 1].used
  {
    var d := Drop(c, i + 1);
    DropTiled(c, end, gap, i + 1);
    assert c[i + 1].used || c[i + 2].used;
    forall j, k | 0 <= j && k == j + 1 && k < |d| && j != i && k != i ensures d[j].used || d[k].used {
      if j < i {
        assert d[j] == c[j] && d[k] == c[k];
      } else {
        assert d[j] == c[j + 1] && d[k] == c[k + 1];
      }
    }
  }

  lemma DropLeft(c: seq<Blk>, end: nat, gap: nat, i: nat)
    requires Tiled(c, end, gap) && 0 < i && i + 1 < |c| && CoalescedBut(c, i)
    requires !c[i - 1].used && c[i + 1].used
    ensures WellFormed(Drop(c, i), end, gap)
  {
    var d := Drop(c, i);
    DropTiled(c, end, gap, i);
    forall j, k | 0 <= j && k == j + 1 && k < |d| ensures d[j].used || d[k].used {
      if k < i {
        assert d[j] == c[j] && d[k] == c[k];
      } else if k == i {
        assert d[k] == c[i + 1];
      } else {
        assert d[j] == c[j + 1] && d[k] == c[k + 1];
      }
    }
  }

  /** plug_holes repairs the only two places where free blocks may touch. */
  lemma PlugWellFormed(c: seq<Blk>, end: nat, gap: nat, i: nat)
    requires Tiled(c, end, gap) && i + 1 < |c| && !c[i].used && CoalescedBut(c, i)
    ensures WellFormed(Plug(c, i), end, gap)
  {
    var right := JoinRight(c, i);
    if !c[i + 1].used { DropRight(c, end, gap, i); }
    if i > 0 && !c[i - 1].used { DropLeft(right, end, gap, i); }
  }

  lemma MarkTiled(c: seq<Blk>, end: nat, gap: nat, i: nat, used: bool)
    requires Tiled(c, end, gap) && i + 1 < |c|
    ensures Tiled(Mark(c, i, used), end, gap)
  {
    var m := Mark(c, i, used);
    forall j, k | 0 <= j < k < |m| ensures m[j].off + gap <= m[k].off {
      assert m[j].off == c[j].off && m[k].off == c[k].off;
    }
  }

  lemma MarkCoalescedBut(c: seq<Blk>, i: nat)
    requires Coalesced(c) && i + 1 < |c|
    ensures CoalescedBut(Mark(c, i, false), i)
  {
  }

  lemma MarkKeeps(c: seq<Blk>, i: nat, used: bool)
    requires i + 1 < |c|
    ensures |Mark(c, i, used)| == |c| && Mark(c, i, used)[i] == Blk(c[i].off, used)
    ensures Mark(c, i, used)[i + 1] == c[i + 1]
  {
  }

  lemma ReleaseWellFormed(c: seq<Blk>, end: nat, gap: nat, i: nat)
    requires WellFormed(c, end, gap) && i + 1 < |c| && c[i].used
    ensures WellFormed(Release(c, i), end, gap)
  {
    MarkTiled(c, end, gap, i, false);
    PlugWellFormed(Mark(c, i, false), end, gap, i);
  }

  /** Giving out a whole free block. */
  lemma ClaimWholeWellFormed(c: seq<Blk>, end: nat, gap: nat, i: nat)
    requires WellFormed(c, end, gap) && i + 1 < |c|
    ensures WellFormed(Mark(c, i, true), end, gap)
  {
    MarkTiled(c, end, gap, i, true);
  }

  /** Giving out the first part of a free block. */
  lemma ClaimPartWellFormed(c: seq<Blk>, end: nat, gap: nat, i: nat, o: nat)
    requires WellFormed(c, end, gap) && i + 1 < |c| && !c[i].used
    requires c[i].off + gap <= o && o + gap <= c[i + 1].off
    ensures WellFormed(Split(Mark(c, i, true), i, o), end, gap)
  {
    var m := Mark(c, i, true);
    MarkTiled(c, end, gap, i, true);
    SplitTiled(m, end, gap, i, o);
    assert c[i].used || c[i + 1].used;
    var d := Split(m, i, o);
    forall j, k | 0 <= j && k == j + 1 && k < |d| ensures d[j].used || d[k].used {
      if k <= i {
        assert d[j] == c[j] && d[k] == m[k];
      } else if j > i + 1 {
        assert d[j] == c[j - 1] && d[k] == c[k - 1];
      }
    }
  }

  lemma SplitCoalescedBut(c: seq<Blk>, i: nat, o: nat)
    requires Coalesced(c) && i + 1 < |c|
    ensures CoalescedBut(Split(c, i, o), i + 1)
  {
    var d := Split(c, i, o);
    forall j, k | 0 <= j && k == j + 1 && k < |d| && j != i + 1 && k != i + 1 ensures d[j].used || d[k].used {
      if k <= i {
        assert d[j] == c[j] && d[k] == c[k];
      } else {
        assert d[j] == c[j - 1] && d[k] == c[k - 1];
      }
    }
  }

  /** A block that has been cut is ready for plug_holes at the cut. */
  lemma SplitReady(c: seq<Blk>, end: nat, gap: nat, i: nat, o: nat)
    requires WellFormed(c, end, gap) && i + 1 < |c|
    requires c[i].off + gap <= o && o + gap <= c[i + 1].off
    ensures Tiled(Split(c, i, o), end, gap) && CoalescedBut(Split(c, i, o), i + 1)
    ensures i + 2 < |Split(c, i, o)| && Split(c, i, o)[i + 1] == Blk(o, false)
  {
    SplitTiled(c, end, gap, i, o);
    SplitCoalescedBut(c, i, o);
  }

  lemma HeadersDiffer(c: seq<Blk>, end: nat, gap: nat, i: nat, j: nat)
    requires gap > 0
    requires Tiled(c, end, gap) && i < |c| && j < |c| && i != j
    ensures c[i].off != c[j].off
  {
  }

  /** Every header of a split chain other than the new one stands where it stood. */
  lemma SplitIndex(c: seq<Blk>, i: nat, o: nat, j: nat)
    requires i + 1 < |c| && j < |c|
    ensures |Split(c, i, o)| == |c| + 1 && Split(c, i, o)[i + 1] == Blk(o, false)
    ensures Split(c, i, o)[if j <= i then j else j + 1] == c[j]
  {
  }

  lemma MarkIndex(c: seq<Blk>, i: nat, used: bool, j: nat)
    requires i < |c| && j < |c|
    ensures |Mark(c, i, used)| == |c|
    ensures Mark(c, i, used)[j] == if j == i then Blk(c[i].off, used) else c[j]
  {
  }

  // ---------- accounting ----------

  /** The summed length of the blocks with the given flag, `hdr` units of each not counted. */
  function Total(c: seq<Blk>, used: bool, hdr: nat): int {
    if |c| < 2 then 0
    else (if c[0].used == used then c[1].off - c[0].off - hdr else 0) + Total(c[1..], used, hdr)
  }

  lemma InitialTotals(end: nat, hdr: nat)
    ensures Total(Initial(end), true, hdr) == 0
    ensures Total(Initial(end), false, hdr) == end - hdr
  {
    assert Initial(end)[1..] == [Blk(end, true)];
  }

  lemma {:induction false} TotalCut(c: seq<Blk>, i: nat, used: bool, hdr: nat)
    requires i < |c|
    ensures Total(c, used, hdr) == Total(c[..i + 1], used, hdr) + Total(c[i..], used, hdr)
  {
    if i == 0 {
      assert c[0..] == c;
    } else {
      TotalCut(c[1..], i - 1, used, hdr);
      assert c[1..][..i] == c[..i + 1][1..];
      assert c[1..][i - 1..] == c[i..];
    }
  }

  /** The flag of the last entry does not count. */
  lemma {:induction false} TotalPrefix(c: seq<Blk>, d: seq<Blk>, used: bool, hdr: nat)
    requires |c| == |d| > 0
    requires c[..|c| - 1] == d[..|c| - 1] && c[|c| - 1].off == d[|c| - 1].off
    ensures Total(c, used, hdr) == Total(d, used, hdr)
  {
    if |c| > 1 {
      assert c[0] == c[..|c| - 1][0] == d[..|c| - 1][0] == d[0];
      assert c[1..][..|c| - 2] == c[..|c| - 1][1..];
      assert d[1..][..|c| - 2] == d[..|c| - 1][1..];
      assert c[1].off == d[1].off by {
        if |c| > 2 { assert c[1] == c[..|c| - 1][1] == d[..|c| - 1][1] == d[1]; }
      }
      TotalPrefix(c[1..], d[1..], used, hdr);
    }
  }

  lemma TotalMark(c: seq<Blk>, i: nat, mark: bool, used: bool, hdr: nat)
    requires i + 1 < |c| && c[i].used != mark
    ensures Total(Mark(c, i, mark), used, hdr) ==
            Total(c, used, hdr) + (if mark == used then 1 else -1) * (c[i + 1].off - c[i].off - hdr)
  {
    var d := Mark(c, i, mark);
    TotalCut(c, i, used, hdr);
    TotalCut(d, i, used, hdr);
    TotalPrefix(c[..i + 1], d[..i + 1], used, hdr);
    assert c[i..][1..] == c[i + 1..] == d[i..][1..];
  }

  lemma TotalSplit(c: seq<Blk>, i: nat, o: nat, used: bool, hdr: nat)
    requires i + 1 < |c|
    ensures Total(Split(c, i, o), used, hdr) ==
            Total(c, used, hdr) - (if c[i].used == used then c[i + 1].off - o else 0)
            + (if used then 0 else c[i + 1].off - o - hdr)
  {
    var d := Split(c, i, o);
    TotalCut(c, i, used, hdr);
    TotalCut(d, i, used, hdr);
    assert c[..i + 1] == d[..i + 1];
    assert c[i..][1..] == c[i + 1..];
    assert d[i..][1..] == d[i + 1..];
    assert d[i + 1..][1..] == c[i + 1..];
  }

  /** Moving the header between a used block and a free one. */
  lemma TotalMove(c: seq<Blk>, i: nat, o: nat, used: bool, hdr: nat)
    requires i + 2 < |c| && c[i].used && !c[i + 1].used
    ensures Total(c[i + 1 := Blk(o, false)], used, hdr) ==
            Total(c, used, hdr) + (if used then o - c[i + 1].off else c[i + 1].off - o)
  {
    var d := c[i + 1 := Blk(o, false)];
    TotalCut(c, i, used, hdr);
    TotalCut(d, i, used, hdr);
    assert c[..i + 1] == d[..i + 1];
    assert c[i..][1..] == c[i + 1..] && d[i..][1..] == d[i + 1..];
    assert c[i + 1..][1..] == c[i + 2..] == d[i + 1..][1..];
  }

  /** Joining two free blocks turns the header between them into free space. */
  lemma TotalDrop(c: seq<Blk>, i: nat, used: bool, hdr: nat)
    requires 0 < i && i + 1 < |c| && !c[i].used && !c[i - 1].used
    ensures Total(Drop(c, i), used, hdr) == Total(c, used, hdr) + (if used then 0 else hdr)
  {
    var d := Drop(c, i);
    TotalCut(c, i - 1, used, hdr);
    TotalCut(d, i - 1, used, hdr);
    assert c[..i] == d[..i];
    assert c[i - 1..][1..] == c[i..];
    assert c[i..][1..] == c[i + 1..];
    assert d[i - 1..][1..] == c[i + 1..];
  }

  /** Used and free units always add up to the distance from the first header to the last. */
  lemma {:induction false} UsedPlusFree(c: seq<Blk>)
    requires |c| > 0
    ensures Total(c, true, 0) + Total(c, false, 0) == c[|c| - 1].off - c[0].off
  {
    if |c| > 1 { UsedPlusFree(c[1..]); }
  }

  // ---------- the set of live blocks ----------

  /** A live block of `len` units with its payload at `addr`. */
  ghost predicate Block(c: seq<Blk>, addr: nat, len: int, hdr: nat) {
    exists i :: BlockAt(c, i, addr, len, hdr)
  }

  ghost predicate BlockAt(c: seq<Blk>, i: int, addr: nat, len: int, hdr: nat) {
    0 <= i && i + 1 < |c| && c[i].used && c[i].off + hdr == addr && c[i + 1].off - (c[i].off + hdr) == len
  }

  /** Live payloads are inside the heap and disjoint, with a header between any two. */
  lemma BlocksDisjoint(c: seq<Blk>, end: nat, gap: nat, a: nat, la: int, b: nat, lb: int, hdr: nat)
    requires 0 < hdr <= gap
    requires WellFormed(c, end, gap) && Block(c, a, la, hdr) && Block(c, b, lb, hdr)
    ensures hdr <= a && gap - hdr <= la && a + la <= end
    ensures a == b ==> la == lb
    ensures a != b ==> a + la + hdr <= b || b + lb + hdr <= a
  {
    var i :| BlockAt(c, i, a, la, hdr);
    var j :| BlockAt(c, j, b, lb, hdr);
    assert c[i + 1].off <= c[|c| - 1].off;
    if i < j { assert c[i + 1].off <= c[j].off; }
    if j < i { assert c[j + 1].off <= c[i].off; }
  }

  lemma DropBlocks(c: seq<Blk>, i: nat, addr: nat, len: int, hdr: nat)
    requires 0 < i && i + 1 < |c| && !c[i].used && !c[i - 1].used
    ensures Block(Drop(c, i), addr, len, hdr) <==> Block(c, addr, len, hdr)
  {
    var d := Drop(c, i);
    if Block(c, addr, len, hdr) {
      var j :| BlockAt(c, j, addr, len, hdr);
      assert BlockAt(d, if j < i then j else j - 1, addr, len, hdr);
    }
    if Block(d, addr, len, hdr) {
      var j :| BlockAt(d, j, addr, len, hdr);
      assert BlockAt(c, if j < i then j else j + 1, addr, len, hdr);
    }
  }

  lemma PlugBlocks(c: seq<Blk>, end: nat, gap: nat, i: nat, addr: nat, len: int, hdr: nat)
    requires 0 < hdr <= gap
    requires Tiled(c, end, gap) && i + 1 < |c| && !c[i].used
    ensures Block(Plug(c, i), addr, len, hdr) <==> Block(c, addr, len, hdr)
  {
    hide Block;
    if !c[i + 1].used { DropBlocks(c, i + 1, addr, len, hdr); }
    var right := JoinRight(c, i);
    assert right[i] == c[i] && i + 1 < |right|;
    if i > 0 && !c[i - 1].used { DropBlocks(right, i, addr, len, hdr); }
  }

  lemma SplitBlocks(c: seq<Blk>, end: nat, gap: nat, i: nat, o: nat, addr: nat, len: int, hdr: nat)
    requires 0 < hdr <= gap
    requires Tiled(c, end, gap) && i + 1 < |c| && c[i].off + gap <= o && o + gap <= c[i + 1].off
    ensures Block(Split(c, i, o), addr, len, hdr) <==>
              (Block(c, addr, len, hdr) && addr != c[i].off + hdr)
              || (c[i].used && addr == c[i].off + hdr && len == o - (c[i].off + hdr))
  {
    hide Tiled, Split;
    var d := Split(c, i, o);
    SplitIndex(c, i, o, i);
    if Block(c, addr, len, hdr) && addr != c[i].off + hdr {
      var j :| BlockAt(c, j, addr, len, hdr);
      SplitIndex(c, i, o, j);
      SplitIndex(c, i, o, j + 1);
      assert BlockAt(d, if j < i then j else j + 1, addr, len, hdr);
    }
    if c[i].used && addr == c[i].off + hdr && len == o - (c[i].off + hdr) {
      assert BlockAt(d, i, addr, len, hdr);
    }
    if Block(d, addr, len, hdr) {
      var j :| BlockAt(d, j, addr, len, hdr);
      if j != i && j != i + 1 {
        var m := if j < i then j else j - 1;
        SplitIndex(c, i, o, m);
        SplitIndex(c, i, o, m + 1);
        HeadersDiffer(c, end, gap, i, m);
        assert BlockAt(c, m, addr, len, hdr);
      }
    }
  }

  lemma MarkBlocks(c: seq<Blk>, end: nat, gap: nat, i: nat, used: bool, addr: nat, len: int, hdr: nat)
    requires 0 < hdr <= gap
    requires Tiled(c, end, gap) && i + 1 < |c|
    ensures Block(Mark(c, i, used), addr, len, hdr) <==>
              (Block(c, addr, len, hdr) && addr != c[i].off + hdr)
              || (used && addr == c[i].off + hdr && len == c[i + 1].off - (c[i].off + hdr))
  {
    var d := Mark(c, i, used);
    if Block(c, addr, len, hdr) && addr != c[i].off + hdr {
      var j :| BlockAt(c, j, addr, len, hdr);
      assert BlockAt(d, j, addr, len, hdr);
    }
    if used && addr == c[i].off + hdr && len == c[i + 1].off - (c[i].off + hdr) {
      assert BlockAt(d, i, addr, len, hdr);
    }
    if Block(d, addr, len, hdr) {
      var j :| BlockAt(d, j, addr, len, hdr);
      if j != i {
        HeadersDiffer(c, end, gap, i, j);
        assert BlockAt(c, j, addr, len, hdr);
      }
    }
  }

  lemma FreeIsNoBlock(c: seq<Blk>, end: nat, gap: nat, k: nat, addr: nat, len: int, hdr: nat)
    requires 0 < hdr <= gap
    requires Tiled(c, end, gap) && k < |c| && !c[k].used && addr == c[k].off + hdr
    ensures !Block(c, addr, len, hdr)
  {
    forall j | 0 <= j < |c| && j != k ensures c[j].off != c[k].off {
      HeadersDiffer(c, end, gap, k, j);
    }
  }

  lemma ReleaseBlocks(c: seq<Blk>, end: nat, gap: nat, i: nat, addr: nat, len: int, hdr: nat)
    requires 0 < hdr <= gap
    requires WellFormed(c, end, gap) && i + 1 < |c| && c[i].used
    ensures Block(Release(c, i), addr, len, hdr) <==> Block(c, addr, len, hdr) && addr != c[i].off + hdr
  {
    hide Plug, Mark, Block;
    MarkTiled(c, end, gap, i, false);
    MarkKeeps(c, i, false);
    PlugBlocks(Mark(c, i, false), end, gap, i, addr, len, hdr);
    MarkBlocks(c, end, gap, i, false, addr, len, hdr);
  }

  lemma UsedIsBlock(c: seq<Blk>, end: nat, gap: nat, i: nat, hdr: nat)
    requires hdr <= gap && Tiled(c, end, gap) && i + 1 < |c| && c[i].used
    ensures c[i + 1].off - c[i].off - hdr >= gap - hdr
    ensures Block(c, c[i].off + hdr, c[i + 1].off - (c[i].off + hdr), hdr)
  {
    assert BlockAt(c, i, c[i].off + hdr, c[i + 1].off - (c[i].off + hdr), hdr);
  }

  lemma Neighbours(c: seq<Blk>, i: nat)
    requires Coalesced(c) && i + 1 < |c|
    ensures c[i].used || c[i + 1].used
  {
  }

  // ---------- taking and giving back ----------

  lemma MarkThenRelease(c: seq<Blk>, k: nat)
    requires k + 1 < |c| && !c[k].used && c[k + 1].used && (k > 0 ==> c[k - 1].used)
    ensures k + 1 < |Mark(c, k, true)| && Release(Mark(c, k, true), k) == c
  {
    assert Mark(Mark(c, k, true), k, false) == c;
  }

  /** Coalescing undoes a cut. */
  lemma SplitThenJoin(c: seq<Blk>, k: nat, o: nat)
    requires k + 1 < |c| && !c[k].used && c[k + 1].used && (k > 0 ==> c[k - 1].used)
    ensures k + 1 < |Split(Mark(c, k, true), k, o)| && Release(Split(Mark(c, k, true), k, o), k) == c
  {
    var m := Mark(Split(Mark(c, k, true), k, o), k, false);
    assert m == Split(c, k, o);
    assert m[k + 1] == Blk(o, false);
    assert Drop(m, k + 1) == c;
  }

  function Least(a: int, b: int): int {
    if a < b then a else b
  }
}
