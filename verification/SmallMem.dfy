/** The small-memory allocator: one array of four-byte words holds both the block headers and the
    payloads, and every operation rewrites headers in place.  Each method is tied to its reference
    definition on block chains, and says which payload words it leaves alone. */
module SmallMem {
  import opened BlockChain
  import opened SmallMemChain
  import opened SmallMemImage

  class Heap {
    /** mem_size_aligned */
    const total: nat
    /** The memory from heap_ptr up to and including the header at heap_end. */
    const mem: array<nat>
    var lfree: nat
    var usedMem: int
    var maxMem: int
    ghost var chain: seq<Blk>

    ghost predicate Shows()
      reads this, mem
    {
      Image(chain, total, mem[..])
    }

    ghost predicate Accounted()
      reads this
    {
      |chain| > 0 && lfree == LowestFree(chain) && usedMem == UsedUnits(chain) && usedMem <= maxMem
    }

    ghost predicate Valid()
      reads this, mem
    {
      Shows() && Coalesced(chain) && Accounted()
    }

    constructor (total: nat)
      requires total >= MIN
      ensures Valid() && fresh(mem)
      ensures this.total == total && chain == Initial(total + HDR)
      ensures usedMem == 0 && maxMem == 0
    {
      this.total := total;
      var m := new nat[total + 2 * HDR];
      m[0], m[1], m[2] := Tag(false), total + HDR, 0;
      m[total + HDR], m[total + HDR + 1], m[total + HDR + 2] := Tag(true), total + HDR, total + HDR;
      mem := m;
      lfree, usedMem, maxMem := 0, 0, 0;
      chain := Initial(total + HDR);
      new;
      InitialTotals(total + HDR, 0);
    }

    /** The link surgery of both halves of plug_holes: header `right` disappears into `left`. */
    method Absorb(left: nat, right: nat, ghost i: nat)
      requires Shows() && 0 < i && i + 1 < |chain|
      requires chain[i - 1].off == left && chain[i].off == right
      modifies mem, this`chain
      ensures Shows() && chain == Drop(old(chain), i)
      ensures Same(old(chain), old(mem[..]), mem[..], -1)
    {
      UnlinkedImage(chain, total, mem[..], i);
      assert chain[i - 1].off + 1 < mem.Length && chain[i + 1].off + 2 < mem.Length;
      ghost var w := mem[..];
      assert mem[right + 1] == chain[i + 1].off;
      mem[left + 1] := mem[right + 1];
      mem[mem[right + 1] + 2] := left;
      assert mem[..] == Unlinked(chain, w, i);
      chain := Drop(chain, i);
    }

    /** First half of plug_holes: combine with a free right neighbour. */
    method PlugForward(m: nat, ghost i: nat)
      requires Shows() && CoalescedBut(chain, i)
      requires i + 1 < |chain| && chain[i] == Blk(m, false)
      modifies this`lfree, this`chain, mem
      ensures Shows()
      ensures lfree == if !old(chain)[i + 1].used && old(lfree) == old(chain)[i + 1].off then m else old(lfree)
      ensures chain == JoinRight(old(chain), i)
      ensures Same(old(chain), old(mem[..]), mem[..], -1)
    {
      ReadHeader(chain, total, mem[..], i);
      ReadHeader(chain, total, mem[..], i + 1);
      assert chain[i].off < chain[i + 1].off;
      var next := mem[m + 1];
      if m != next && !IsUsed(mem[next]) && next != total + HDR {
        if lfree == next { lfree := m; }
        Absorb(m, next, i + 1);
      }
    }

    /** Second half of plug_holes: combine with a free left neighbour. */
    method PlugBackward(m: nat, ghost i: nat)
      requires Shows()
      requires i + 1 < |chain| && chain[i] == Blk(m, false)
      modifies this`lfree, this`chain, mem
      ensures Shows()
      ensures lfree == if i > 0 && !old(chain)[i - 1].used && old(lfree) == m then old(chain)[i - 1].off else old(lfree)
      ensures chain == JoinLeft(old(chain), i)
      ensures Same(old(chain), old(mem[..]), mem[..], -1)
    {
      ReadHeader(chain, total, mem[..], i);
      if i > 0 {
        ReadHeader(chain, total, mem[..], i - 1);
        assert chain[i - 1].off < chain[i].off;
      }
      var prev := mem[m + 2];
      if prev != m && !IsUsed(mem[prev]) {
        if lfree == m { lfree := prev; }
        Absorb(prev, m, i);
      }
    }

    /** plug_holes: only the chain changes, and `lfree` stays where it is because it was at or
        below both blocks that disappear. */
    method PlugHoles(m: nat, ghost i: nat)
      requires Shows() && Tiled(chain, total + HDR, GAP) && CoalescedBut(chain, i) && lfree == LowestFree(chain)
      requires i + 1 < |chain| && chain[i] == Blk(m, false)
      modifies this`lfree, this`chain, mem
      ensures Shows() && chain == Plug(old(chain), i) && lfree == old(lfree)
      ensures Same(old(chain), old(mem[..]), mem[..], -1)
    {
      hide Coalesced, CoalescedBut, Tags, Nexts, Prevs, Ends, Same;
      ghost var c, w := chain, mem[..];
      LowestFreeLeft(c, total + HDR, i);
      PlugForward(m, i);
      ghost var v := mem[..];
      PlugBackward(m, i);
      SameJoin(c, i, w, v, mem[..]);
    }

    /** The search loop of rt_malloc: it starts at `lfree`, yet finds the first fit of the whole heap. */
    method Search(n: nat) returns (ptr: nat, found: bool)
      requires Valid() && n <= total
      ensures var k := FirstFit(chain, n, 0);
              if found then k + 1 < |chain| && !ExactAtEnd(chain, k, n) && ptr == chain[k].off
              else k + 1 == |chain| || ExactAtEnd(chain, k, n)
    {
      hide Tiled, Tags, Nexts, Prevs, Ends, Coalesced;
      ghost var c, w := chain, mem[..];
      ghost var k := LowestFreeAt(c);
      ptr := lfree;
      while ptr < total - n
        invariant k < |c| && ptr == c[k].off
        invariant forall j :: 0 <= j < k ==> !Fits(c, j, n)
        decreases |c| - k
      {
        ReadHeader(c, total, w, k);
        if !IsUsed(mem[ptr]) && mem[ptr + 1] >= ptr + HDR + n {
          FirstFitIs(c, n, k);
          NotAtEnd(c, total, n, k);
          return ptr, true;
        }
        ptr := mem[ptr + 1];
        k := k + 1;
      }
      SearchExhausted(c, total, n, k);
      return ptr, false;
    }

    /** rt_malloc */
    method Malloc(size: nat) returns (r: Ptr)
      requires Valid()
      modifies this, mem
      ensures Valid()
      ensures (chain, r) == MallocSpec(old(chain), total, size)
      ensures maxMem == if usedMem > old(maxMem) then usedMem else old(maxMem)
      ensures Same(old(chain), old(mem[..]), mem[..], -1)
    {
      hide Tiled, Coalesced, Tags, Nexts, Prevs, Ends, AllocAt, Room;
      if size == 0 { return Null; }
      var n := Units(size);
      if n > total { return Null; }
      if n < MIN { n := MIN; }
      var ptr, found := Search(n);
      if !found { return Null; }
      Take(ptr, n, FirstFit(chain, n, 0));
      return At(ptr + HDR);
    }

    /** Create a free header at `ptr2` inside the block at `ptr` and insert it between that block
        and the next one. */
    method LinkRemainder(ptr: nat, ptr2: nat, ghost k: nat)
      requires Shows() && k + 1 < |chain| && chain[k].off == ptr
      requires ptr + HDR < ptr2 && ptr2 + HDR < chain[k + 1].off
      modifies mem, this`chain
      ensures Shows() && chain == Split(old(chain), k, ptr2)
      ensures Same(old(chain), old(mem[..]), mem[..], k)
      ensures ptr2 <= mem.Length && mem[ptr + HDR..ptr2] == old(mem[ptr + HDR..ptr2])
    {
      hide Tiled, Tags, Nexts, Prevs, Same, Split;
      ghost var c, w := chain, mem[..];
      ReadHeader(c, total, w, k);
      ReadHeader(c, total, w, k + 1);
      LinkedImage(c, total, w, k, ptr2);
      mem[ptr2] := Tag(false);
      mem[ptr2 + 1] := mem[ptr + 1];
      mem[ptr2 + 2] := ptr;
      mem[ptr + 1] := ptr2;
      if mem[ptr2 + 1] != total + HDR { mem[mem[ptr2 + 1] + 2] := ptr2; }
      chain := Split(c, k, ptr2);
      assert mem[..] == Linked(c, total, w, k, ptr2);
      assert mem[ptr + HDR..ptr2] == mem[..][ptr + HDR..ptr2];
    }

    /** Write the used flag of the block at `ptr`. */
    method SetUsed(ptr: nat, used: bool, ghost k: nat)
      requires Shows() && k + 1 < |chain| && chain[k].off == ptr
      modifies mem, this`chain
      ensures Shows() && chain == Mark(old(chain), k, used)
      ensures Same(old(chain), old(mem[..]), mem[..], -1)
    {
      hide Tiled, Tags, Nexts, Prevs, Same, Mark;
      ghost var w := mem[..];
      MarkedImage(chain, total, w, k, used);
      mem[ptr] := Tag(used);
      assert mem[..] == w[ptr := Tag(used)];
      chain := Mark(chain, k, used);
    }

    /** The header and counter updates of rt_malloc on the block it has found. */
    method Claim(ptr: nat, n: nat, ghost k: nat)
      requires Shows() && k + 1 < |chain| && chain[k].off == ptr && Fits(chain, k, n) && n > 0
      modifies this`usedMem, this`maxMem, this`chain, mem
      ensures Shows() && chain == AllocAt(old(chain), k, n)
      ensures usedMem - old(usedMem) == UsedUnits(chain) - UsedUnits(old(chain))
      ensures maxMem == if usedMem > old(maxMem) then usedMem else old(maxMem)
      ensures Same(old(chain), old(mem[..]), mem[..], -1)
    {
      hide Tiled, Coalesced, CoalescedBut, Tags, Nexts, Prevs, Ends, Same, AllocAt, Mark;
      ghost var c, w := chain, mem[..];
      ReadHeader(c, total, w, k);
      if mem[ptr + 1] - (ptr + HDR) >= n + HDR + MIN {
        usedMem := usedMem + (n + HDR);
        LinkRemainder(ptr, ptr + HDR + n, k);
      } else {
        usedMem := usedMem + (mem[ptr + 1] - ptr);
      }
      if maxMem < usedMem { maxMem := usedMem; }
      ghost var v := mem[..];
      SetUsed(ptr, true, k);
      AllocSteps(c, k, n);
      SameAlloc(c, k, n, w, v, mem[..]);
      UsedAlloc(c, k, n);
    }

    /** What rt_malloc does with the block it has found. */
    method Take(ptr: nat, n: nat, ghost k: nat)
      requires Valid() && n > 0
      requires k + 1 < |chain| && chain[k].off == ptr && Fits(chain, k, n)
      modifies this, mem
      ensures Valid()
      ensures chain == AllocAt(old(chain), k, n)
      ensures maxMem == if usedMem > old(maxMem) then usedMem else old(maxMem)
      ensures Same(old(chain), old(mem[..]), mem[..], -1)
    {
      hide Tiled, CoalescedBut, Tags, Nexts, Prevs, Ends, Same, AllocAt, Room;
      AllocWellFormed(chain, total + HDR, k, n);
      LowestFreeAlloc(chain, total + HDR, k, n);
      Claim(ptr, n, k);
      if ptr == lfree { AdvanceLfree(k); }
    }

    /** Find the next free block and update the lowest free pointer. */
    method AdvanceLfree(ghost k: nat)
      requires Shows() && k < |chain| && lfree == chain[k].off
      requires forall j :: 0 <= j < k ==> chain[j].used
      modifies this`lfree
      ensures lfree == LowestFree(chain)
    {
      hide Tags, Nexts, Prevs, Ends;
      ghost var i := k;
      ReadHeader(chain, total, mem[..], i);
      while IsUsed(mem[lfree]) && lfree != total + HDR
        invariant i < |chain| && lfree == chain[i].off && lfree < mem.Length
        invariant IsUsed(mem[lfree]) == chain[i].used
        invariant forall j :: 0 <= j < i ==> chain[j].used
        decreases |chain| - i
      {
        ReadHeader(chain, total, mem[..], i);
        lfree := mem[lfree + 1];
        i := i + 1;
        ReadHeader(chain, total, mem[..], i);
      }
      ReadHeader(chain, total, mem[..], i);
      LowestFreeIs(chain, i);
    }

    /** rt_free */
    method Free(p: Ptr)
      requires Valid() && Legal(chain, p)
      modifies this, mem
      ensures Valid()
      ensures chain == FreeSpec(old(chain), p) && maxMem == old(maxMem)
      ensures Same(old(chain), old(mem[..]), mem[..], if p.At? then BlockOf(old(chain), p.addr, 0) else -1)
    {
      hide Plug, Coalesced, CoalescedBut, Mark, Tags, Nexts, Prevs;
      if p.Null? || p.addr >= total + HDR { return; }
      ghost var i := BlockOf(chain, p.addr, 0);
      var m := p.addr - HDR;
      ReadHeader(chain, total, mem[..], i);
      ReleaseWellFormed(chain, total + HDR, GAP, i);
      LowestFreeMark(chain, total + HDR, i);
      UsedRelease(chain, total + HDR, i);
      Unclaim(m, i);
    }

    /** The header and counter updates of rt_free. */
    method Unclaim(m: nat, ghost i: nat)
      requires Shows() && Coalesced(chain)
      requires i + 1 < |chain| && chain[i] == Blk(m, true)
      requires LowestFree(Mark(chain, i, false)) == if m < lfree then m else lfree
      modifies this`chain, this`lfree, this`usedMem, mem
      ensures Shows() && chain == Release(old(chain), i)
      ensures lfree == LowestFree(Mark(old(chain), i, false))
      ensures usedMem == old(usedMem) - (old(chain)[i + 1].off - m)
      ensures Same(old(chain), old(mem[..]), mem[..], i)
    {
      hide Plug, Tiled, Coalesced, CoalescedBut, Tags, Nexts, Prevs, Same;
      ghost var c, w := chain, mem[..];
      SetUsed(m, false, i);
      if m < lfree { lfree := m; }
      ReadHeader(chain, total, mem[..], i);
      usedMem := usedMem - (mem[m + 1] - m);
      ghost var v := mem[..];
      MarkCoalescedBut(c, i);
      PlugHoles(m, i);
      SameRelease(c, i, w, v, mem[..]);
    }

    /** rt_realloc.  The first min(old, new) words of the block survive, in place or moved; when the
        request fails the old block is untouched, unless the size rounds to 0, as 0 and the sizes above
        2^32 - 4 do: then the block is freed.  No other used block changes either way. */
    method Realloc(p: Ptr, newsize: nat) returns (r: Ptr)
      requires Valid() && Legal(chain, p)
      modifies this, mem
      ensures Valid()
      ensures (chain, r) == ReallocSpec(old(chain), total, p, newsize)
      ensures maxMem == MaxAfter(old(chain), total, p, newsize, old(maxMem))
      ensures Same(old(chain), old(mem[..]), mem[..], if p.At? then BlockOf(old(chain), p.addr, 0) else -1)
      ensures p.At? && r.Null? && Units(newsize) != 0 ==> Same(old(chain), old(mem[..]), mem[..], -1)
      ensures p.At? && p.addr < total + HDR && r.At? ==>
                var kept := Least(Room(old(chain), BlockOf(old(chain), p.addr, 0)), Units(newsize));
                Holds(old(mem[..]), p.addr, mem[..], r.addr, kept)
    {
      hide Plug, Tiled, Coalesced, CoalescedBut, Tags, Nexts, Prevs, Same, Split, AllocAt;
      ghost var w := mem[..];
      var n := Units(newsize);
      ghost var i := if p.At? then BlockOf(chain, p.addr, 0) else -1;
      SameRefl(chain, w, i);
      SameRefl(chain, w, -1);
      LastHeader(chain, total, w);
      if n > total { return Null; }
      if n == 0 {
        Free(p);
        return Null;
      }
      if p.Null? {
        r := Malloc(n * 4);
        return r;
      }
      if p.addr >= total + HDR { return p; }
      assert chain[i] == Blk(p.addr - HDR, true);
      BlockInside(chain, total, w, i);
      ReadHeader(chain, total, mem[..], i);
      var m := p.addr - HDR;
      var size := mem[m + 1] - m - HDR;
      if size == n { return p; }
      if n + HDR + MIN < size {
        Trim(m, n, i);
        return p;
      }
      r := Move(p, size, n, i);
    }

    /** rt_realloc, splitting the block in place. */
    method Trim(m: nat, n: nat, ghost i: nat)
      requires Valid() && i + 1 < |chain| && chain[i] == Blk(m, true)
      requires 0 < n && n + HDR + MIN < Room(chain, i)
      modifies this`chain, this`lfree, this`usedMem, mem
      ensures Valid()
      ensures chain == ShrinkAt(old(chain), i, n)
      ensures Same(old(chain), old(mem[..]), mem[..], i)
      ensures Holds(old(mem[..]), m + HDR, mem[..], m + HDR, n)
    {
      hide Tiled, Coalesced, CoalescedBut, Tags, Nexts, Prevs, Ends, Same, Plug;
      ghost var c, w := chain, mem[..];
      ReadHeader(c, total, w, i);
      var ptr2 := m + HDR + n;
      assert Blk(m, true) == c[i];
      ShrinkWellFormed(c, total + HDR, i, n);
      SplitReady(c, total + HDR, GAP, i, ptr2);
      LowestFreeSplit(c, total + HDR, i, ptr2);
      UsedShrink(c, total + HDR, i, n);
      usedMem := usedMem - (mem[m + 1] - m - HDR - n);
      LinkRemainder(m, ptr2, i);
      if ptr2 < lfree { lfree := ptr2; }
      ghost var v := mem[..];
      PlugHoles(ptr2, i + 1);
      LastHeader(chain, total, mem[..]);
      SameTrim(c, total, i, ptr2, w, v, mem[..]);
    }

    /** rt_realloc, moving the block: allocate, copy, free. */
    method Move(p: Ptr, size: nat, n: nat, ghost i: nat) returns (r: Ptr)
      requires Valid() && 0 < n < TWO_32 / 4
      requires p.At? && p.addr < total + HDR && Live(chain, p.addr)
      requires i == BlockOf(chain, p.addr, 0) && size == Room(chain, i)
      modifies this, mem
      ensures Valid()
      ensures var used := UsedUnits(MallocSpec(old(chain), total, n * 4).0);
              maxMem == if used > old(maxMem) then used else old(maxMem)
      ensures var (d, q) := MallocSpec(old(chain), total, n * 4);
              r == q && |d| > 0 && Legal(d, p) && chain == if q.Null? then d else FreeSpec(d, p)
      ensures Same(old(chain), old(mem[..]), mem[..], i)
      ensures r.Null? ==> Same(old(chain), old(mem[..]), mem[..], -1)
      ensures r.At? ==> Holds(old(mem[..]), p.addr, mem[..], r.addr, Least(size, n))
    {
      hide Tiled, Coalesced, CoalescedBut, Tags, Nexts, Prevs, Ends, Same, Plug, AllocAt, Release;
      ghost var c, w := chain, mem[..];
      MallocKeepsLive(c, total, n * 4, p.addr);
      r := Malloc(n * 4);
      SameWeaker(c, w, mem[..], i);
      if r.Null? { return; }
      ghost var d, v := chain, mem[..];
      ghost var k := FirstFit(c, Request(n * 4), 0);
      ghost var j := AfterAlloc(c, k, Request(n * 4), i);
      BlockAfterAlloc(c, total + HDR, k, Request(n * 4), i);
      assert Units(n * 4) == n;
      var len := Least(size, n);
      Copy(r.addr, p.addr, len, k, j);
      ghost var u := mem[..];
      Free(p);
      SameMove(c, total, k, Request(n * 4), i, w, v, u, mem[..]);
      MoveContents(c, d, i, j, k, len, w, v, u, mem[..]);
    }

    /** rt_memcpy from the payload of block `j` into the payload of block `k`. */
    method Copy(dst: nat, src: nat, len: nat, ghost k: nat, ghost j: nat)
      requires Valid() && j != k
      requires k + 1 < |chain| && chain[k].used && chain[k].off + HDR == dst && len <= Room(chain, k)
      requires j + 1 < |chain| && chain[j].used && chain[j].off + HDR == src && len <= Room(chain, j)
      modifies mem
      ensures Valid()
      ensures Same(chain, old(mem[..]), mem[..], k)
      ensures Holds(old(mem[..]), src, mem[..], dst, len)
    {
      hide Coalesced, CoalescedBut, Tags, Nexts, Prevs, Ends, Same, Tiled, Holds;
      ghost var w := mem[..];
      BlockInside(chain, total, w, j);
      BlockInside(chain, total, w, k);
      BlocksApart(chain, total, j, k);
      SameRefl(chain, w, k);
      CopyStart(w, src, dst, len);
      for a := 0 to len
        invariant Shows() && Same(chain, w, mem[..], k)
        invariant Holds(w, src, mem[..], dst, a) && Holds(w, src, mem[..], src, len)
      {
        ghost var v := mem[..];
        PayloadWrite(chain, total, v, k, dst + a, mem[src + a]);
        CopyStep(w, v, src, dst, len, a);
        mem[dst + a] := mem[src + a];
        assert mem[..] == v[dst + a := v[src + a]];
        SameTrans(chain, w, v, mem[..], k);
      }
    }
  }
}
