/** What the words of a block hold over a whole run of one of the two heaps: what its owner has last written. */
module HeapContents {
  import opened BlockChain
  import SmallMemChain
  import SmallMemImage
  import SmallMemTheorems
  import MemheapChain
  import MemheapTheorems
  import Memheap

  /** A call of the allocator that names the block at `named`, if any, or a write of the owner of the block at
      `addr` to its word `i`. */
  datatype Act = Call(named: int) | Write(addr: nat, i: nat, v: nat)

  /** No word of a live block other than the one at `except` has changed, and these blocks still live. */
  ghost predicate Spared(c: seq<Blk>, w: seq<nat>, d: seq<Blk>, w': seq<nat>, except: int, hdr: nat) {
    && |w| == |w'|
    && (forall addr: nat, len: int :: Block(c, addr, len, hdr) && addr != except ==>
          Block(d, addr, len, hdr) && SameWords(w, w', addr, len))
  }

  predicate SameWords(w: seq<nat>, w': seq<nat>, addr: nat, len: int) {
    forall a :: addr <= a < addr + len && a < |w| && a < |w'| ==> w'[a] == w[a]
  }

  ghost predicate InBlock(c: seq<Blk>, addr: nat, i: nat, hdr: nat) {
    exists len: int :: Block(c, addr, len, hdr) && i < len
  }

  ghost predicate Follows(c: seq<Blk>, w: seq<nat>, d: seq<Blk>, w': seq<nat>, x: Act, hdr: nat) {
    match x
    case Call(named) => Spared(c, w, d, w', named, hdr)
    case Write(addr, i, v) => InBlock(c, addr, i, hdr) && d == c && addr + i < |w| && w' == w[addr + i := v]
  }

  /** A run: `cs[k]` is the chain and `ws[k]` the memory before act `acts[k]`. */
  ghost predicate Run(cs: seq<seq<Blk>>, ws: seq<seq<nat>>, acts: seq<Act>, end: nat, gap: nat, hdr: nat) {
    && |cs| == |ws| == |acts| + 1 && 0 < hdr <= gap && |ws[0]| >= end
    && (forall k :: 0 <= k < |cs| ==> WellFormed(cs[k], end, gap))
    && (forall k :: 0 <= k < |acts| ==> Follows(cs[k], ws[k], cs[k + 1], ws[k + 1], acts[k], hdr))
  }

  /** What was last written to word `i` of the block at `addr` in the acts from `s` to before `t`, or `before`. */
  function LastWritten(acts: seq<Act>, s: nat, t: nat, addr: nat, i: nat, before: nat): nat
    requires s <= t <= |acts|
  {
    if s == t then before
    else if acts[t - 1].Write? && acts[t - 1].addr == addr && acts[t - 1].i == i then acts[t - 1].v
    else LastWritten(acts, s, t - 1, addr, i, before)
  }

  /** A write changes no word of another block. */
  lemma WriteApart(c: seq<Blk>, end: nat, gap: nat, hdr: nat, addr: nat, len: int, a: nat, i: nat)
    requires 0 < hdr <= gap && WellFormed(c, end, gap) && Block(c, addr, len, hdr) && InBlock(c, a, i, hdr)
    ensures a + i < end && (a != addr ==> !(addr <= a + i < addr + len))
  {
    var l: int :| Block(c, a, l, hdr) && i < l;
    BlocksDisjoint(c, end, gap, addr, len, a, l, hdr);
  }

  /** As long as no call names a block, it stays where it is and each of its words holds what was last written
      to it through the block, whatever happens to all other blocks. */
  lemma {:induction false} RunContents(cs: seq<seq<Blk>>, ws: seq<seq<nat>>, acts: seq<Act>,
                                       end: nat, gap: nat, hdr: nat, s: nat, t: nat, addr: nat, len: int, i: nat)
    requires Run(cs, ws, acts, end, gap, hdr) && s <= t <= |acts| && Block(cs[s], addr, len, hdr) && i < len
    requires forall u :: s <= u < t && acts[u].Call? ==> acts[u].named != addr
    ensures Block(cs[t], addr, len, hdr) && addr + i < |ws[s]| && |ws[t]| == |ws[s]| == |ws[0]|
    ensures ws[t][addr + i] == LastWritten(acts, s, t, addr, i, ws[s][addr + i])
    decreases t - s
  {
    SizeStays(cs, ws, acts, end, gap, hdr, s);
    BlocksDisjoint(cs[s], end, gap, addr, len, addr, len, hdr);
    if s < t {
      RunContents(cs, ws, acts, end, gap, hdr, s, t - 1, addr, len, i);
      var c, w, w', x := cs[t - 1], ws[t - 1], ws[t], acts[t - 1];
      assert Follows(c, w, cs[t], w', x, hdr);
      hide Block;
      match x
      case Call(named) =>
        assert SameWords(w, w', addr, len);
      case Write(a, j, v) =>
        WriteApart(c, end, gap, hdr, addr, len, a, j);
    }
  }

  lemma {:induction false} SizeStays(cs: seq<seq<Blk>>, ws: seq<seq<nat>>, acts: seq<Act>, end: nat, gap: nat,
                                     hdr: nat, k: nat)
    requires Run(cs, ws, acts, end, gap, hdr) && k <= |acts|
    ensures |ws[k]| == |ws[0]|
  {
    if k > 0 {
      SizeStays(cs, ws, acts, end, gap, hdr, k - 1);
      assert Follows(cs[k - 1], ws[k - 1], cs[k], ws[k], acts[k - 1], hdr);
    }
  }

  // ---------- the two heaps ----------

  function SmallNamed(op: SmallMemTheorems.Op): int {
    match SmallMemTheorems.Touched(op)
    case Null => -1
    case At(addr) => addr
  }

  function SmallIndex(c: seq<Blk>, op: SmallMemTheorems.Op): int
    requires |c| > 0
  {
    match SmallMemTheorems.Touched(op)
    case Null => -1
    case At(addr) => SmallMemChain.BlockOf(c, addr, 0)
  }

  /** A call of the small-memory heap, with what its methods ensure about the words, is such a call. */
  lemma SmallMemCall(c: seq<Blk>, total: nat, w: seq<nat>, w': seq<nat>, op: SmallMemTheorems.Op)
    requires WellFormed(c, total + SmallMemChain.HDR, SmallMemChain.GAP) && SmallMemTheorems.Allowed(c, op)
    requires SmallMemImage.Same(c, w, w', SmallIndex(c, op))
    ensures var d := SmallMemTheorems.Step(c, total, op).0;
            && WellFormed(d, total + SmallMemChain.HDR, SmallMemChain.GAP)
            && Follows(c, w, d, w', Call(SmallNamed(op)), SmallMemChain.HDR)
  {
    var hdr := SmallMemChain.HDR;
    var d := SmallMemTheorems.Step(c, total, op).0;
    hide SmallMemTheorems.Step;
    SmallMemTheorems.StepSafe(c, total, op, 0, 0);
    forall addr: nat, len: int | Block(c, addr, len, hdr) && addr != SmallNamed(op)
      ensures Block(d, addr, len, hdr) && SameWords(w, w', addr, len)
    {
      SmallMemTheorems.StepSafe(c, total, op, addr, len);
      var j :| BlockAt(c, j, addr, len, hdr);
      forall a | addr <= a < addr + len && a < |w| && a < |w'| ensures w'[a] == w[a] {
        assert SmallMemImage.PayloadWord(c, j, a, SmallIndex(c, op));
      }
    }
  }

  function MemheapNamed(op: MemheapTheorems.Op): nat {
    match MemheapTheorems.Touched(op)
    case Null => 0
    case At(addr) => addr
  }

  /** A call of the memheap, with what its methods ensure about the words, is such a call. */
  lemma MemheapCall(p: MemheapChain.Pool, end: nat, w: seq<nat>, w': seq<nat>, op: MemheapTheorems.Op)
    requires MemheapChain.Inv(p, end) && MemheapTheorems.Allowed(p.chain, op)
    requires Memheap.DataKept(p.chain, w, w', MemheapNamed(op))
    ensures var d := MemheapTheorems.Step(p, end, op).0.chain;
            && WellFormed(d, end, MemheapChain.HDR)
            && Follows(p.chain, w, d, w', Call(MemheapNamed(op)), MemheapChain.HDR)
  {
    var hdr := MemheapChain.HDR;
    var d := MemheapTheorems.Step(p, end, op).0.chain;
    hide MemheapTheorems.Step;
    MemheapTheorems.StepSafe(p, end, op, 0, 0);
    forall addr: nat, len: int | Block(p.chain, addr, len, hdr) && addr != MemheapNamed(op)
      ensures Block(d, addr, len, hdr) && SameWords(w, w', addr, len)
    {
      MemheapTheorems.StepSafe(p, end, op, addr, len);
      var j :| BlockAt(p.chain, j, addr, len, hdr);
      forall a | addr <= a < addr + len && a < |w| && a < |w'| ensures w'[a] == w[a] {
        assert Memheap.PayloadWord(p.chain, j, a, MemheapNamed(op));
      }
    }
  }
}
