/** rt_memcpy and rt_memmove of kservice.c on a memory of bytes. */
module MemCopy {

  type Byte = b: int | 0 <= b < 256

  /** sizeof(long) */
  const WORD: nat := 4

  /** The memory with the `n` bytes from `src` also at `dst`, as they were. */
  function Moved(m: seq<Byte>, dst: nat, src: nat, n: nat): seq<Byte>
    requires dst + n <= |m| && src + n <= |m|
  {
    m[..dst] + m[src..src + n] + m[dst + n..]
  }

  /** The simple form of the copy: byte by byte, forwards. */
  function ByteCopy(m: seq<Byte>, dst: nat, src: nat, n: nat): (w: seq<Byte>)
    requires dst + n <= |m| && src + n <= |m|
    ensures |w| == |m|
  {
    if n == 0 then m else var w := ByteCopy(m, dst, src, n - 1); w[dst + n - 1 := w[src + n - 1]]
  }

  /** The destination is not behind the source inside the copied range. */
  predicate Forward(dst: nat, src: nat, n: nat) {
    dst <= src || src + n <= dst
  }

  /** Bytes `lo` to `hi` of the range have been copied, and nothing else has changed. */
  ghost predicate Part(m: seq<Byte>, w: seq<Byte>, dst: nat, src: nat, lo: nat, hi: nat) {
    && |w| == |m| && lo <= hi && dst + hi <= |m| && src + hi <= |m|
    && forall p {:trigger w[p]} :: 0 <= p < |m| ==> w[p] == if dst + lo <= p < dst + hi then m[src + (p - dst)]
       else m[p]
  }

  lemma PartIsMoved(m: seq<Byte>, w: seq<Byte>, dst: nat, src: nat, n: nat)
    requires Part(m, w, dst, src, 0, n)
    ensures w == Moved(m, dst, src, n)
  {
    var r := Moved(m, dst, src, n);
    assert |r| == |m|;
    forall p | 0 <= p < |m| ensures w[p] == r[p] {
      if p >= dst + n {
        assert r[p] == m[dst + n..][p - dst - n];
      } else if p >= dst {
        assert r[p] == m[src..src + n][p - dst];
      }
    }
  }

  lemma {:induction false} ByteCopyPart(m: seq<Byte>, dst: nat, src: nat, n: nat, x: nat)
    requires dst + n <= |m| && src + n <= |m| && Forward(dst, src, n) && x <= n
    ensures Part(m, ByteCopy(m, dst, src, x), dst, src, 0, x)
  {
    if x > 0 {
      ByteCopyPart(m, dst, src, n, x - 1);
      var w := ByteCopy(m, dst, src, x - 1);
      assert w[src + x - 1] == m[src + x - 1];
    }
  }

  /** What was written at place `p` before byte `k` is not written again. */
  lemma {:induction false} ByteCopyStays(m: seq<Byte>, dst: nat, src: nat, n: nat, k: nat, p: nat)
    requires dst + n <= |m| && src + n <= |m| && k <= n && p < dst + k
    ensures ByteCopy(m, dst, src, n)[p] == ByteCopy(m, dst, src, k)[p]
  {
    if k < n { ByteCopyStays(m, dst, src, n - 1, k, p); }
  }

  /** The copy leaves at `dst` what was at `src`, and changes nothing else. */
  predicate Delivers(m: seq<Byte>, dst: nat, src: nat, n: nat)
    requires dst + n <= |m| && src + n <= |m|
  {
    ByteCopy(m, dst, src, n) == Moved(m, dst, src, n)
  }

  /** Copying forwards delivers the source, whatever it contains, if and only if the destination does
      not begin inside the source. */
  lemma ByteCopyMoves(size: nat, dst: nat, src: nat, n: nat)
    requires dst + n <= size && src + n <= size
    ensures Forward(dst, src, n) <==> forall m: seq<Byte> :: |m| == size ==> Delivers(m, dst, src, n)
  {
    hide Delivers;
    if Forward(dst, src, n) {
      forall m: seq<Byte> | |m| == size ensures Delivers(m, dst, src, n) {
        ForwardDelivers(m, dst, src, n);
      }
    } else {
      var m := OverlapLoses(size, dst, src, n);
    }
  }

  lemma ForwardDelivers(m: seq<Byte>, dst: nat, src: nat, n: nat)
    requires dst + n <= |m| && src + n <= |m| && Forward(dst, src, n)
    ensures Delivers(m, dst, src, n)
  {
    ByteCopyPart(m, dst, src, n, n);
    PartIsMoved(m, ByteCopy(m, dst, src, n), dst, src, n);
  }

  /** A byte of the source that the copy writes over before it reads it. */
  lemma OverlapLoses(size: nat, dst: nat, src: nat, n: nat) returns (m: seq<Byte>)
    requires dst + n <= size && src + n <= size && !Forward(dst, src, n)
    ensures |m| == size && !Delivers(m, dst, src, n)
  {
    hide ByteCopy;
    var d := dst - src;
    m := seq(size, i => if i == src then 1 else 0);
    ByteCopyStays(m, dst, src, n, d + 1, dst + d);
    ByteCopyNext(m, dst, src, d);
    ByteCopyStays(m, dst, src, d, 1, dst);
    ByteCopyNext(m, dst, src, 0);
    assert Moved(m, dst, src, n)[dst + d] == m[src..src + n][d] == m[dst] == 0;
  }

  lemma ByteCopyNext(m: seq<Byte>, dst: nat, src: nat, x: nat)
    requires dst + x < |m| && src + x < |m|
    ensures ByteCopy(m, dst, src, x + 1) == ByteCopy(m, dst, src, x)[dst + x := ByteCopy(m, dst, src, x)[src + x]]
    ensures ByteCopy(m, dst, src, 0) == m
  {
  }

  /** *aligned_dst++ = *aligned_src++ */
  method CopyWord(mem: array<Byte>, dst: nat, src: nat)
    requires dst + WORD <= mem.Length && src + WORD <= mem.Length
    modifies mem
    ensures mem[..] == WordCopied(old(mem[..]), dst, src)
  {
    mem[dst], mem[dst + 1], mem[dst + 2], mem[dst + 3] := mem[src], mem[src + 1], mem[src + 2], mem[src + 3];
  }

  /** The whole word is read before any of it is written. */
  function WordCopied(w: seq<Byte>, dst: nat, src: nat): seq<Byte>
    requires dst + WORD <= |w| && src + WORD <= |w|
  {
    w[dst := w[src]][dst + 1 := w[src + 1]][dst + 2 := w[src + 2]][dst + 3 := w[src + 3]]
  }

  /** Between aligned addresses a word at a time is the same as four bytes in turn, also when the
      ranges overlap. */
  lemma WordIsFourBytes(m: seq<Byte>, dst: nat, src: nat, x: nat)
    requires dst + x + WORD <= |m| && src + x + WORD <= |m| && dst % WORD == 0 && src % WORD == 0
    ensures ByteCopy(m, dst, src, x + WORD) == WordCopied(ByteCopy(m, dst, src, x), dst + x, src + x)
  {
    var w := ByteCopy(m, dst, src, x);
    var w1 := ByteCopy(m, dst, src, x + 1);
    var w2 := ByteCopy(m, dst, src, x + 2);
    var w3 := ByteCopy(m, dst, src, x + 3);
    assert dst - src != 1 && dst - src != 2 && dst - src != 3;
    assert w1[src + x + 1] == w[src + x + 1];
    assert w2[src + x + 2] == w[src + x + 2];
    assert w3[src + x + 3] == w[src + x + 3];
  }

  /** rt_memcpy: word by word where both addresses are aligned and the length is worth it, always with
      the result of the simple form. */
  method MemCpy(mem: array<Byte>, dst: nat, src: nat, count: nat)
    requires dst + count <= mem.Length && src + count <= mem.Length
    modifies mem
    ensures mem[..] == ByteCopy(old(mem[..]), dst, src, count)
  {
    hide ByteCopy;
    ghost var m := mem[..];
    var x: nat := 0;
    ByteCopyNone(m, dst, src);
    if count >= 4 * WORD && dst % WORD == 0 && src % WORD == 0 {
      x := CopyWords(mem, dst, src, count);
    }
    var len: nat := count - x;
    while len > 0
      invariant x + len == count && mem[..] == ByteCopy(m, dst, src, x)
    {
      ByteCopyNext(m, dst, src, x);
      ghost var w := mem[..];
      mem[dst + x] := mem[src + x];
      assert mem[..] == w[dst + x := w[src + x]];
      x, len := x + 1, len - 1;
    }
  }

  lemma ByteCopyNone(m: seq<Byte>, dst: nat, src: nat)
    requires dst <= |m| && src <= |m|
    ensures ByteCopy(m, dst, src, 0) == m
  {
  }

  /** The loops of four words and of one word at a time. */
  method CopyWords(mem: array<Byte>, dst: nat, src: nat, count: nat) returns (x: nat)
    requires dst + count <= mem.Length && src + count <= mem.Length && dst % WORD == 0 && src % WORD == 0
    modifies mem
    ensures x <= count && mem[..] == ByteCopy(old(mem[..]), dst, src, x)
  {
    hide ByteCopy;
    ghost var m := mem[..];
    ByteCopyNone(m, dst, src);
    var len: nat := count;
    x := 0;
    while len >= 4 * WORD
      invariant x + len == count && mem[..] == ByteCopy(m, dst, src, x)
    {
      x := CopyNext(mem, dst, src, x, m);
      x := CopyNext(mem, dst, src, x, m);
      x := CopyNext(mem, dst, src, x, m);
      x := CopyNext(mem, dst, src, x, m);
      len := len - 4 * WORD;
    }
    while len >= WORD
      invariant x + len == count && mem[..] == ByteCopy(m, dst, src, x)
    {
      x := CopyNext(mem, dst, src, x, m);
      len := len - WORD;
    }
  }

  method CopyNext(mem: array<Byte>, dst: nat, src: nat, x: nat, ghost m: seq<Byte>) returns (y: nat)
    requires |m| == mem.Length && dst + x + WORD <= |m| && src + x + WORD <= |m| && dst % WORD == 0 && src % WORD == 0
    requires mem[..] == ByteCopy(m, dst, src, x)
    modifies mem
    ensures y == x + WORD && mem[..] == ByteCopy(m, dst, src, y)
  {
    hide WordCopied;
    WordIsFourBytes(m, dst, src, x);
    CopyWord(mem, dst + x, src + x);
    y := x + WORD;
  }

  /** One more byte is copied in front of those behind `x`. */
  lemma PartGrowsDown(m: seq<Byte>, w: seq<Byte>, dst: nat, src: nat, x: nat, n: nat)
    requires Part(m, w, dst, src, x, n) && x > 0 && src <= dst
    ensures |w| == |m| && dst + n <= |m| && src + n <= |m|
            && Part(m, w[dst + x - 1 := w[src + x - 1]], dst, src, x - 1, n)
  {
    assert w[src + x - 1] == m[src + x - 1];
  }

  lemma EmptyPart(m: seq<Byte>, dst: nat, src: nat, n: nat)
    requires dst + n <= |m| && src + n <= |m|
    ensures Part(m, m, dst, src, n, n)
  {
  }

  /** rt_memmove: whatever the ranges, the source arrives unchanged and nothing else changes. */
  method MemMove(mem: array<Byte>, dst: nat, src: nat, n: nat)
    requires dst + n <= mem.Length && src + n <= mem.Length
    modifies mem
    ensures mem[..] == Moved(old(mem[..]), dst, src, n)
  {
    hide Part, Moved;
    ghost var m := mem[..];
    var x: nat;
    if src < dst && dst < src + n {
      EmptyPart(m, dst, src, n);
      x := n;
      while x > 0
        invariant x <= n && Part(m, mem[..], dst, src, x, n)
      {
        PartGrowsDown(m, mem[..], dst, src, x, n);
        ghost var w := mem[..];
        x := x - 1;
        mem[dst + x] := mem[src + x];
        assert mem[..] == w[dst + x := w[src + x]];
      }
    } else {
      x := 0;
      while x < n
        invariant x <= n && mem[..] == ByteCopy(m, dst, src, x)
      {
        ghost var w := mem[..];
        mem[dst + x] := mem[src + x];
        assert mem[..] == w[dst + x := w[src + x]];
        x := x + 1;
      }
      ByteCopyPart(m, dst, src, n, n);
    }
    PartIsMoved(m, mem[..], dst, src, n);
  }
}
