/** How a block chain looks in memory: the three header words of every block, and what one
    link update does to them. */
module SmallMemImage {
  import opened BlockChain
  import opened SmallMemChain

  const HEAP_MAGIC: nat := 0x1ea0

  /** The first header word: the magic in the low half, the used flag in the high half. */
  function Tag(used: bool): nat {
    HEAP_MAGIC + (if used then 0x10000 else 0)
  }

  predicate IsUsed(tag: nat) {
    tag / 0x10000 != 0
  }

  ghost predicate Tags(c: seq<Blk>, w: seq<nat>) {
    forall i :: 0 <= i < |c| ==> c[i].off < |w| && w[c[i].off] == Tag(c[i].used)
  }

  ghost predicate Nexts(c: seq<Blk>, w: seq<nat>) {
    forall i, j :: 0 <= i && j == i + 1 && j < |c| ==> c[i].off + 1 < |w| && w[c[i].off + 1] == c[j].off
  }

  /** `prev` inverts `next` for every header except heap_end, whose `prev` malloc leaves alone. */
  ghost predicate Prevs(c: seq<Blk>, w: seq<nat>) {
    forall i, j :: 0 <= i && j == i + 1 && j + 1 < |c| ==> c[j].off + 2 < |w| && w[c[j].off + 2] == c[i].off
  }

  ghost predicate Ends(total: nat, w: seq<nat>) {
    |w| == total + 2 * HDR && w[2] == 0 && w[total + HDR + 1] == total + HDR
  }

  /** The headers found in the words `w` are those of chain `c`. */
  ghost predicate Image(c: seq<Blk>, total: nat, w: seq<nat>) {
    total >= MIN && Tiled(c, total + HDR, GAP) && Ends(total, w) && Tags(c, w) && Nexts(c, w) && Prevs(c, w)
  }

  /** A word of the payload of a used block other than block `except`. */
  ghost predicate PayloadWord(c: seq<Blk>, j: int, a: int, except: int) {
    0 <= j && j + 1 < |c| && c[j].used && j != except && c[j].off + HDR <= a < c[j + 1].off
  }

  /** Every word of every used block of `c` other than block `except` is the same in both images. */
  ghost predicate Same(c: seq<Blk>, w: seq<nat>, w': seq<nat>, except: int) {
    |w| == |w'| &&
    forall j, a :: PayloadWord(c, j, a, except) && 0 <= a < |w| ==> w[a] == w'[a]
  }

  /** Header `i` is unlinked: the next word of its left and the prev word of its right neighbour. */
  function Unlinked(c: seq<Blk>, w: seq<nat>, i: nat): seq<nat>
    requires 0 < i && i + 1 < |c|
    requires c[i - 1].off + 1 < |w| && c[i + 1].off + 2 < |w|
  {
    w[c[i - 1].off + 1 := c[i + 1].off][c[i + 1].off + 2 := c[i - 1].off]
  }

  lemma UnlinkedImage(c: seq<Blk>, total: nat, w: seq<nat>, i: nat)
    requires Image(c, total, w) && 0 < i && i + 1 < |c|
    ensures Image(Drop(c, i), total, Unlinked(c, w, i))
    ensures Same(c, w, Unlinked(c, w, i), -1)
  {
    var d, v := Drop(c, i), Unlinked(c, w, i);
    DropTiled(c, total + HDR, GAP, i);
    UnlinkedTags(c, total, w, i);
    UnlinkedNexts(c, total, w, i);
    UnlinkedPrevs(c, total, w, i);
    assert c[i + 1].off <= c[|c| - 1].off;
    assert Ends(total, v) by {
      assert c[i - 1].off < c[|c| - 1].off;
      assert c[0].off <= c[i - 1].off;
      assert c[0].off < c[i + 1].off;
    }
    forall j, a | PayloadWord(c, j, a, -1) && 0 <= a < |w| ensures w[a] == v[a] {
      HeaderApart(c, total, j, a, i - 1);
      HeaderApart(c, total, j, a, i + 1);
    }
  }

  /** No payload word is a header word. */
  lemma HeaderApart(c: seq<Blk>, total: nat, j: int, a: int, k: nat)
    requires Tiled(c, total + HDR, GAP) && PayloadWord(c, j, a, -1) && k < |c|
    ensures !(c[k].off <= a < c[k].off + HDR)
  {
    if k < j {
      assert c[k].off + HDR < c[j].off;
    } else if k > j + 1 {
      assert c[j + 1].off + HDR < c[k].off;
    }
  }

  lemma UnlinkedTags(c: seq<Blk>, total: nat, w: seq<nat>, i: nat)
    requires Image(c, total, w) && 0 < i && i + 1 < |c|
    ensures Tags(Drop(c, i), Unlinked(c, w, i))
  {
    hide Nexts, Prevs;
    var d, v := Drop(c, i), Unlinked(c, w, i);
    forall j | 0 <= j < |d| ensures d[j].off < |v| && v[d[j].off] == Tag(d[j].used) {
      var k := if j < i then j else j + 1;
      assert d[j] == c[k];
    }
  }

  lemma UnlinkedNexts(c: seq<Blk>, total: nat, w: seq<nat>, i: nat)
    requires Image(c, total, w) && 0 < i && i + 1 < |c|
    ensures Nexts(Drop(c, i), Unlinked(c, w, i))
  {
    hide Tags, Prevs;
    var d, v := Drop(c, i), Unlinked(c, w, i);
    forall j, k | 0 <= j && k == j + 1 && k < |d|
      ensures d[j].off + 1 < |v| && v[d[j].off + 1] == d[k].off
    {
      if j < i - 1 {
        assert d[j] == c[j] && d[k] == c[k];
      } else if j == i - 1 {
        assert d[j] == c[j] && d[k] == c[i + 1];
      } else {
        assert d[j] == c[j + 1] && d[k] == c[k + 1];
      }
    }
  }

  lemma UnlinkedPrevs(c: seq<Blk>, total: nat, w: seq<nat>, i: nat)
    requires Image(c, total, w) && 0 < i && i + 1 < |c|
    ensures Prevs(Drop(c, i), Unlinked(c, w, i))
  {
    hide Tags, Nexts;
    var d, v := Drop(c, i), Unlinked(c, w, i);
    forall j, k | 0 <= j && k == j + 1 && k + 1 < |d|
      ensures d[k].off + 2 < |v| && v[d[k].off + 2] == d[j].off
    {
      if j < i - 1 {
        assert d[j] == c[j] && d[k] == c[k];
      } else if j == i - 1 {
        assert d[j] == c[j] && d[k] == c[i + 1];
      } else {
        assert d[j] == c[j + 1] && d[k] == c[k + 1];
      }
    }
  }

  lemma MarkedImage(c: seq<Blk>, total: nat, w: seq<nat>, i: nat, used: bool)
    requires Image(c, total, w) && i + 1 < |c|
    ensures c[i].off < |w| && Image(Mark(c, i, used), total, w[c[i].off := Tag(used)])
    ensures Same(c, w, w[c[i].off := Tag(used)], -1)
  {
    hide Tags, Nexts, Prevs;
    MarkTiled(c, total + HDR, GAP, i, used);
    assert c[i].off + HDR < c[|c| - 1].off;
    assert i > 0 ==> c[0].off + HDR < c[i].off;
    MarkedTags(c, total, w, i, used);
    MarkedLinks(c, total, w, i, used);
    var v := w[c[i].off := Tag(used)];
    forall j, a | PayloadWord(c, j, a, -1) && 0 <= a < |w| ensures w[a] == v[a] {
      HeaderApart(c, total, j, a, i);
    }
  }

  lemma MarkedTags(c: seq<Blk>, total: nat, w: seq<nat>, i: nat, used: bool)
    requires Image(c, total, w) && i + 1 < |c| && c[i].off < |w|
    ensures Tags(Mark(c, i, used), w[c[i].off := Tag(used)])
  {
    hide Nexts, Prevs;
    var d, v := Mark(c, i, used), w[c[i].off := Tag(used)];
    forall j | 0 <= j < |d| ensures d[j].off < |v| && v[d[j].off] == Tag(d[j].used) {
      assert d[j].off == c[j].off;
      assert j != i ==> d[j] == c[j] && c[j].off != c[i].off;
    }
  }

  lemma MarkedLinks(c: seq<Blk>, total: nat, w: seq<nat>, i: nat, used: bool)
    requires Image(c, total, w) && i + 1 < |c| && c[i].off < |w|
    ensures Nexts(Mark(c, i, used), w[c[i].off := Tag(used)])
    ensures Prevs(Mark(c, i, used), w[c[i].off := Tag(used)])
  {
    hide Tags;
    var d, v := Mark(c, i, used), w[c[i].off := Tag(used)];
    assert forall j :: 0 <= j < |c| ==> d[j].off == c[j].off;
    forall j, k | 0 <= j && k == j + 1 && k < |d|
      ensures d[j].off + 1 < |v| && v[d[j].off + 1] == d[k].off
    {
      assert d[j].off == c[j].off && d[k].off == c[k].off;
    }
    forall j, k | 0 <= j && k == j + 1 && k + 1 < |d|
      ensures d[k].off + 2 < |v| && v[d[k].off + 2] == d[j].off
    {
      assert d[j].off == c[j].off && d[k].off == c[k].off;
    }
  }

  /** A free header is written at `o` inside block `i` and linked in; like the code, the `prev`
      word of heap_end is left alone. */
  function Linked(c: seq<Blk>, total: nat, w: seq<nat>, i: nat, o: nat): seq<nat>
    requires i + 1 < |c| && o + 2 < |w|
    requires c[i].off + 1 < |w| && c[i + 1].off + 2 < |w|
  {
    var v := w[o := Tag(false)][o + 1 := c[i + 1].off][o + 2 := c[i].off][c[i].off + 1 := o];
    if c[i + 1].off == total + HDR then v else v[c[i + 1].off + 2 := o]
  }

  lemma LinkedImage(c: seq<Blk>, total: nat, w: seq<nat>, i: nat, o: nat)
    requires Image(c, total, w) && i + 1 < |c|
    requires c[i].off + HDR < o && o + HDR < c[i + 1].off
    ensures o + 2 < |w| && c[i + 1].off + 2 < |w|
    ensures Image(Split(c, i, o), total, Linked(c, total, w, i, o))
    ensures Same(c, w, Linked(c, total, w, i, o), i)
    ensures w[c[i].off + HDR..o] == Linked(c, total, w, i, o)[c[i].off + HDR..o]
  {
    hide Tags, Nexts, Prevs, Split;
    assert c[i + 1].off <= c[|c| - 1].off;
    var d, v := Split(c, i, o), Linked(c, total, w, i, o);
    SplitTiled(c, total + HDR, GAP, i, o);
    LinkedTags(c, total, w, i, o);
    LinkedNexts(c, total, w, i, o);
    LinkedPrevs(c, total, w, i, o);
    assert c[0].off <= c[i].off;
    assert i + 2 < |c| ==> c[i + 1].off + HDR < c[|c| - 1].off;
    forall j, a | PayloadWord(c, j, a, i) && 0 <= a < |w| ensures w[a] == v[a] {
      HeaderApart(c, total, j, a, i);
      HeaderApart(c, total, j, a, i + 1);
      assert a < o || o + HDR <= a by {
        if j < i {
          assert c[j + 1].off <= c[i].off;
        } else {
          assert c[i + 1].off <= c[j].off;
        }
      }
    }
  }

  lemma LinkedTags(c: seq<Blk>, total: nat, w: seq<nat>, i: nat, o: nat)
    requires Image(c, total, w) && i + 1 < |c|
    requires c[i].off + HDR < o && o + HDR < c[i + 1].off && c[i + 1].off + 2 < |w|
    ensures Tags(Split(c, i, o), Linked(c, total, w, i, o))
  {
    hide Nexts, Prevs;
    var d, v := Split(c, i, o), Linked(c, total, w, i, o);
    forall j | 0 <= j < |d| ensures d[j].off < |v| && v[d[j].off] == Tag(d[j].used) {
      if j != i + 1 {
        var k := if j <= i then j else j - 1;
        assert d[j] == c[k];
        assert k < i ==> c[k].off + HDR < c[i].off;
        assert k > i + 1 ==> c[i + 1].off + HDR < c[k].off;
      } else {
        assert d[j] == Blk(o, false);
      }
    }
  }

  lemma LinkedNexts(c: seq<Blk>, total: nat, w: seq<nat>, i: nat, o: nat)
    requires Image(c, total, w) && i + 1 < |c|
    requires c[i].off + HDR < o && o + HDR < c[i + 1].off && c[i + 1].off + 2 < |w|
    ensures Nexts(Split(c, i, o), Linked(c, total, w, i, o))
  {
    var d, v := Split(c, i, o), Linked(c, total, w, i, o);
    assert |d| == |c| + 1;
    hide Image, Split, Linked;
    forall j, k | 0 <= j && k == j + 1 && k < |d|
      ensures d[j].off + 1 < |v| && v[d[j].off + 1] == d[k].off
    {
      if k <= i {
        NextBelow(c, total, w, i, o, j);
      } else if k <= i + 2 {
        NextHere(c, total, w, i, o);
      } else {
        NextAbove(c, total, w, i, o, j - 1);
      }
    }
  }

  lemma NextBelow(c: seq<Blk>, total: nat, w: seq<nat>, i: nat, o: nat, j: nat)
    requires Image(c, total, w) && j < i && i + 1 < |c|
    requires c[i].off + HDR < o && o + HDR < c[i + 1].off && c[i + 1].off + 2 < |w|
    ensures var d, v := Split(c, i, o), Linked(c, total, w, i, o);
            j + 1 < |d| && d[j].off + 1 < |v| && v[d[j].off + 1] == d[j + 1].off
  {
    hide Tags, Prevs;
    assert c[j].off + HDR < c[i].off;
    assert w[c[j].off + 1] == c[j + 1].off;
  }

  lemma NextHere(c: seq<Blk>, total: nat, w: seq<nat>, i: nat, o: nat)
    requires Image(c, total, w) && i + 1 < |c|
    requires c[i].off + HDR < o && o + HDR < c[i + 1].off && c[i + 1].off + 2 < |w|
    ensures var d, v := Split(c, i, o), Linked(c, total, w, i, o);
            && i + 2 < |d| && d[i].off + 1 < |v| && v[d[i].off + 1] == d[i + 1].off
            && d[i + 1].off + 1 < |v| && v[d[i + 1].off + 1] == d[i + 2].off
  {
    hide Tags, Prevs;
  }

  lemma NextAbove(c: seq<Blk>, total: nat, w: seq<nat>, i: nat, o: nat, j: nat)
    requires Image(c, total, w) && i < j && j + 1 < |c|
    requires c[i].off + HDR < o && o + HDR < c[i + 1].off && c[i + 1].off + 2 < |w|
    ensures var d, v := Split(c, i, o), Linked(c, total, w, i, o);
            j + 2 < |d| && d[j + 1].off + 1 < |v| && v[d[j + 1].off + 1] == d[j + 2].off
  {
    hide Tags, Prevs;
    assert c[j].off >= c[i + 1].off;
    assert w[c[j].off + 1] == c[j + 1].off;
  }

  lemma LinkedPrevs(c: seq<Blk>, total: nat, w: seq<nat>, i: nat, o: nat)
    requires Image(c, total, w) && i + 1 < |c|
    requires c[i].off + HDR < o && o + HDR < c[i + 1].off && c[i + 1].off + 2 < |w|
    ensures Prevs(Split(c, i, o), Linked(c, total, w, i, o))
  {
    hide Tags, Nexts;
    var d, v := Split(c, i, o), Linked(c, total, w, i, o);
    forall j, k | 0 <= j && k == j + 1 && k + 1 < |d|
      ensures d[k].off + 2 < |v| && v[d[k].off + 2] == d[j].off
    {
      if k <= i {
        assert d[j] == c[j] && d[k] == c[k];
        assert w[c[k].off + 2] == c[j].off;
        assert k < i ==> c[k].off + HDR < c[i].off;
      } else if j == i {
        assert d[j] == c[j] && d[k] == Blk(o, false);
      } else if j == i + 1 {
        assert d[j] == Blk(o, false) && d[k] == c[i + 1];
        assert c[i + 1].off < c[|c| - 1].off;
      } else {
        assert d[j] == c[j - 1] && d[k] == c[k - 1];
        assert w[c[k - 1].off + 2] == c[j - 1].off;
        assert c[i + 1].off + HDR < c[k - 1].off;
      }
    }
  }

  /** What the code reads when it visits header `i`. */
  lemma ReadHeader(c: seq<Blk>, total: nat, w: seq<nat>, i: nat)
    requires Image(c, total, w) && i < |c|
    ensures c[i].off + 2 < |w|
    ensures IsUsed(w[c[i].off]) == c[i].used
    ensures w[c[i].off + 1] == if i + 1 < |c| then c[i + 1].off else c[i].off
    ensures i + 1 < |c| ==> w[c[i].off + 2] == (if i > 0 then c[i - 1].off else 0)
    ensures i + 1 < |c| <==> c[i].off < total + HDR
  {
    if i + 1 < |c| {
      assert c[i].off + HDR < c[|c| - 1].off;
      assert i > 0 ==> w[c[i].off + 2] == c[i - 1].off;
    }
  }

  lemma SameDrop(c: seq<Blk>, i: nat, w0: seq<nat>, w1: seq<nat>, w2: seq<nat>)
    requires 0 < i && i + 1 < |c| && !c[i].used && !c[i - 1].used
    requires Same(c, w0, w1, -1) && Same(Drop(c, i), w1, w2, -1)
    ensures Same(c, w0, w2, -1)
  {
    var d := Drop(c, i);
    forall j, a | PayloadWord(c, j, a, -1) && 0 <= a < |w0| ensures w0[a] == w2[a] {
      assert w0[a] == w1[a];
      if j < i - 1 {
        assert d[j] == c[j] && d[j + 1] == c[j + 1];
        assert PayloadWord(d, j, a, -1);
      } else {
        assert d[j - 1] == c[j] && d[j] == c[j + 1];
        assert PayloadWord(d, j - 1, a, -1);
      }
    }
  }

  lemma SameJoin(c: seq<Blk>, i: nat, w0: seq<nat>, w1: seq<nat>, w2: seq<nat>)
    requires i + 1 < |c| && !c[i].used && (i + 2 == |c| ==> c[i + 1].used)
    requires Same(c, w0, w1, -1) && Same(JoinRight(c, i), w1, w2, -1)
    ensures Same(c, w0, w2, -1)
  {
    if !c[i + 1].used { SameDrop(c, i + 1, w0, w1, w2); }
  }

  /** The two writes of an allocation together leave every used block alone. */
  lemma SameAlloc(c: seq<Blk>, i: nat, n: nat, w0: seq<nat>, w1: seq<nat>, w2: seq<nat>)
    requires i + 1 < |c| && !c[i].used
    requires Same(c, w0, w1, i)
    requires Same(if Room(c, i) >= n + HDR + MIN then Split(c, i, c[i].off + HDR + n) else c, w1, w2, -1)
    ensures Same(c, w0, w2, -1)
  {
    var d := if Room(c, i) >= n + HDR + MIN then Split(c, i, c[i].off + HDR + n) else c;
    forall j, a | PayloadWord(c, j, a, -1) && 0 <= a < |w0| ensures w0[a] == w2[a] {
      assert PayloadWord(c, j, a, i);
      if d == c || j < i {
        assert d[j] == c[j] && d[j + 1].off == c[j + 1].off;
        assert PayloadWord(d, j, a, -1);
      } else {
        assert d[j + 1] == c[j] && d[j + 2] == c[j + 1];
        assert PayloadWord(d, j + 1, a, -1);
      }
    }
  }

  lemma SameRelease(c: seq<Blk>, i: nat, w0: seq<nat>, w1: seq<nat>, w2: seq<nat>)
    requires i + 1 < |c|
    requires Same(c, w0, w1, -1) && Same(Mark(c, i, false), w1, w2, -1)
    ensures Same(c, w0, w2, i)
  {
    var d := Mark(c, i, false);
    forall j, a | PayloadWord(c, j, a, i) && 0 <= a < |w0| ensures w0[a] == w2[a] {
      assert PayloadWord(c, j, a, -1);
      assert d[j] == c[j] && d[j + 1].off == c[j + 1].off;
      assert PayloadWord(d, j, a, -1);
    }
  }

  lemma SameRefl(c: seq<Blk>, w: seq<nat>, except: int)
    ensures Same(c, w, w, except)
  {
  }

  lemma SameWeaker(c: seq<Blk>, w: seq<nat>, w': seq<nat>, except: int)
    requires Same(c, w, w', -1)
    ensures Same(c, w, w', except)
  {
    forall j, a | PayloadWord(c, j, a, except) && 0 <= a < |w| ensures w[a] == w'[a] {
      assert PayloadWord(c, j, a, -1);
    }
  }

  lemma SameTrans(c: seq<Blk>, w0: seq<nat>, w1: seq<nat>, w2: seq<nat>, except: int)
    requires Same(c, w0, w1, except) && Same(c, w1, w2, except)
    ensures Same(c, w0, w2, except)
  {
  }

  lemma BlockInside(c: seq<Blk>, total: nat, w: seq<nat>, j: nat)
    requires Image(c, total, w) && j + 1 < |c|
    ensures c[j].off + HDR < c[j + 1].off <= |w|
  {
    assert c[j + 1].off <= c[|c| - 1].off;
  }

  lemma LastHeader(c: seq<Blk>, total: nat, w: seq<nat>)
    requires Image(c, total, w)
    ensures |c| > 0 && c[|c| - 1].off == total + HDR
  {
  }

  lemma BlocksApart(c: seq<Blk>, total: nat, j: nat, k: nat)
    requires Tiled(c, total + HDR, GAP) && j + 1 < |c| && k + 1 < |c| && j != k
    ensures c[j + 1].off <= c[k].off || c[k + 1].off <= c[j].off
  {
  }

  /** Writing into the payload of a used block disturbs no header and no other block. */
  lemma PayloadWrite(c: seq<Blk>, total: nat, w: seq<nat>, k: nat, a: nat, x: nat)
    requires Image(c, total, w) && k + 1 < |c| && c[k].used && c[k].off + HDR <= a < c[k + 1].off
    ensures a < |w| && Image(c, total, w[a := x]) && Same(c, w, w[a := x], k)
  {
    BlockInside(c, total, w, k);
    var v := w[a := x];
    assert PayloadWord(c, k, a, -1);
    forall j | 0 <= j < |c| ensures !(c[j].off <= a < c[j].off + HDR) {
      HeaderApart(c, total, k, a, j);
    }
    assert c[0].off + HDR <= a < total + HDR;
    forall j, b | PayloadWord(c, j, b, k) && 0 <= b < |w| ensures w[b] == v[b] {
      BlocksApart(c, total, j, k);
    }
  }

  lemma SameTrim(c: seq<Blk>, total: nat, i: nat, o: nat, w0: seq<nat>, w1: seq<nat>, w2: seq<nat>)
    requires Tiled(c, total + HDR, GAP) && i + 1 < |c| && c[i].used
    requires c[i].off + HDR < o <= |w0|
    requires Same(c, w0, w1, i) && Same(Split(c, i, o), w1, w2, -1)
    requires w0[c[i].off + HDR..o] == w1[c[i].off + HDR..o]
    ensures Same(c, w0, w2, i)
    ensures w0[c[i].off + HDR..o] == w2[c[i].off + HDR..o]
  {
    var d := Split(c, i, o);
    forall j, a | PayloadWord(c, j, a, i) && 0 <= a < |w0| ensures w0[a] == w2[a] {
      if j < i {
        assert d[j] == c[j] && d[j + 1] == c[j + 1];
        assert PayloadWord(d, j, a, -1);
      } else {
        assert d[j + 1] == c[j] && d[j + 2] == c[j + 1];
        assert PayloadWord(d, j + 1, a, -1);
      }
    }
    forall a | c[i].off + HDR <= a < o ensures w1[a] == w2[a] {
      assert d[i] == c[i] && d[i + 1] == Blk(o, false);
      assert PayloadWord(d, i, a, -1);
    }
  }

  /** Allocate at `k`, fill the new block, free block `i`: no other block is touched. */
  lemma SameMove(c: seq<Blk>, total: nat, k: nat, n: nat, i: nat,
                 w0: seq<nat>, w1: seq<nat>, w2: seq<nat>, w3: seq<nat>)
    requires WellFormed(c, total + HDR, GAP) && k + 1 < |c| && Fits(c, k, n) && n > 0
    requires i + 1 < |c| && c[i].used
    requires Same(c, w0, w1, -1) && Same(AllocAt(c, k, n), w1, w2, k)
    requires Same(AllocAt(c, k, n), w2, w3, AfterAlloc(c, k, n, i))
    ensures Same(c, w0, w3, i)
  {
    hide Tiled, Coalesced, AllocAt;
    var d := AllocAt(c, k, n);
    forall j, a | PayloadWord(c, j, a, i) && 0 <= a < |w0| ensures w0[a] == w3[a] {
      assert PayloadWord(c, j, a, -1);
      BlockAfterAlloc(c, total + HDR, k, n, j);
      assert PayloadWord(d, AfterAlloc(c, k, n, j), a, k);
      assert PayloadWord(d, AfterAlloc(c, k, n, j), a, AfterAlloc(c, k, n, i));
    }
  }

  /** The `len` words at `src` in the old image are the `len` words at `dst` in the new one. */
  predicate Holds(w: seq<nat>, src: nat, w': seq<nat>, dst: nat, len: nat) {
    src + len <= |w| && dst + len <= |w'| && w[src..src + len] == w'[dst..dst + len]
  }

  lemma CopyStart(w: seq<nat>, src: nat, dst: nat, len: nat)
    requires src + len <= |w| && dst + len <= |w|
    ensures Holds(w, src, w, dst, 0) && Holds(w, src, w, src, len)
  {
  }

  /** One step of rt_memcpy between ranges that do not overlap. */
  lemma CopyStep(w: seq<nat>, v: seq<nat>, src: nat, dst: nat, len: nat, a: nat)
    requires a < len && src + len <= |v| && dst + len <= |v|
    requires src + len <= dst || dst + len <= src
    requires Holds(w, src, v, dst, a) && Holds(w, src, v, src, len)
    ensures Holds(w, src, v[dst + a := v[src + a]], dst, a + 1)
    ensures Holds(w, src, v[dst + a := v[src + a]], src, len)
  {
    var u := v[dst + a := v[src + a]];
    assert u[dst..dst + a] == v[dst..dst + a];
    assert u[src..src + len] == v[src..src + len];
    assert w[src + a] == w[src..src + len][a] == v[src + a];
    assert u[dst..dst + a + 1] == u[dst..dst + a] + [v[src + a]];
    assert w[src..src + a + 1] == w[src..src + a] + [w[src + a]];
  }

  /** After allocate, copy and free, the new block holds the words of the old one. */
  lemma MoveContents(c: seq<Blk>, d: seq<Blk>, i: nat, j: nat, k: nat, len: nat,
                     w0: seq<nat>, w1: seq<nat>, w2: seq<nat>, w3: seq<nat>)
    requires i + 1 < |c| && j + 1 < |d| && k + 1 < |d| && j != k
    requires c[i].used && d[k].used && len <= Room(c, i) && len <= Room(d, k)
    requires Same(c, w0, w1, -1) && Same(d, w2, w3, j)
    requires Holds(w1, c[i].off + HDR, w2, d[k].off + HDR, len)
    ensures Holds(w0, c[i].off + HDR, w3, d[k].off + HDR, len)
  {
    var s, t := c[i].off + HDR, d[k].off + HDR;
    forall a {:trigger w3[t..t + len][a]} | 0 <= a < len ensures w3[t..t + len][a] == w0[s..s + len][a] {
      assert PayloadWord(c, i, s + a, -1);
      assert PayloadWord(d, k, t + a, j);
      assert w1[s..s + len][a] == w2[t..t + len][a];
    }
  }
}
