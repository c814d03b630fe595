/** The page allocator as slab.c keeps it: each free run has its header, a link and a count, in its
    first page. */
module Pages {
  import opened PageList

  const NULL: int := -1

  /** Where the list continues at place `i`. */
  function At(l: seq<Run>, i: nat): int {
    if i < |l| then l[i].start else NULL
  }

  /** The headers hold the list. */
  ghost predicate Rep(l: seq<Run>, head: int, next: seq<int>, count: seq<nat>) {
    && |next| == |count| && head == At(l, 0)
    && forall i :: 0 <= i < |l| ==> Header(l, i, next, count)
  }

  ghost predicate Header(l: seq<Run>, i: nat, next: seq<int>, count: seq<nat>)
    requires i < |l| && |next| == |count|
  {
    l[i].start < |next| && l[i].End() <= |next| && count[l[i].start] == l[i].count && next[l[i].start] == At(l, i + 1)
  }

  lemma {:induction false} Order(l: seq<Run>, i: nat, j: nat)
    requires Canonical(l) && i < j < |l|
    ensures l[i].count > 0 && l[i].End() < l[j].start
  {
    if i > 0 {
      Order(l[1..], i - 1, j - 1);
    } else if j > 1 {
      Order(l[1..], 0, j - 1);
    }
  }

  /** The same headers, but from place `i` on to place `j` the list is `m`. */
  ghost predicate Edited(l: seq<Run>, i: nat, j: nat, m: seq<Run>, next: seq<int>, count: seq<nat>, next': seq<int>,
                         count': seq<nat>, head': int)
    requires i <= j <= |l| && |next| == |count|
  {
    var to := if m == [] then At(l, j) else m[0].start;
    && |next'| == |count'| == |next| && |m| <= 1
    && (forall k {:trigger l[k]} :: (0 <= k < i || j <= k < |l|) && l[k].start < |next| ==>
          count'[l[k].start] == count[l[k].start] && (k + 1 != i ==> next'[l[k].start] == next[l[k].start]))
    && (i == 0 ==> head' == to)
    && (i > 0 ==> head' == At(l, 0) && l[i - 1].start < |next| && next'[l[i - 1].start] == to)
    && (m != [] ==>
          && m[0].start < |next| && m[0].End() <= |next| && count'[m[0].start] == m[0].count
          && next'[m[0].start] == At(l, j))
  }

  lemma EditRep(l: seq<Run>, i: nat, j: nat, m: seq<Run>, head: int, next: seq<int>, count: seq<nat>,
                next': seq<int>, count': seq<nat>, head': int)
    requires i <= j <= |l| && Rep(l, head, next, count)
    requires Edited(l, i, j, m, next, count, next', count', head')
    ensures Rep(l[..i] + m + l[j..], head', next', count')
  {
    var r := l[..i] + m + l[j..];
    assert i == 0 && m == [] && j < |l| ==> r[0] == l[j];
    forall k | 0 <= k < |r| ensures Header(r, k, next', count') {
      EditHeader(l, i, j, m, head, next, count, next', count', head', k);
    }
  }

  lemma EditHeader(l: seq<Run>, i: nat, j: nat, m: seq<Run>, head: int, next: seq<int>, count: seq<nat>,
                   next': seq<int>, count': seq<nat>, head': int, k: nat)
    requires i <= j <= |l| && Rep(l, head, next, count)
    requires Edited(l, i, j, m, next, count, next', count', head')
    requires k < i + |m| + |l| - j
    ensures Header(l[..i] + m + l[j..], k, next', count')
  {
    var r := l[..i] + m + l[j..];
    {
      if k < i {
        assert r[k] == l[k] && Header(l, k, next, count);
        assert k + 1 < i ==> r[k + 1] == l[k + 1];
        assert k + 1 == i && |m| == 0 && j < |l| ==> r[i] == l[j];
      } else if k < i + |m| {
        assert r[k] == m[0] && (j < |l| ==> r[k + 1] == l[j]);
      } else {
        var q := k - i - |m| + j;
        assert r[k] == l[q] && Header(l, q, next, count);
        assert q + 1 < |l| ==> r[k + 1] == l[q + 1];
      }
    }
  }

  /** *prev = x, where `prev` is the head of the list or the link of the run before place `i`. */
  function LinkedNext(l: seq<Run>, i: nat, x: int, next: seq<int>): seq<int>
    requires i <= |l| && (i > 0 ==> l[i - 1].start < |next|)
  {
    if i == 0 then next else next[l[i - 1].start := x]
  }

  function LinkedHead(i: nat, x: int, head: int): int {
    if i == 0 then x else head
  }

  lemma Apart(l: seq<Run>, i: nat, a: nat)
    requires Canonical(l) && i < |l| && (a == l[i].start || l[i].start <= a < l[i].End())
    ensures forall k {:trigger l[k]} :: 0 <= k < |l| && k != i ==> l[k].start != a && l[k].start != l[i].start
  {
    hide Canonical, Free;
    forall k {:trigger l[k]} | 0 <= k < |l| && k != i ensures l[k].start != a && l[k].start != l[i].start {
      if k < i { Order(l, k, i); } else { Order(l, i, k); }
    }
  }

  /** The header of a run at place `i` is rewritten at page `a` of that run; the list goes on at place `j`. */
  lemma ReplaceRep(l: seq<Run>, i: nat, j: nat, x: Run, head: int, next: seq<int>, count: seq<nat>)
    requires Canonical(l) && Rep(l, head, next, count) && i < j <= |l| && l[i].start <= x.start < l[i].End()
             && x.End() <= |next|
    requires x.start < |next| && (i > 0 ==> l[i - 1].start < |next|)
    ensures Rep(l[..i] + [x] + l[j..], LinkedHead(i, x.start, head),
                LinkedNext(l, i, x.start, next[x.start := At(l, j)]), count[x.start := x.count])
  {
    hide Canonical, Free;
    Apart(l, i, x.start);
    if i > 0 { Apart(l, i - 1, l[i - 1].start); }
    EditRep(l, i, j, [x], head, next, count, LinkedNext(l, i, x.start, next[x.start := At(l, j)]),
            count[x.start := x.count], LinkedHead(i, x.start, head));
  }

  /** A run that starts where it did needs no new link to it. */
  lemma GrowRep(l: seq<Run>, i: nat, j: nat, x: Run, head: int, next: seq<int>, count: seq<nat>)
    requires Canonical(l) && Rep(l, head, next, count) && i < j <= |l| && l[i].start == x.start && x.End() <= |next|
    requires x.start < |next|
    ensures Rep(l[..i] + [x] + l[j..], head, next[x.start := At(l, j)], count[x.start := x.count])
  {
    hide Canonical, Free;
    StartFree(l, i);
    Apart(l, i, x.start);
    if i > 0 { assert Header(l, i - 1, next, count); }
    ReplaceRep(l, i, j, x, head, next, count);
    var m := next[x.start := At(l, j)];
    assert i > 0 ==> m[l[i - 1].start := x.start] == m;
  }

  /** What the headers at place `i` and before it say. */
  lemma ReadHeader(l: seq<Run>, i: nat, head: int, next: seq<int>, count: seq<nat>)
    requires Rep(l, head, next, count)
    ensures i < |l| ==> Header(l, i, next, count) && l[i].start < |next|
    ensures 0 < i <= |l| ==> l[i - 1].start < |next|
    ensures |next| == |count| && head == At(l, 0)
  {
    assert i < |l| ==> Header(l, i, next, count);
    assert 0 < i <= |l| ==> Header(l, i - 1, next, count);
  }

  lemma UnlinkRep(l: seq<Run>, i: nat, head: int, next: seq<int>, count: seq<nat>)
    requires Canonical(l) && Rep(l, head, next, count) && i < |l| && (i > 0 ==> l[i - 1].start < |next|)
    ensures Rep(l[..i] + l[i + 1..], LinkedHead(i, At(l, i + 1), head), LinkedNext(l, i, At(l, i + 1), next), count)
  {
    hide Canonical, Free;
    if i > 0 { Apart(l, i - 1, l[i - 1].start); }
    EditRep(l, i, i + 1, [], head, next, count, LinkedNext(l, i, At(l, i + 1), next), count,
        LinkedHead(i, At(l, i + 1), head));
    assert l[..i] + [] + l[i + 1..] == l[..i] + l[i + 1..];
  }

  /** A run of pages that were not free goes in at place `i`, in front of the run at place `j`. */
  lemma InsertRep(l: seq<Run>, i: nat, j: nat, x: Run, head: int, next: seq<int>, count: seq<nat>)
    requires Canonical(l) && Rep(l, head, next, count) && i <= j <= |l| && j <= i + 1 && !Free(l, x.start)
             && x.End() <= |next|
    requires x.start < |next| && (i > 0 ==> l[i - 1].start < |next|)
    ensures Rep(l[..i] + [x] + l[j..], LinkedHead(i, x.start, head),
                LinkedNext(l, i, x.start, next[x.start := At(l, j)]), count[x.start := x.count])
  {
    hide Canonical, Free;
    forall k {:trigger l[k]} | 0 <= k < |l| ensures l[k].start != x.start { StartFree(l, k); }
    if i > 0 { Apart(l, i - 1, l[i - 1].start); }
    EditRep(l, i, j, [x], head, next, count, LinkedNext(l, i, x.start, next[x.start := At(l, j)]),
            count[x.start := x.count], LinkedHead(i, x.start, head));
  }

  lemma {:induction false} StartFree(l: seq<Run>, k: nat)
    requires Canonical(l) && k < |l|
    ensures Free(l, l[k].start) && l[k].count > 0
  {
    if k > 0 { StartFree(l[1..], k - 1); }
  }

  // ---------- one place of the list further ----------

  /** The search for `n` pages has passed the runs up to place `i`. */
  ghost predicate AllocAt(l: seq<Run>, n: nat, i: nat) {
    n > 0 && i <= |l| && Alloc(l, n).0 == l[..i] + Alloc(l[i..], n).0 && Alloc(l, n).1 == Alloc(l[i..], n).1
  }

  lemma AllocNext(l: seq<Run>, n: nat, i: nat)
    requires AllocAt(l, n, i)
    ensures if i == |l| then Alloc(l, n) == (l, None)
            else if l[i].count > n then
              Alloc(l, n) == (l[..i] + [Run(l[i].start + n, l[i].count - n)] + l[i + 1..], Some(l[i].start))
            else if l[i].count == n then Alloc(l, n) == (l[..i] + l[i + 1..], Some(l[i].start))
            else AllocAt(l, n, i + 1)
  {
    var t := l[i..];
    if i < |l| {
      assert t[0] == l[i] && t[1..] == l[i + 1..];
      AllocHead(t, n);
      hide Alloc;
      if l[i].count > n {
        Regroup3(l[..i], Run(l[i].start + n, l[i].count - n), l[i + 1..]);
      } else if l[i].count < n {
        assert l[..i + 1] == l[..i] + [l[i]];
        Regroup3(l[..i], l[i], Alloc(l[i + 1..], n).0);
      }
    } else {
      assert l[..i] + [] == l;
    }
  }

  lemma AllocHead(t: seq<Run>, n: nat)
    requires t != [] && n > 0
    ensures Alloc(t, n) ==
            if t[0].count > n then ([Run(t[0].start + n, t[0].count - n)] + t[1..], Some(t[0].start))
            else if t[0].count == n then (t[1..], Some(t[0].start))
            else ([t[0]] + Alloc(t[1..], n).0, Alloc(t[1..], n).1)
  {
  }

  lemma Regroup3(a: seq<Run>, x: Run, b: seq<Run>)
    ensures a + ([x] + b) == a + [x] + b
  {
  }

  /** The search for the place of pages [a, a + n) has passed the runs up to place `i`. */
  ghost predicate ReleaseAt(l: seq<Run>, a: nat, n: nat, i: nat) {
    && n > 0 && i <= |l| && Canonical(l[i..]) && NoneFree(l[i..], a, n)
    && Release(l, a, n) == l[..i] + Release(l[i..], a, n)
  }

  lemma ReleaseNext(l: seq<Run>, a: nat, n: nat, i: nat)
    requires ReleaseAt(l, a, n, i)
    ensures i < |l| ==> Clear(l[i], a)
    ensures if i == |l| || l[i].start > a + n then Release(l, a, n) == l[..i] + [Run(a, n)] + l[i..]
            else if l[i].End() == a && i + 1 < |l| && a + n == l[i + 1].start then
              Release(l, a, n) == l[..i] + [Run(l[i].start, l[i].count + n + l[i + 1].count)] + l[i + 2..]
            else if l[i].End() == a then Release(l, a, n) == l[..i] + [Run(l[i].start, l[i].count + n)] + l[i + 1..]
            else if l[i].start == a + n then Release(l, a, n) == l[..i] + [Run(a, l[i].count + n)] + l[i + 1..]
            else ReleaseAt(l, a, n, i + 1)
  {
    var t := l[i..];
    if i < |l| {
      assert t[0] == l[i] && t[1..] == l[i + 1..] && (|t| > 1 ==> t[1] == l[i + 1] && t[2..] == l[i + 2..]);
      FreeBlockApart(t, a, n);
      assert Canonical(t[1..]);
      hide Canonical, Free;
      var b := l[i];
      var r := Release(t, a, n);
      if b.End() == a || b.start == a + n || b.start > a + n {
        assert forall x: Run, m: seq<Run> :: l[..i] + ([x] + m) == l[..i] + [x] + m;
      } else {
        assert l[..i + 1] == l[..i] + [b];
        assert l[..i] + ([b] + Release(l[i + 1..], a, n)) == l[..i + 1] + Release(l[i + 1..], a, n);
      }
    } else {
      assert l[i..] == [] && [Run(a, n)] + [] == [Run(a, n)];
    }
  }

  class Pages {
    var head: int            // rt_page_list
    const next: array<int>   // rt_page_head::next, by page number
    const count: array<nat>  // rt_page_head::page
    ghost var runs: seq<Run>

    /** rt_page_init: all pages of the pool are one free run. */
    constructor (n: nat)
      requires n > 0
      ensures Valid() && runs == [Run(0, n)] && next.Length == n && fresh(next) && fresh(count)
    {
      head, runs := NULL, [];
      next := new int[n];
      count := new nat[n];
      new;
      FreePages(0, n);
    }

    ghost predicate Valid()
      reads this, next, count
    {
      next != (count as object) && Canonical(runs) && Rep(runs, head, next[..], count[..])
    }

    /** The cursor of a search: `prev` is where the link to page `p`, at place `i`, is kept. */
    ghost predicate Cursor(i: nat, prev: int, p: int)
      reads this, next, count
    {
      i <= |runs| && p == At(runs, i) && prev == if i == 0 then NULL else runs[i - 1].start
    }

    /** The header of a free run in its first page. */
    method SetHeader(a: nat, link: int, n: nat)
      requires a < next.Length == count.Length && next != (count as object)
      modifies next, count
      ensures next[..] == old(next[..])[a := link] && count[..] == old(count[..])[a := n]
    {
      next[a] := link;
      count[a] := n;
    }

    /** *prev = x, where `prev` is what Cursor says. */
    method Link(prev: int, x: int, ghost i: nat)
      requires i <= |runs| && prev == (if i == 0 then NULL else runs[i - 1].start) && prev < next.Length
      modifies `head, next
      ensures head == LinkedHead(i, x, old(head)) && next[..] == LinkedNext(runs, i, x, old(next[..]))
    {
      if prev == NULL { head := x; } else { next[prev] := x; }
    }

    /** The search of rt_page_alloc. */
    method FindRun(n: nat) returns (prev: int, p: int, ghost i: nat)
      requires Valid() && n > 0
      ensures Cursor(i, prev, p) && AllocAt(runs, n, i)
      ensures p != NULL ==> 0 <= p < count.Length && count[p] >= n
    {
      i, prev, p := 0, NULL, head;
      assert AllocAt(runs, n, 0) by { assert runs[0..] == runs && runs[..0] + Alloc(runs, n).0 == Alloc(runs, n).0; }
      hide Canonical, Alloc, AllocAt, Rep;
      ReadHeader(runs, 0, head, next[..], count[..]);
      while p != NULL
        invariant Cursor(i, prev, p) && AllocAt(runs, n, i)
        decreases |runs| - i
      {
        AllocNext(runs, n, i);
        ReadHeader(runs, i, head, next[..], count[..]);
        if count[p] >= n { return; }
        prev, p, i := p, next[p], i + 1;
      }
    }

    /** The first `n` pages of the run at page `p` are taken; its header moves up. */
    method Split(prev: int, p: nat, n: nat, ghost i: nat)
      requires Valid() && i < |runs| && Cursor(i, prev, p) && 0 < n < runs[i].count
      modifies this, next, count
      ensures var l := old(runs); runs == l[..i] + [Run(p + n, l[i].count - n)] + l[i + 1..]
      ensures Rep(runs, head, next[..], count[..])
    {
      hide Canonical, Rep, LinkedNext, LinkedHead;
      ghost var l := runs;
      ghost var x := Run(p + n, l[i].count - n);
      ReadHeader(l, i, head, next[..], count[..]);
      ReplaceRep(l, i, i + 1, x, head, next[..], count[..]);
      SetHeader(p + n, next[p], count[p] - n);
      Link(prev, p + n, i);
      runs := l[..i] + [x] + l[i + 1..];
    }

    /** rt_page_alloc */
    method AllocPages(n: nat) returns (b: Option)
      requires Valid()
      modifies this, next, count
      ensures Valid()
      ensures if n == 0 then b == None && runs == old(runs) else (runs, b) == Alloc(old(runs), n)
    {
      if n == 0 { return None; }
      ghost var l := runs;
      assert Canonical(Alloc(l, n).0) by { AllocKeeps(l, n); }
      var prev, p;
      ghost var i;
      prev, p, i := FindRun(n);
      hide Canonical, Alloc, AllocAt, Rep, LinkedNext, LinkedHead, AllFree, Free;
      AllocNext(l, n, i);
      ReadHeader(l, i, head, next[..], count[..]);
      if p == NULL { return None; }
      if count[p] > n {
        Split(prev, p, n, i);
      } else {
        UnlinkRep(l, i, head, next[..], count[..]);
        Link(prev, next[p], i);
        runs := l[..i] + l[i + 1..];
      }
      return Some(p);
    }

    /** The search of rt_page_free; the assertion that the source makes for each run holds. */
    method FindPlace(a: nat, n: nat) returns (prev: int, p: int, ghost i: nat)
      requires Valid() && n > 0 && a + n <= next.Length && NoneFree(runs, a, n)
      ensures Cursor(i, prev, p) && ReleaseAt(runs, a, n, i)
      ensures p != NULL ==> 0 <= p < count.Length && (p + count[p] == a || p == a + n || p > a + n)
    {
      i, prev, p := 0, NULL, head;
      assert ReleaseAt(runs, a, n, 0) by {
        assert runs[0..] == runs && runs[..0] + Release(runs, a, n) == Release(runs, a, n);
      }
      hide Canonical, Free, Release, ReleaseAt, NoneFree, Rep;
      ReadHeader(runs, 0, head, next[..], count[..]);
      while p != NULL
        invariant Cursor(i, prev, p) && ReleaseAt(runs, a, n, i)
        decreases |runs| - i
      {
        ReleaseNext(runs, a, n, i);
        ReadHeader(runs, i, head, next[..], count[..]);
        assert count[p] > 0 && (p > a || p + count[p] <= a);
        if p + count[p] == a || p == a + n || p > a + n { return; }
        prev, p, i := p, next[p], i + 1;
      }
    }

    /** rt_page_free of pages that are not free. */
    method FreePages(a: nat, n: nat)
      requires Valid() && n > 0 && a + n <= next.Length && NoneFree(runs, a, n)
      modifies this, next, count
      ensures Valid() && runs == Release(old(runs), a, n)
    {
      ghost var l := runs;
      assert Canonical(Release(l, a, n)) by { ReleaseKeeps(l, a, n); }
      assert !Free(l, a);
      var prev, p;
      ghost var i;
      prev, p, i := FindPlace(a, n);
      hide Canonical, Free, Release, ReleaseAt, NoneFree, Rep, LinkedNext, LinkedHead;
      ReleaseNext(l, a, n, i);
      ReadHeader(l, i, head, next[..], count[..]);
      if p != NULL && p + count[p] == a {
        Grow(p, i, n);
      } else if p != NULL && p == a + n {
        InsertRep(l, i, i + 1, Run(a, l[i].count + n), head, next[..], count[..]);
        SetHeader(a, next[p], count[p] + n);
        Link(prev, a, i);
        runs := l[..i] + [Run(a, l[i].count + n)] + l[i + 1..];
      } else {
        InsertRep(l, i, i, Run(a, n), head, next[..], count[..]);
        SetHeader(a, p, n);
        Link(prev, a, i);
        runs := l[..i] + [Run(a, n)] + l[i..];
      }
    }

    /** The run at page `p` grows by `n` pages, and by the next run if that is where it ends then. */
    method Grow(p: nat, ghost i: nat, n: nat)
      requires Valid() && i < |runs| && p == runs[i].start && runs[i].End() + n <= next.Length
      modifies `runs, next, count
      ensures Rep(runs, head, next[..], count[..])
      ensures var l, b := old(runs), old(runs)[i];
              runs ==
                if i + 1 < |l| && b.End() + n == l[i + 1].start then
                  l[..i] + [Run(p, b.count + n + l[i + 1].count)] + l[i + 2..]
                else l[..i] + [Run(p, b.count + n)] + l[i + 1..]
    {
      hide Canonical, Rep;
      ghost var l := runs;
      ReadHeader(l, i, head, next[..], count[..]);
      ReadHeader(l, i + 1, head, next[..], count[..]);
      var grown := count[p] + n;
      if p + grown == next[p] {
        GrowRep(l, i, i + 2, Run(p, grown + l[i + 1].count), head, next[..], count[..]);
        SetHeader(p, next[next[p]], grown + count[next[p]]);
        runs := l[..i] + [Run(p, grown + l[i + 1].count)] + l[i + 2..];
      } else {
        GrowRep(l, i, i + 1, Run(p, grown), head, next[..], count[..]);
        SetHeader(p, next[p], grown);
        runs := l[..i] + [Run(p, grown)] + l[i + 1..];
      }
    }
  }
}
