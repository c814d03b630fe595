/** The page allocator of slab.c: a list of runs of free pages.  Pages are named by numbers. */
module PageList {

  /** A free run: rt_page_head with its `page` count at the first page. */
  datatype Run = Run(start: nat, count: nat) {
    function End(): nat { start + count }
    predicate Has(p: int) { start <= p < start + count }
  }

  datatype Option = None | Some(page: nat)

  /** In address order, no run empty, and a used page between any two runs. */
  predicate Canonical(l: seq<Run>) {
    l == [] || (l[0].count > 0 && Canonical(l[1..]) && (|l| > 1 ==> l[0].End() < l[1].start))
  }

  /** Whether page `p` is in some run. */
  predicate Free(l: seq<Run>, p: int) {
    l != [] && (l[0].Has(p) || Free(l[1..], p))
  }

  predicate AllFree(l: seq<Run>, a: nat, n: nat) {
    forall p :: a <= p < a + n ==> Free(l, p)
  }

  predicate NoneFree(l: seq<Run>, a: nat, n: nat) {
    forall p :: a <= p < a + n ==> !Free(l, p)
  }

  /** rt_page_alloc for at least one page. */
  function Alloc(l: seq<Run>, n: nat): (seq<Run>, Option)
    requires n > 0
  {
    if l == [] then ([], None)
    else if l[0].count > n then ([Run(l[0].start + n, l[0].count - n)] + l[1..], Some(l[0].start))
    else if l[0].count == n then (l[1..], Some(l[0].start))
    else
      var (r, a) := Alloc(l[1..], n);
      ([l[0]] + r, a)
  }

  /** rt_page_free */
  function Release(l: seq<Run>, a: nat, n: nat): seq<Run> {
    if l == [] then [Run(a, n)]
    else
      var b := l[0];
      if b.End() == a then
        (if |l| > 1 && b.End() + n == l[1].start then [Run(b.start, b.count + n + l[1].count)] + l[2..]
         else [Run(b.start, b.count + n)] + l[1..])
      else if b.start == a + n then [Run(a, b.count + n)] + l[1..]
      else if b.start > a + n then [Run(a, n)] + l
      else [b] + Release(l[1..], a, n)
  }

  /** The assertion inside the loop of rt_page_free. */
  predicate Clear(b: Run, a: nat) {
    b.count > 0 && (b.start > a || b.End() <= a)
  }

  // ---------- the list ----------

  lemma {:induction false} FreeAbove(l: seq<Run>, p: int)
    requires Canonical(l) && Free(l, p)
    ensures l[0].start <= p && (!l[0].Has(p) ==> |l| > 1 && l[1].start <= p)
  {
    if !l[0].Has(p) { FreeAbove(l[1..], p); }
  }

  lemma NotFreeBelow(l: seq<Run>, p: int)
    requires Canonical(l) && (l == [] || p < l[0].start)
    ensures !Free(l, p)
  {
    if Free(l, p) { FreeAbove(l, p); }
  }

  /** A canonical list is determined by which pages are free. */
  lemma {:induction false} SamePages(l: seq<Run>, m: seq<Run>)
    requires Canonical(l) && Canonical(m) && forall p: nat :: Free(l, p) <==> Free(m, p)
    ensures l == m
  {
    if l == [] {
      if m != [] { assert Free(m, m[0].start); }
    } else if m == [] {
      assert Free(l, l[0].start);
    } else {
      assert Free(l, l[0].start) && Free(m, m[0].start);
      FreeAbove(m, l[0].start);
      FreeAbove(l, m[0].start);
      FirstRun(l, m);
      FirstRun(m, l);
      forall p: nat ensures Free(l[1..], p) <==> Free(m[1..], p) {
        NotFreeTail(l, p);
        NotFreeTail(m, p);
      }
      SamePages(l[1..], m[1..]);
    }
  }

  lemma NotFreeTail(l: seq<Run>, p: int)
    requires Canonical(l) && l != []
    ensures Free(l[1..], p) <==> Free(l, p) && !l[0].Has(p)
  {
    if Free(l[1..], p) { FreeAbove(l[1..], p); }
  }

  lemma FirstRun(l: seq<Run>, m: seq<Run>)
    requires Canonical(l) && Canonical(m) && l != [] && m != [] && l[0].start == m[0].start
    requires forall p: nat :: Free(l, p) <==> Free(m, p)
    ensures l[0].count <= m[0].count
  {
    var e := m[0].End();
    if e < l[0].End() {
      assert l[0].Has(e) && Free(l, e);
      FreeAbove(m, e);
    }
  }

  // ---------- allocating ----------

  /** Exactly the pages of the block stop being free, and the list stays canonical. */
  lemma {:induction false} AllocKeeps(l: seq<Run>, n: nat)
    requires Canonical(l) && n > 0
    ensures Canonical(Alloc(l, n).0)
    ensures Alloc(l, n).0 != [] ==> l != [] && l[0].start <= Alloc(l, n).0[0].start
    ensures match Alloc(l, n).1
            case None => Alloc(l, n).0 == l
            case Some(a) => AllFree(l, a, n) && forall p :: Free(Alloc(l, n).0, p) <==> Free(l, p) && !(a <= p < a + n)
  {
    if l != [] {
      if l[0].count < n {
        AllocKeeps(l[1..], n);
        var (r, a) := Alloc(l[1..], n);
        assert ([l[0]] + r)[1..] == r;
        if a.Some? {
          forall p | a.page <= p < a.page + n ensures !l[0].Has(p) && Free(l, p) {
            assert Free(l[1..], p);
            FreeAbove(l[1..], p);
          }
        }
      } else {
        var r := Alloc(l, n).0;
        assert l[0].count > n ==> r[1..] == l[1..];
        forall p ensures Free(r, p) <==> Free(l, p) && !(l[0].start <= p < l[0].start + n) {
          NotFreeTail(l, p);
        }
      }
    }
  }

  lemma NotFreeAtEnd(l: seq<Run>)
    requires Canonical(l) && l != []
    ensures !Free(l, l[0].End())
  {
    NotFreeBelow(l[1..], l[0].End());
  }

  /** First fit: the block is the lowest one possible, and there is none exactly when no `n`
      consecutive pages are free. */
  lemma {:induction false} AllocIsLowest(l: seq<Run>, n: nat, s: nat)
    requires Canonical(l) && n > 0 && AllFree(l, s, n)
    ensures Alloc(l, n).1.Some? && Alloc(l, n).1.page <= s
  {
    assert Free(l, s);
    FreeAbove(l, s);
    NotFreeAtEnd(l);
    if l[0].count < n {
      if !l[0].Has(s) {
        forall p | s <= p < s + n ensures Free(l[1..], p) {
          assert Free(l, p);
          assert !l[0].Has(p);
        }
        AllocIsLowest(l[1..], n, s);
      }
    }
  }

  /** The start of the first run of at least `n` pages. */
  function LowestRun(l: seq<Run>, n: nat): nat {
    if l == [] then 0 else if l[0].count >= n then l[0].start else LowestRun(l[1..], n)
  }

  lemma {:induction false} AllocAtLowestRun(l: seq<Run>, n: nat)
    requires n > 0
    ensures Alloc(l, n).1.Some? ==> Alloc(l, n).1.page == LowestRun(l, n)
  {
    if l != [] && l[0].count < n { AllocAtLowestRun(l[1..], n); }
  }

  // ---------- releasing ----------

  lemma {:induction false} FreeBlockApart(l: seq<Run>, a: nat, n: nat)
    requires Canonical(l) && n > 0 && NoneFree(l, a, n) && l != []
    ensures Clear(l[0], a) && (l[0].start > a ==> l[0].start >= a + n)
    ensures NoneFree(l[1..], a, n)
  {
    assert l[0].Has(a) ==> Free(l, a);
    assert Free(l, l[0].start);
    forall p | a <= p < a + n ensures !Free(l[1..], p) { assert !Free(l, p); }
  }

  /** Exactly the pages of the block become free; the list stays canonical, so neighbours are merged. */
  lemma {:induction false} ReleaseKeeps(l: seq<Run>, a: nat, n: nat)
    requires Canonical(l) && n > 0 && NoneFree(l, a, n)
    ensures Canonical(Release(l, a, n))
    ensures Release(l, a, n) != [] && Release(l, a, n)[0].start == if l == [] || a < l[0].start then a else l[0].start
    ensures forall p :: Free(Release(l, a, n), p) <==> Free(l, p) || a <= p < a + n
  {
    var r := Release(l, a, n);
    if l == [] {
      assert r[1..] == [];
    } else {
      FreeBlockApart(l, a, n);
      var b := l[0];
      if b.End() == a {
        if |l| > 1 { FreeBlockApart(l[1..], a, n); }
        if |l| > 1 && b.End() + n == l[1].start {
          assert l[1..][1..] == l[2..] && l[1..][0] == l[1] && r[1..] == l[2..];
          assert |l| > 2 ==> l[1..][1] == l[2];
        } else {
          assert r[1..] == l[1..];
        }
      } else if b.start == a + n {
        assert r[1..] == l[1..];
      } else if b.start > a + n {
        assert r[1..] == l;
      } else {
        ReleaseKeeps(l[1..], a, n);
        assert r[1..] == Release(l[1..], a, n);
      }
    }
  }

  /** Freeing what was just allocated restores the list. */
  lemma AllocThenRelease(l: seq<Run>, n: nat)
    requires Canonical(l) && n > 0 && Alloc(l, n).1.Some?
    ensures Release(Alloc(l, n).0, Alloc(l, n).1.page, n) == l
  {
    AllocKeeps(l, n);
    var (r, a) := Alloc(l, n);
    ReleaseKeeps(r, a.page, n);
    SamePages(Release(r, a.page, n), l);
  }

  // ---------- runs ----------

  datatype Action = AllocPages(n: nat) | FreePages(a: nat)

  /** The list and the blocks that are in use. */
  datatype State = State(list: seq<Run>, live: map<nat, nat>)

  predicate Within(live: map<nat, nat>, a: nat, p: int) {
    a in live && a <= p < a + live[a]
  }

  function Step(s: State, x: Action): State {
    match x
    case AllocPages(n) =>
      if n == 0 then s
      else
        var (r, a) := Alloc(s.list, n);
        if a.None? then s else State(r, s.live[a.page := n])
    case FreePages(a) =>
      if a in s.live then State(Release(s.list, a, s.live[a]), s.live - {a}) else s
  }

  /** Pages are conserved: each page of the pool is free or in exactly one block in use. */
  ghost predicate Inv(s: State, pool: Run) {
    && Canonical(s.list)
    && (forall a :: a in s.live ==> s.live[a] > 0)
    && (forall p :: Free(s.list, p) ==> pool.Has(p))
    && (forall a, p :: Within(s.live, a, p) ==> pool.Has(p) && !Free(s.list, p))
    && (forall a, b, p :: Within(s.live, a, p) && Within(s.live, b, p) ==> a == b)
    && (forall p :: pool.Has(p) && !Free(s.list, p) ==> exists a :: Within(s.live, a, p))
  }

  lemma StepInv(s: State, x: Action, pool: Run)
    requires Inv(s, pool)
    ensures Inv(Step(s, x), pool)
  {
    match x
    case AllocPages(n) =>
      if n > 0 {
        AllocKeeps(s.list, n);
        var (r, a) := Alloc(s.list, n);
        if a.Some? { TakenInv(s, a.page, n, r, pool); }
      }
    case FreePages(a) =>
      if a in s.live {
        forall p | a <= p < a + s.live[a] ensures !Free(s.list, p) { assert Within(s.live, a, p); }
        ReleaseKeeps(s.list, a, s.live[a]);
        ReturnedInv(s, a, Release(s.list, a, s.live[a]), pool);
      }
  }

  lemma TakenInv(s: State, a: nat, n: nat, r: seq<Run>, pool: Run)
    requires Inv(s, pool) && n > 0 && Canonical(r) && AllFree(s.list, a, n)
    requires forall p :: Free(r, p) <==> Free(s.list, p) && !(a <= p < a + n)
    ensures Inv(State(r, s.live[a := n]), pool)
  {
    hide Canonical, Free;
    var live := s.live[a := n];
    assert Free(s.list, a);
    assert a in s.live ==> Within(s.live, a, a);
    forall b, p ensures Within(live, b, p) <==> Within(s.live, b, p) || (b == a && a <= p < a + n) {}
    forall p | pool.Has(p) && !Free(r, p) ensures exists b :: Within(live, b, p) {
      if Free(s.list, p) {
        assert Within(live, a, p);
      } else {
        var b :| Within(s.live, b, p);
        assert Within(live, b, p);
      }
    }
  }

  lemma ReturnedInv(s: State, a: nat, r: seq<Run>, pool: Run)
    requires Inv(s, pool) && a in s.live && Canonical(r)
    requires forall p :: Free(r, p) <==> Free(s.list, p) || a <= p < a + s.live[a]
    ensures Inv(State(r, s.live - {a}), pool)
  {
    hide Canonical, Free;
    var live := s.live - {a};
    forall b, p ensures Within(live, b, p) <==> Within(s.live, b, p) && b != a {}
    forall p | Free(r, p) ensures pool.Has(p) {
      assert a <= p < a + s.live[a] ==> Within(s.live, a, p);
    }
    forall b, p | Within(live, b, p) ensures !Free(r, p) {
      assert Within(s.live, b, p);
      assert a <= p < a + s.live[a] ==> Within(s.live, a, p);
    }
    forall p | pool.Has(p) && !Free(r, p) ensures exists b :: Within(live, b, p) {
      var b :| Within(s.live, b, p);
      assert Within(live, b, p);
    }
  }

  function Steps(s: State, acts: seq<Action>): State {
    if acts == [] then s else Step(Steps(s, acts[..|acts| - 1]), acts[|acts| - 1])
  }

  /** From a fresh pool: pages are conserved in every run, and once everything has been freed, in any
      order, the list is the one run it began with. */
  lemma {:induction false} RunConserves(pool: Run, acts: seq<Action>)
    requires pool.count > 0
    ensures var s := Steps(State([pool], map[]), acts);
            Inv(s, pool) && (s.live == map[] ==> s.list == [pool])
  {
    var s := Steps(State([pool], map[]), acts);
    assert [pool][1..] == [];
    if acts != [] {
      RunConserves(pool, acts[..|acts| - 1]);
      StepInv(Steps(State([pool], map[]), acts[..|acts| - 1]), acts[|acts| - 1], pool);
    }
    if s.live == map[] {
      forall p: nat ensures Free(s.list, p) <==> Free([pool], p) {}
      SamePages(s.list, [pool]);
    }
  }
}
