/** What goes wrong when freeing an event is interrupted, and exactly when: whether an event can be handed out
    twice, and whether the set of a live event can leave the list. */
module EventRuns {
  import opened Lists
  import opened IpcList
  import PackedSpec
  import opened EventPool

  // ---------- whether an event is handed out twice ----------

  /** Every live event has its bit set. */
  ghost predicate Kept<Id>(p: Pool<Id>) {
    forall e :: e in p.live ==> HasBit(p, e)
  }

  predicate HasBit<Id>(p: Pool<Id>, e: (Id, nat)) {
    e.0 in p.bits && e.1 < |p.bits[e.0]| && p.bits[e.0][e.1]
  }

  /** While live events have their bits, what is handed out does not live yet. */
  lemma AllocKept<Id>(p: Pool<Id>, made: Id)
    requires Inv(p) && Kept(p) && made !in p.bits
    ensures AllocSpec(p, made).1 !in p.live && Kept(AllocSpec(p, made).0)
  {
    AllocIs(p, made);
    hide AllocSpec, Kernels;
    var (q, e) := AllocSpec(p, made);
    assert e !in p.live by { assert e in p.live ==> HasBit(p, e); }
    forall x | x in q.live ensures HasBit(q, x) {
      if x != e { assert HasBit(p, x); }
    }
  }

  /** Writing the word back keeps the bits of live events if and only if the word read has them all and
      none of them is the one that is reset. */
  lemma StoreKept<Id>(p: Pool<Id>, t: Tid, prio: Tid -> nat)
    requires Inv(p) && Kept(p) && Enabled(p, Store(t))
    ensures var g := p.busy[t];
            Kept(Step(p, Store(t), prio)) <==>
            forall b: nat :: (g.home, b) in p.live ==> b < |g.word| && g.word[b] && b != g.bit
  {
    var g, q := p.busy[t], Step(p, Store(t), prio);
    hide Kernels;
    if Kept(q) {
      forall b: nat | (g.home, b) in p.live ensures b < |g.word| && g.word[b] && b != g.bit {
        assert HasBit(q, (g.home, b));
      }
    }
    if forall b: nat :: (g.home, b) in p.live ==> b < |g.word| && g.word[b] && b != g.bit {
      forall e | e in q.live ensures HasBit(q, e) {
        assert HasBit(p, e);
        if e.0 == g.home { assert (g.home, e.1) in p.live; }
      }
    }
  }

  lemma OtherKept<Id>(p: Pool<Id>, a: Action<Id>, prio: Tid -> nat)
    requires Inv(p) && Kept(p) && Enabled(p, a) && !a.Store?
    ensures Kept(Step(p, a, prio))
  {
    if a.Alloc? {
      AllocKept(p, a.made);
    } else {
      if IsKernel(a) { KernelAllowed(p, a); }
      var q := Step(p, a, prio);
      hide PackedSpec.KernelStep, Kernels;
      forall e | e in q.live ensures HasBit(q, e) {
        assert HasBit(p, e);
      }
    }
  }

  /** Action `m` hands out event (s, b). */
  ghost predicate HandsOut<Id>(ps: seq<Pool<Id>>, acts: seq<Action<Id>>, m: nat, s: Id, b: nat) {
    m < |acts| < |ps| && acts[m].Alloc? && Shape(ps[m]) && AllocSpec(ps[m], acts[m].made).1 == (s, b)
  }

  /** No thread begins to free event (s, b) in the actions from `j` to before `k`. */
  ghost predicate NotFreed<Id>(acts: seq<Action<Id>>, j: nat, k: nat, s: Id, b: nat) {
    forall i :: j <= i < k && i < |acts| ==> !Frees(acts[i], s, b)
  }

  predicate Frees<Id(==)>(a: Action<Id>, s: Id, b: nat) {
    a.Load? && a.home == s && a.bit == b
  }

  /** Action `m`, at `j` or later, hands out (s, b), and nobody begins to free it before action `k`. */
  ghost predicate OutSince<Id>(ps: seq<Pool<Id>>, acts: seq<Action<Id>>, j: nat, m: nat, k: nat, s: Id, b: nat) {
    j <= m < k && HandsOut(ps, acts, m, s, b) && NotFreed(acts, m + 1, k, s, b)
  }

  ghost predicate Out<Id>(ps: seq<Pool<Id>>, acts: seq<Action<Id>>, j: nat, k: nat, s: Id, b: nat) {
    exists m: nat :: OutSince(ps, acts, j, m, k, s, b)
  }

  lemma OutNext<Id>(ps: seq<Pool<Id>>, acts: seq<Action<Id>>, j: nat, h: nat, k: nat, s: Id, b: nat)
    requires j <= h < |acts| && k == h + 1
    ensures Out(ps, acts, j, k, s, b) <==>
            (Out(ps, acts, j, h, s, b) && !Frees(acts[h], s, b)) || HandsOut(ps, acts, h, s, b)
    ensures NotFreed(acts, j, k, s, b) <==> NotFreed(acts, j, h, s, b) && !Frees(acts[h], s, b)
  {
    hide HandsOut, Frees;
    if HandsOut(ps, acts, h, s, b) { assert OutSince(ps, acts, j, h, k, s, b); }
    if Out(ps, acts, j, h, s, b) && !Frees(acts[h], s, b) {
      var m: nat :| OutSince(ps, acts, j, m, h, s, b);
      assert OutSince(ps, acts, j, m, k, s, b);
    }
    if Out(ps, acts, j, k, s, b) {
      var m: nat :| OutSince(ps, acts, j, m, k, s, b);
      assert m < h ==> OutSince(ps, acts, j, m, h, s, b) && !Frees(acts[h], s, b);
    }
  }

  lemma StepLive<Id>(p: Pool<Id>, a: Action<Id>, prio: Tid -> nat, e: (Id, nat))
    requires Inv(p) && Enabled(p, a)
    ensures Shape(p)
    ensures e in Step(p, a, prio).live <==>
            (e in p.live && !Frees(a, e.0, e.1)) || (a.Alloc? && AllocSpec(p, a.made).1 == e)
  {
    if IsKernel(a) { KernelAllowed(p, a); }
    if a.Alloc? { AllocIs(p, a.made); }
    hide PackedSpec.KernelStep, AllocSpec, Kernels;
  }

  /** Which events live can be told from the actions: those that lived at point `j` or were handed out since,
      if nobody began to free them. */
  lemma {:induction false} LiveSince<Id>(ps: seq<Pool<Id>>, acts: seq<Action<Id>>, info: seq<Info>, prio: Tid -> nat,
                                         j: nat, k: nat, s: Id, b: nat)
    requires Run(ps, acts, info, prio) && j <= k <= |acts|
    ensures (s, b) in ps[k].live <==>
            ((s, b) in ps[j].live && NotFreed(acts, j, k, s, b)) || Out(ps, acts, j, k, s, b)
    decreases k
  {
    if k > j {
      LiveSince(ps, acts, info, prio, j, k - 1, s, b);
      RunInv(ps, acts, info, prio, k - 1);
      assert Follows(ps, acts, prio, k - 1);
      StepLive(ps[k - 1], acts[k - 1], prio, (s, b));
      OutNext(ps, acts, j, k - 1, k, s, b);
      hide Inv, Step, AllocSpec, Enabled, Run, Shape, Frees, Out, NotFreed, NoLeak;
    }
  }

  /** The action belongs to thread `t`, which is freeing an event. */
  predicate By<Id>(a: Action<Id>, t: Tid) {
    (a.Load? || a.Store? || a.Test? || a.Dispose?) && a.t == t
  }

  /** Action `j` is what thread `t` has done last before action `k`. */
  ghost predicate Last<Id>(acts: seq<Action<Id>>, j: nat, k: nat, t: Tid) {
    j < k <= |acts| && By(acts[j], t) && forall i :: j < i < k ==> !By(acts[i], t)
  }

  lemma StepStage<Id>(p: Pool<Id>, a: Action<Id>, prio: Tid -> nat, t: Tid)
    requires Inv(p) && Enabled(p, a)
    ensures var q := Step(p, a, prio);
            if !By(a, t) then (t in q.busy <==> t in p.busy) && (t in p.busy ==> q.busy[t] == p.busy[t])
            else if a.Load? then t in q.busy && a.home in p.bits && q.busy[t] == Loaded(a.home, a.bit, p.bits[a.home])
            else t in q.busy ==>
              && !q.busy[t].Loaded?
              && (q.busy[t].Empty? ==> a.Test? && q.busy[t].home in p.bits && None(p.bits[q.busy[t].home]))
  {
    if IsKernel(a) { KernelAllowed(p, a); }
    if a.Alloc? { AllocIs(p, a.made); }
    hide PackedSpec.KernelStep, AllocSpec, Kernels, None;
  }

  /** A thread stays where its last action has left it. */
  lemma {:induction false} StageSince<Id>(ps: seq<Pool<Id>>, acts: seq<Action<Id>>, info: seq<Info>, prio: Tid -> nat,
                                          j: nat, k: nat, t: Tid)
    requires Run(ps, acts, info, prio) && Last(acts, j, k, t)
    ensures t in ps[k].busy <==> t in ps[j + 1].busy
    ensures t in ps[k].busy ==> ps[k].busy[t] == ps[j + 1].busy[t]
    decreases k
  {
    if k > j + 1 {
      assert Last(acts, j, k - 1, t);
      StageSince(ps, acts, info, prio, j, k - 1, t);
      RunInv(ps, acts, info, prio, k - 1);
      assert Follows(ps, acts, prio, k - 1);
      StepStage(ps[k - 1], acts[k - 1], prio, t);
      hide Inv, Step, Enabled, NoLeak;
    }
  }

  lemma {:induction false} LastOf<Id>(ps: seq<Pool<Id>>, acts: seq<Action<Id>>, info: seq<Info>, prio: Tid -> nat,
                                      k: nat, t: Tid) returns (j: nat)
    requires Run(ps, acts, info, prio) && k <= |acts| && t in ps[k].busy
    ensures Last(acts, j, k, t)
  {
    if By(acts[k - 1], t) {
      j := k - 1;
    } else {
      RunInv(ps, acts, info, prio, k - 1);
      assert Follows(ps, acts, prio, k - 1);
      StepStage(ps[k - 1], acts[k - 1], prio, t);
      hide Inv, Step, Enabled, NoLeak, By;
      j := LastOf(ps, acts, info, prio, k - 1, t);
    }
  }

  /** What the last action of a thread was that has read a word, or has found a set empty. */
  lemma LastWas<Id>(ps: seq<Pool<Id>>, acts: seq<Action<Id>>, info: seq<Info>, prio: Tid -> nat, j: nat, k: nat, t: Tid)
    requires Run(ps, acts, info, prio) && Last(acts, j, k, t) && t in ps[k].busy
    ensures var (a, g) := (acts[j], ps[k].busy[t]);
            && (g.Loaded? <==> a.Load?)
               && (a.Load? ==> a.home in ps[j].bits && g == Loaded(a.home, a.bit, ps[j].bits[a.home]))
            && (g.Empty? ==> a.Test? && g.home in ps[j].bits && None(ps[j].bits[g.home]))
  {
    StageSince(ps, acts, info, prio, j, k, t);
    RunInv(ps, acts, info, prio, j);
    assert Follows(ps, acts, prio, j);
    StepStage(ps[j], acts[j], prio, t);
    hide Inv, Step, Enabled, NoLeak, None;
  }

  /** The write at `k` takes the bit of event `c` of the set: the event has been handed out, and not freed,
      since its thread read the word at `j`, and in that word its bit is not set, or it is the one to reset. */
  ghost predicate Loses<Id>(ps: seq<Pool<Id>>, acts: seq<Action<Id>>, j: nat, k: nat, c: nat) {
    && k < |acts| < |ps| && acts[k].Store? && Last(acts, j, k, acts[k].t) && acts[j].Load?
    && Out(ps, acts, j + 1, k, acts[j].home, c)
    && (c == acts[j].bit || !HasBit(ps[j], (acts[j].home, c)))
  }

  ghost predicate LosesBit<Id>(ps: seq<Pool<Id>>, acts: seq<Action<Id>>, k: nat) {
    exists j: nat, c: nat :: Loses(ps, acts, j, k, c)
  }

  ghost predicate KeptUpTo<Id>(ps: seq<Pool<Id>>, n: nat)
    requires n < |ps|
  {
    forall k :: 0 <= k <= n ==> Kept(ps[k])
  }

  ghost predicate NoneLost<Id>(ps: seq<Pool<Id>>, acts: seq<Action<Id>>, n: nat) {
    forall k: nat :: k < n ==> !LosesBit(ps, acts, k)
  }

  /** Which events live when a word is written back that was read at `j`. */
  lemma LiveAtStore<Id>(ps: seq<Pool<Id>>, acts: seq<Action<Id>>, info: seq<Info>, prio: Tid -> nat,
                        j: nat, k: nat, t: Tid, c: nat)
    requires Run(ps, acts, info, prio) && Last(acts, j, k, t) && acts[j].Load?
    ensures Out(ps, acts, j + 1, k, acts[j].home, c) ==> (acts[j].home, c) in ps[k].live
    ensures (acts[j].home, c) in ps[k].live ==>
              Out(ps, acts, j + 1, k, acts[j].home, c) || ((acts[j].home, c) in ps[j].live && c != acts[j].bit)
  {
    var s := acts[j].home;
    LiveSince(ps, acts, info, prio, j + 1, k, s, c);
    RunInv(ps, acts, info, prio, j);
    assert Follows(ps, acts, prio, j);
    StepLive(ps[j], acts[j], prio, (s, c));
    hide Inv, Step, Enabled, NoLeak, AllocSpec, Out;
  }

  /** While live events have their bits, a write keeps them so if and only if it loses none. */
  lemma StoreLoses<Id>(ps: seq<Pool<Id>>, acts: seq<Action<Id>>, info: seq<Info>, prio: Tid -> nat, k: nat)
    requires Run(ps, acts, info, prio) && k < |acts| && acts[k].Store? && KeptUpTo(ps, k)
    ensures Kept(ps[k + 1]) <==> !LosesBit(ps, acts, k)
  {
    RunInv(ps, acts, info, prio, k);
    assert Follows(ps, acts, prio, k);
    var t := acts[k].t;
    StoreStage(ps[k], acts[k]);
    StoreKept(ps[k], t, prio);
    var g := ps[k].busy[t];
    hide Inv, Step, Enabled, NoLeak, Out;
    if LosesBit(ps, acts, k) {
      var j: nat, c: nat :| Loses(ps, acts, j, k, c);
      LastWas(ps, acts, info, prio, j, k, t);
      LiveAtStore(ps, acts, info, prio, j, k, t, c);
    } else {
      var j := LastOf(ps, acts, info, prio, k, t);
      LastWas(ps, acts, info, prio, j, k, t);
      forall c: nat | (g.home, c) in ps[k].live ensures c < |g.word| && g.word[c] && c != g.bit {
        LiveAtStore(ps, acts, info, prio, j, k, t, c);
        assert !Loses(ps, acts, j, k, c);
        assert Kept(ps[j]);
        assert (g.home, c) in ps[j].live ==> HasBit(ps[j], (g.home, c));
      }
    }
  }

  /** Live events have their bits at every point of a run if and only if no write loses one. */
  lemma {:induction false} RunKept<Id>(ps: seq<Pool<Id>>, acts: seq<Action<Id>>, info: seq<Info>, prio: Tid -> nat,
                                       n: nat)
    requires Run(ps, acts, info, prio) && n <= |acts|
    ensures KeptUpTo(ps, n) <==> NoneLost(ps, acts, n)
  {
    if n == 0 {
      RunInv(ps, acts, info, prio, n);
      hide Inv;
    } else {
      RunKept(ps, acts, info, prio, n - 1);
      OneMoreKept(ps, acts, n - 1, n);
      RunInv(ps, acts, info, prio, n - 1);
      assert Follows(ps, acts, prio, n - 1);
      hide Inv, Step, Enabled, NoLeak, Kept, LosesBit, KeptUpTo, NoneLost;
      if KeptUpTo(ps, n - 1) {
        if acts[n - 1].Store? {
          StoreLoses(ps, acts, info, prio, n - 1);
        } else {
          OtherKept(ps[n - 1], acts[n - 1], prio);
          NoLoss(ps, acts, n - 1);
        }
      }
    }
  }

  /** Until a write loses the bit of a live event, nothing is handed out that lives already.  In particular no
      write that is up to date loses one. */
  lemma RunDistinct<Id>(ps: seq<Pool<Id>>, acts: seq<Action<Id>>, info: seq<Info>, prio: Tid -> nat, n: nat)
    requires Run(ps, acts, info, prio) && n <= |acts|
    ensures NoneLost(ps, acts, n) && n < |acts| && acts[n].Alloc? ==>
              Shape(ps[n]) && AllocSpec(ps[n], acts[n].made).1 !in ps[n].live
    ensures Atomic(ps, acts, n) ==> NoneLost(ps, acts, n)
  {
    RunKept(ps, acts, info, prio, n);
    AtomicKept(ps, acts, info, prio, n);
    RunInv(ps, acts, info, prio, n);
    hide Inv, Atomic, NoneLost;
    if n < |acts| && acts[n].Alloc? {
      assert Follows(ps, acts, prio, n);
      if KeptUpTo(ps, n) { AllocNew(ps[n], acts[n].made); }
    }
  }

  lemma OneMoreKept<Id>(ps: seq<Pool<Id>>, acts: seq<Action<Id>>, h: nat, n: nat)
    requires n == h + 1 < |ps|
    ensures KeptUpTo(ps, n) <==> KeptUpTo(ps, h) && Kept(ps[n])
    ensures KeptUpTo(ps, h) ==> Kept(ps[h])
    ensures NoneLost(ps, acts, n) <==> NoneLost(ps, acts, h) && !LosesBit(ps, acts, h)
  {
    hide Kept, LosesBit;
  }

  lemma NoLoss<Id>(ps: seq<Pool<Id>>, acts: seq<Action<Id>>, k: nat)
    requires k < |acts| && !acts[k].Store?
    ensures !LosesBit(ps, acts, k)
  {
  }

  lemma AllocNew<Id>(p: Pool<Id>, made: Id)
    requires Inv(p) && Kept(p) && Enabled(p, Alloc(made))
    ensures Shape(p) && AllocSpec(p, made).1 !in p.live
  {
    AllocKept(p, made);
  }

  lemma AtomicKept<Id>(ps: seq<Pool<Id>>, acts: seq<Action<Id>>, info: seq<Info>, prio: Tid -> nat, n: nat)
    requires Run(ps, acts, info, prio) && n <= |acts|
    ensures Atomic(ps, acts, n) ==> KeptUpTo(ps, n)
  {
    RunOwned(ps, acts, info, prio, n);
    if OwnedUpTo(ps, n) {
      forall k | 0 <= k <= n ensures Kept(ps[k]) {
        RunInv(ps, acts, info, prio, k);
        OwnedIsKept(ps[k]);
      }
    }
  }

  lemma OwnedIsKept<Id>(p: Pool<Id>)
    requires Inv(p) && Owned(p)
    ensures Kept(p)
  {
  }

  /** One of the next `n` + 1 allocations hands out an event that lives by then. */
  ghost predicate Again<Id>(p: Pool<Id>, made: Id, n: nat)
    decreases n
  {
    Shape(p) && (AllocSpec(p, made).1 in p.live || (n > 0 && Again(AllocSpec(p, made).0, made, n - 1)))
  }

  /** The bits of the listed sets that are not set. */
  ghost function ClearBits<Id>(p: Pool<Id>): set<(int, int)>
    requires Shape(p)
  {
    set i: int, b: int | 0 <= i < |p.sets| && 0 <= b < PackedSpec.N && !p.bits[p.sets[i]][b] :: (i, b)
  }

  /** A live event of a listed set that has lost its bit makes allocations, sooner or later, hand out an event
      that lives. */
  lemma {:induction false} ComesAgain<Id>(p: Pool<Id>, made: Id, e: (Id, nat)) returns (n: nat)
    requires Inv(p) && e in p.live && e.0 in p.sets && !HasBit(p, e) && made !in p.bits
    ensures Again(p, made, n)
    decreases |ClearBits(p)|
  {
    var k := FirstOpen(p.sets, p.bits, 0);
    assert !Full(p.bits[e.0]) by { assert !p.bits[e.0][e.1]; }
    var i :| 0 <= i < |p.sets| && p.sets[i] == e.0;
    assert k <= i;
    var (q, x) := AllocSpec(p, made);
    AllocIs(p, made);
    if x in p.live {
      n := 0;
    } else {
      AllocShape(p, made);
      AllocFlags(p, made);
      FewerClear(p, q, x, k);
      assert !HasBit(q, e);
      hide Inv, AllocSpec, Full;
      var m := ComesAgain(q, made, e);
      n := m + 1;
    }
  }

  lemma FewerClear<Id>(p: Pool<Id>, q: Pool<Id>, x: (Id, nat), k: nat)
    requires Shape(p) && Shape(q) && q.sets == p.sets && k < |p.sets| && p.sets[k] == x.0 && x.1 < PackedSpec.N
             && !p.bits[x.0][x.1]
    requires q.bits == p.bits[x.0 := Raised(p.bits[x.0], x.1)]
    ensures |ClearBits(q)| < |ClearBits(p)|
  {
    assert (k as int, x.1 as int) in ClearBits(p) && (k as int, x.1 as int) !in ClearBits(q);
    assert ClearBits(q) <= ClearBits(p);
    Smaller(ClearBits(q), ClearBits(p), (k as int, x.1 as int));
  }

  lemma Smaller(a: set<(int, int)>, b: set<(int, int)>, x: (int, int))
    requires a <= b && x in b && x !in a
    ensures |a| < |b|
  {
    assert b == a + (b - a) && x in b - a;
  }

  // ---------- which live events are listed ----------

  ghost predicate ListedUpTo<Id>(ps: seq<Pool<Id>>, n: nat)
    requires n < |ps|
  {
    forall k :: 0 <= k <= n ==> Listed(ps[k])
  }

  /** Action `k` disposes of a set of which event `b` has been handed out since `j`, and not freed. */
  ghost predicate Drops<Id>(ps: seq<Pool<Id>>, acts: seq<Action<Id>>, j: nat, k: nat, b: nat) {
    k < |acts| < |ps| && acts[k].Dispose? && acts[k].t in ps[k].busy
        && Out(ps, acts, j, k, ps[k].busy[acts[k].t].home, b)
  }

  /** As before, and `j` is the test that found the set empty, the last thing the thread has done. */
  ghost predicate DropsAfter<Id>(ps: seq<Pool<Id>>, acts: seq<Action<Id>>, j: nat, k: nat, b: nat) {
    k < |acts| && acts[k].Dispose? && Last(acts, j, k, acts[k].t) && Drops(ps, acts, j + 1, k, b)
  }

  ghost predicate DropsLive<Id>(ps: seq<Pool<Id>>, acts: seq<Action<Id>>, k: nat) {
    exists b: nat :: Drops(ps, acts, 0, k, b)
  }

  ghost predicate DropsSince<Id>(ps: seq<Pool<Id>>, acts: seq<Action<Id>>, k: nat) {
    exists j: nat, b: nat :: DropsAfter(ps, acts, j, k, b)
  }

  /** Which events live in a set when it is disposed of: those handed out, and not freed, so far; and while
      live events have their bits, those handed out, and not freed, since the test found the set empty. */
  lemma HandedOutSince<Id>(ps: seq<Pool<Id>>, acts: seq<Action<Id>>, info: seq<Info>, prio: Tid -> nat,
                           j: nat, k: nat, b: nat)
    requires Run(ps, acts, info, prio) && k < |acts| && acts[k].Dispose? && Last(acts, j, k, acts[k].t)
    ensures acts[k].t in ps[k].busy && acts[j].Test?
    ensures (ps[k].busy[acts[k].t].home, b) in ps[k].live <==> Drops(ps, acts, 0, k, b)
    ensures Kept(ps[j]) ==> ((ps[k].busy[acts[k].t].home, b) in ps[k].live <==> DropsAfter(ps, acts, j, k, b))
  {
    RunInv(ps, acts, info, prio, k);
    assert Follows(ps, acts, prio, k);
    DisposeStage(ps[k], acts[k]);
    var t := acts[k].t;
    var s := ps[k].busy[t].home;
    LastWas(ps, acts, info, prio, j, k, t);
    LiveSince(ps, acts, info, prio, 0, k, s, b);
    LiveSince(ps, acts, info, prio, j + 1, k, s, b);
    RunInv(ps, acts, info, prio, j);
    assert Follows(ps, acts, prio, j);
    StepLive(ps[j], acts[j], prio, (s, b));
    if Kept(ps[j]) { NoneLives(ps[j], s, b); }
    hide Inv, Step, Enabled, NoLeak, Out, None, Kept;
  }

  lemma DisposeStage<Id>(p: Pool<Id>, a: Action<Id>)
    requires Inv(p) && Enabled(p, a) && a.Dispose?
    ensures a.t in p.busy && p.busy[a.t].Empty?
  {
  }

  lemma NoneLives<Id>(p: Pool<Id>, s: Id, b: nat)
    requires Kept(p) && s in p.bits && None(p.bits[s])
    ensures (s, b) !in p.live
  {
    assert (s, b) in p.live ==> HasBit(p, (s, b));
  }

  /** The condition of StepListed, told from the actions. */
  lemma DisposeDrops<Id>(ps: seq<Pool<Id>>, acts: seq<Action<Id>>, info: seq<Info>, prio: Tid -> nat, k: nat)
    requires Run(ps, acts, info, prio) && k < |acts| && acts[k].Dispose?
    ensures acts[k].t in ps[k].busy
    ensures HasLive(ps[k].live, ps[k].busy[acts[k].t].home) <==> DropsLive(ps, acts, k)
    ensures KeptUpTo(ps, k) ==> (DropsLive(ps, acts, k) <==> DropsSince(ps, acts, k))
  {
    RunInv(ps, acts, info, prio, k);
    assert Follows(ps, acts, prio, k);
    DisposeStage(ps[k], acts[k]);
    var t := acts[k].t;
    var s := ps[k].busy[t].home;
    var j := LastOf(ps, acts, info, prio, k, t);
    hide Inv, Step, Enabled, NoLeak, Out, Drops, DropsAfter, Run, Kept;
    forall b: nat ensures (s, b) in ps[k].live <==> Drops(ps, acts, 0, k, b) {
      HandedOutSince(ps, acts, info, prio, j, k, b);
    }
    forall i: nat, b: nat | DropsAfter(ps, acts, i, k, b) && Kept(ps[i]) ensures (s, b) in ps[k].live {
      assert Last(acts, i, k, t) by { AfterIs(ps, acts, i, k, b); }
      HandedOutSince(ps, acts, info, prio, i, k, b);
    }
    assert HasLive(ps[k].live, s) <==> exists b: nat :: (s, b) in ps[k].live;
    if KeptUpTo(ps, k) {
      forall i: nat, b: nat | DropsAfter(ps, acts, i, k, b) ensures (s, b) in ps[k].live {
        AfterIs(ps, acts, i, k, b);
      }
      forall b: nat | (s, b) in ps[k].live ensures DropsAfter(ps, acts, j, k, b) {
        HandedOutSince(ps, acts, info, prio, j, k, b);
      }
    }
  }

  lemma AfterIs<Id>(ps: seq<Pool<Id>>, acts: seq<Action<Id>>, j: nat, k: nat, b: nat)
    requires DropsAfter(ps, acts, j, k, b)
    ensures k < |acts| < |ps| && acts[k].Dispose? && Last(acts, j, k, acts[k].t)
  {
  }

  lemma ListedNext<Id>(ps: seq<Pool<Id>>, acts: seq<Action<Id>>, info: seq<Info>, prio: Tid -> nat, k: nat)
    requires Run(ps, acts, info, prio) && k < |acts|
    ensures Listed(ps[k]) ==> (Listed(ps[k + 1]) <==> !DropsLive(ps, acts, k))
    ensures KeptUpTo(ps, k) ==> (DropsLive(ps, acts, k) <==> DropsSince(ps, acts, k))
  {
    RunInv(ps, acts, info, prio, k);
    assert Follows(ps, acts, prio, k);
    if acts[k].Dispose? {
      DisposeDrops(ps, acts, info, prio, k);
    } else {
      NoDrop(ps, acts, k);
    }
    hide Inv, Step, Enabled, NoLeak, DropsLive, DropsSince, Listed, Kept, HasLive;
    if Listed(ps[k]) { StepListed(ps[k], acts[k], prio); }
  }

  lemma NoDrop<Id>(ps: seq<Pool<Id>>, acts: seq<Action<Id>>, k: nat)
    requires k < |acts| && !acts[k].Dispose?
    ensures !DropsLive(ps, acts, k) && !DropsSince(ps, acts, k)
  {
  }

  lemma OneMoreListed<Id>(ps: seq<Pool<Id>>, acts: seq<Action<Id>>, h: nat, n: nat)
    requires n == h + 1 < |ps|
    ensures ListedUpTo(ps, n) <==> ListedUpTo(ps, h) && Listed(ps[n])
    ensures ListedUpTo(ps, h) ==> Listed(ps[h])
    ensures NoneDropped(ps, acts, n) <==> NoneDropped(ps, acts, h) && !DropsLive(ps, acts, h)
  {
    hide Listed, DropsLive;
  }

  /** No set is disposed of, before action `n`, of which an event has been handed out and not freed. */
  ghost predicate NoneDropped<Id>(ps: seq<Pool<Id>>, acts: seq<Action<Id>>, n: nat) {
    forall k: nat :: k < n ==> !DropsLive(ps, acts, k)
  }

  /** The same, looking only at the time between the test that finds a set empty and its disposal. */
  ghost predicate NoneDroppedSince<Id>(ps: seq<Pool<Id>>, acts: seq<Action<Id>>, n: nat) {
    forall k: nat :: k < n ==> !DropsSince(ps, acts, k)
  }

  /** Every live event is in a listed set at every point of a run if and only if no set is disposed of while
      one of its events is handed out and not freed. */
  lemma {:induction false} RunListed<Id>(ps: seq<Pool<Id>>, acts: seq<Action<Id>>, info: seq<Info>, prio: Tid -> nat,
                                         n: nat)
    requires Run(ps, acts, info, prio) && n <= |acts|
    ensures ListedUpTo(ps, n) <==> NoneDropped(ps, acts, n)
  {
    if n > 0 {
      RunListed(ps, acts, info, prio, n - 1);
      OneMoreListed(ps, acts, n - 1, n);
      ListedNext(ps, acts, info, prio, n - 1);
      hide *;
    } else {
      hide Inv;
    }
  }

  /** While no write loses the bit of a live event, that is so if and only if no event is handed out, and not
      freed, between the test that finds its set empty and the disposal of the set. */
  lemma RunListedSince<Id>(ps: seq<Pool<Id>>, acts: seq<Action<Id>>, info: seq<Info>, prio: Tid -> nat, n: nat)
    requires Run(ps, acts, info, prio) && n <= |acts| && NoneLost(ps, acts, n)
    ensures ListedUpTo(ps, n) <==> NoneDroppedSince(ps, acts, n)
  {
    RunListed(ps, acts, info, prio, n);
    RunKept(ps, acts, info, prio, n);
    hide Run, Kept, Listed, ListedUpTo, DropsLive, DropsSince, NoneLost;
    forall k: nat | k < n ensures DropsLive(ps, acts, k) <==> DropsSince(ps, acts, k) {
      ListedNext(ps, acts, info, prio, k);
    }
  }

  // ---------- what goes wrong ----------

  ghost predicate Next(p: Pool<nat>, a: Action<nat>, q: Pool<nat>, prio: Tid -> nat) {
    Inv(p) ==> Enabled(p, a) && q == Step(p, a, prio)
  }

  /** One set, numbered 1, and at most thread 0 busy. */
  function One(w: seq<bool>, live: set<(nat, nat)>, busy: map<Tid, Stage<nat>>): Pool<nat> {
    Pool([1], map[1 := w], map[1 := Kernel({}, [])], [], live, busy)
  }

  lemma FirstAlloc(prio: Tid -> nat)
    ensures Next(Initial([]), Alloc(1), One(Raised(NoBits(), 0), {(1, 0)}, map[]), prio)
  {
  }

  lemma NextAlloc(w: seq<bool>, live: set<(nat, nat)>, busy: map<Tid, Stage<nat>>, made: nat, b: nat, prio: Tid -> nat)
    requires b < |w| && !w[b] && made != 1 && forall i :: 0 <= i < b ==> w[i]
    ensures AllocSpec(One(w, live, busy), made) == (One(Raised(w, b), live + {(1, b)}, busy), (1, b))
    ensures Next(One(w, live, busy), Alloc(made), One(Raised(w, b), live + {(1, b)}, busy), prio)
  {
    var p := One(w, live, busy);
    assert !Full(p.bits[1]) && p.sets[0] == 1;
    assert FirstOpen(p.sets, p.bits, 0) == 0;
    assert LowestClear(w, 0) == b;
    assert p.bits[1 := Raised(w, b)] == map[1 := Raised(w, b)];
    hide Inv, Raised;
  }

  lemma NextLoad(w: seq<bool>, live: set<(nat, nat)>, busy: map<Tid, Stage<nat>>, t: Tid, b: nat, prio: Tid -> nat)
    requires (1, b) in live && t !in busy
    ensures Next(One(w, live, busy), Load(t, 1, b), One(w, live - {(1, b)}, busy[t := Loaded(1, b, w)]), prio)
  {
    hide Inv;
  }

  lemma NextStore(w: seq<bool>, live: set<(nat, nat)>, busy: map<Tid, Stage<nat>>, t: Tid, b: nat, word: seq<bool>,
                  prio: Tid -> nat)
    requires t in busy && busy[t] == Loaded(1, b, word)
    ensures Next(One(w, live, busy), Store(t), One(Reset(word, b), live, busy[t := Cleared(1)]), prio)
  {
    hide Inv, Reset;
  }

  lemma FirstLoad(w: seq<bool>, live: set<(nat, nat)>, b: nat, prio: Tid -> nat)
    requires (1, b) in live
    ensures Next(One(w, live, map[]), Load(0, 1, b), One(w, live - {(1, b)}, map[0 := Loaded(1, b, w)]), prio)
  {
    NextLoad(w, live, map[], 0, b, prio);
    assert map[][0 := Loaded(1, b, w)] == map[0 := Loaded(1, b, w)];
  }

  lemma FirstStore(w: seq<bool>, live: set<(nat, nat)>, b: nat, word: seq<bool>, prio: Tid -> nat)
    ensures Next(One(w, live, map[0 := Loaded(1, b, word)]), Store(0),
            One(Reset(word, b), live, map[0 := Cleared(1)]), prio)
  {
    NextStore(w, live, map[0 := Loaded(1, b, word)], 0, b, word, prio);
    assert map[0 := Loaded(1, b, word)][0 := Cleared(1)] == map[0 := Cleared(1)];
  }

  lemma NextTest(w: seq<bool>, live: set<(nat, nat)>, prio: Tid -> nat)
    requires None(w)
    ensures Next(One(w, live, map[0 := Cleared(1)]), Test(0), One(w, live, map[0 := Empty(1)]), prio)
  {
    hide Inv, None;
  }

  lemma NextDispose(w: seq<bool>, live: set<(nat, nat)>, prio: Tid -> nat)
    ensures Next(One(w, live, map[0 := Empty(1)]), Dispose(0), One(w, live, map[]).(sets := []), prio)
  {
    hide Inv;
    assert [1][1..] == [];
  }

  /** A run from the initial state that ends in `p`. */
  ghost predicate RunTo(ps: seq<Pool<nat>>, acts: seq<Action<nat>>, p: Pool<nat>, prio: Tid -> nat) {
    Run(ps, acts, [], prio) && ps[|acts|] == p
  }

  lemma Begin(prio: Tid -> nat) returns (ps: seq<Pool<nat>>, acts: seq<Action<nat>>)
    ensures RunTo(ps, acts, Initial([]), prio)
  {
    ps, acts := [Initial([])], [];
  }

  lemma Extend(ps: seq<Pool<nat>>, acts: seq<Action<nat>>, p: Pool<nat>, a: Action<nat>, q: Pool<nat>, prio: Tid -> nat)
    returns (ps': seq<Pool<nat>>, acts': seq<Action<nat>>)
    requires RunTo(ps, acts, p, prio) && Next(p, a, q, prio)
    ensures RunTo(ps', acts', q, prio) && acts' == acts + [a]
  {
    hide Inv, Step, Enabled;
    ps', acts' := ps + [q], acts + [a];
    forall k | 0 <= k < |acts| + 1 ensures Follows(ps', acts', prio, k) {
      if k < |acts| { assert Follows(ps, acts, prio, k); }
    }
  }

  lemma Words()
    ensures var none, one := NoBits(), Raised(NoBits(), 0);
            Reset(one, 0) == none && |none| == |one| == PackedSpec.N && !none[0] && None(none) && one[0] && !one[1]
  {
  }

  /** A run in which a set is disposed of although an event in it has been handed out since it was found
      empty: the event lives and its set is on no list. */
  lemma DroppedWhileLive(prio: Tid -> nat) returns (ps: seq<Pool<nat>>, acts: seq<Action<nat>>, p: Pool<nat>)
    ensures RunTo(ps, acts, p, prio) && |acts| > 0 && acts[|acts| - 1] == Dispose(0)
    ensures p.sets == [] && p.live == {(1, 0)}
  {
    var none: seq<bool>, one: seq<bool> := NoBits(), Raised(NoBits(), 0);
    var e: set<(nat, nat)>, no: set<(nat, nat)> := {(1, 0)}, {};
    Words();
    assert e - {(1, 0)} == no && no + {(1, 0)} == e;
    var p1, p2 := One(one, e, map[]), One(one, no, map[0 := Loaded(1, 0, one)]);
    var p3, p4 := One(none, no, map[0 := Cleared(1)]), One(none, no, map[0 := Empty(1)]);
    var p5 := One(one, e, map[0 := Empty(1)]);
    p := One(one, e, map[]).(sets := []);
    FirstAlloc(prio);
    FirstLoad(one, e, 0, prio);
    FirstStore(one, no, 0, one, prio);
    NextTest(none, no, prio);
    NextAlloc(none, no, map[0 := Empty(1)], 2, 0, prio);
    NextDispose(one, e, prio);
    hide *;
    ps, acts := Begin(prio);
    ps, acts := Extend(ps, acts, Initial([]), Alloc(1), p1, prio);
    ps, acts := Extend(ps, acts, p1, Load(0, 1, 0), p2, prio);
    ps, acts := Extend(ps, acts, p2, Store(0), p3, prio);
    ps, acts := Extend(ps, acts, p3, Test(0), p4, prio);
    ps, acts := Extend(ps, acts, p4, Alloc(2), p5, prio);
    ps, acts := Extend(ps, acts, p5, Dispose(0), p, prio);
  }

  /** A run in which a bit that is set between the reading and the writing of the word is lost: the next
      event that is handed out is one that lives. */
  lemma LostUpdate(prio: Tid -> nat) returns (ps: seq<Pool<nat>>, acts: seq<Action<nat>>, p: Pool<nat>)
    ensures RunTo(ps, acts, p, prio) && Store(0) in acts
    ensures p.sets == [1] && 1 in p.bits && (1, 1) in p.live && AllocSpec(p, 4).1 == (1, 1)
  {
    var none: seq<bool>, one: seq<bool> := NoBits(), Raised(NoBits(), 0);
    var two: seq<bool> := Raised(one, 1);
    var e: set<(nat, nat)>, f: set<(nat, nat)>, no: set<(nat, nat)> := {(1, 0)}, {(1, 1)}, {};
    Words();
    assert e - {(1, 0)} == no && no + {(1, 1)} == f;
    var p1, p2 := One(one, e, map[]), One(one, no, map[0 := Loaded(1, 0, one)]);
    var p3, p4 := One(two, f, map[0 := Loaded(1, 0, one)]), One(none, f, map[0 := Cleared(1)]);
    p := One(one, f + {(1, 0)}, map[0 := Cleared(1)]);
    FirstAlloc(prio);
    FirstLoad(one, e, 0, prio);
    NextAlloc(one, no, map[0 := Loaded(1, 0, one)], 2, 1, prio);
    FirstStore(two, f, 0, one, prio);
    NextAlloc(none, f, map[0 := Cleared(1)], 3, 0, prio);
    NextAlloc(one, f + {(1, 0)}, map[0 := Cleared(1)], 4, 1, prio);
    hide *;
    ps, acts := Begin(prio);
    ps, acts := Extend(ps, acts, Initial([]), Alloc(1), p1, prio);
    ps, acts := Extend(ps, acts, p1, Load(0, 1, 0), p2, prio);
    ps, acts := Extend(ps, acts, p2, Alloc(2), p3, prio);
    ps, acts := Extend(ps, acts, p3, Store(0), p4, prio);
    ps, acts := Extend(ps, acts, p4, Alloc(3), p, prio);
  }

  /** A run in which a word is written back that is out of date, and no harm is done but that a bit is set
      that no event owns. */
  lemma OwnerlessBit(prio: Tid -> nat) returns (ps: seq<Pool<nat>>, acts: seq<Action<nat>>, p: Pool<nat>)
    ensures RunTo(ps, acts, p, prio) && Kept(p) && !Owned(p) && p.live == {}
  {
    var one: seq<bool> := Raised(NoBits(), 0);
    var two: seq<bool> := Raised(one, 1);
    var e: set<(nat, nat)>, f: set<(nat, nat)> := {(1, 0)}, {(1, 0), (1, 1)};
    var g: set<(nat, nat)>, no: set<(nat, nat)> := {(1, 1)}, {};
    Words();
    assert e + {(1, 1)} == f && f - {(1, 0)} == g && g - {(1, 1)} == no;
    var b1: map<Tid, Stage<nat>> := map[0 := Loaded(1, 0, two)];
    var b2: map<Tid, Stage<nat>> := b1[5 := Loaded(1, 1, two)];
    var b3: map<Tid, Stage<nat>> := b2[0 := Cleared(1)];
    var b4: map<Tid, Stage<nat>> := b3[5 := Cleared(1)];
    var p1, p2, p3 := One(one, e, map[]), One(two, f, map[]), One(two, g, b1);
    var p4, p5 := One(two, no, b2), One(Reset(two, 0), no, b3);
    p := One(Reset(two, 1), no, b4);
    NobodyOwns(two, no, b4);
    FirstAlloc(prio);
    NextAlloc(one, e, map[], 2, 1, prio);
    FirstLoad(two, f, 0, prio);
    NextLoad(two, g, b1, 5, 1, prio);
    NextStore(two, no, b2, 0, 0, two, prio);
    NextStore(Reset(two, 0), no, b3, 5, 1, two, prio);
    hide *;
    ps, acts := Begin(prio);
    ps, acts := Extend(ps, acts, Initial([]), Alloc(1), p1, prio);
    ps, acts := Extend(ps, acts, p1, Alloc(2), p2, prio);
    ps, acts := Extend(ps, acts, p2, Load(0, 1, 0), p3, prio);
    ps, acts := Extend(ps, acts, p3, Load(5, 1, 1), p4, prio);
    ps, acts := Extend(ps, acts, p4, Store(0), p5, prio);
    ps, acts := Extend(ps, acts, p5, Store(5), p, prio);
  }

  lemma NobodyOwns(w: seq<bool>, live: set<(nat, nat)>, busy: map<Tid, Stage<nat>>)
    requires |w| > 1 && w[0] && live == {} && forall t :: t in busy ==> busy[t].Cleared?
    ensures var p := One(Reset(w, 1), live, busy); Kept(p) && !Owned(p) && p.live == {}
  {
    var p := One(Reset(w, 1), live, busy);
    assert p.bits[1][0] && !Pending(p, 1, 0);
  }
}
