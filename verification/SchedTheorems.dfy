/** What the scheduler keeps in every run, and how threads of one priority share the processor. */
module SchedTheorems {
  import opened Arith
  import opened Lists
  import opened IpcList
  import opened SchedSpec

  lemma SuspendInv(s: State, t: Tid)
    requires Inv(s) && t < |s.threads|
    ensures var (d, ok) := SuspendThread(s, t);
            && Inv(d) && (ok <==> s.threads[t].stat == Ready || s.threads[t].stat == Running)
            && (ok ==> d.threads == s.threads[t := s.threads[t].(stat := Suspended)])
  {
    var th := s.threads[t].(stat := Suspended);
    if s.threads[t].stat == Ready {
      RemoveSame(s, t);
      LeaveInv(s, t, th);
    } else if s.threads[t].stat == Running {
      RemoveAbsent(s, t);
      UpdateInv(s, t, th);
    }
  }

  lemma RemoveSame(s: State, t: Tid)
    requires Sized(s) && t < |s.threads|
    ensures RemoveThread(s, t).threads == s.threads && RemoveThread(s, t).current == s.current
  {
  }

  lemma ResumeInv(s: State, t: Tid)
    requires Inv(s) && t < |s.threads|
    ensures var (d, ok) := ResumeThread(s, t);
            && Inv(d) && (ok <==> s.threads[t].stat == Suspended)
            && (ok && t == s.current ==> d.threads[t].stat == Running && d.ready == s.ready)
            && (ok && t != s.current ==>
                  d.threads[t].stat == Ready && d.ready[s.threads[t].prio] == s.ready[s.threads[t].prio] + [t])
  {
    if s.threads[t].stat == Suspended { InsertInv(s, t); }
  }

  lemma StartupInv(s: State, t: Tid, p: nat)
    requires Inv(s) && t < |s.threads| && p < PRIORITY_MAX && s.threads[t].stat == Init
    ensures Inv(Startup(s, t, p))
  {
    UpdateInv(s, t, Thread(p, Suspended, false));
    InsertInv(s.(threads := s.threads[t := Thread(p, Suspended, false)]), t);
  }

  /** A ready thread whose priority changes moves to the end of its new list. */
  lemma ChangePriorityInv(s: State, t: Tid, p: nat)
    requires Inv(s) && t < |s.threads| && p < PRIORITY_MAX
    ensures var d := ChangePriority(s, t, p);
            && Inv(d) && d.threads == s.threads[t := s.threads[t].(prio := p)]
            && (s.threads[t].stat == Ready ==> d.ready[p] != [] && d.ready[p][|d.ready[p]| - 1] == t)
  {
    var th := s.threads[t];
    assert Placed(s, t);
    if th.stat == Ready {
      LeaveInv(s, t, th.(prio := p, stat := Suspended));
      var r := RemoveThread(s, t);
      var m := r.(threads := r.threads[t := th.(prio := p, stat := Suspended)]);
      InsertInv(m, t);
      hide Inv, Placed, RemoveThread;
      assert r.threads == s.threads && r.current == s.current by { RemoveSame(s, t); }
      assert m.threads[t := th.(prio := p)] == r.threads[t := th.(prio := p)];
      assert InsertThread(m, t) == ChangePriority(s, t, p);
    } else {
      UpdateInv(s, t, th.(prio := p));
    }
  }

  // ---------- runs ----------

  datatype Action =
    | Reschedule
    | YieldNow
    | Suspend(t: Tid)
    | Resume(t: Tid)
    | Start(t: Tid, p: nat)
    | SetPriority(t: Tid, p: nat)
    | Enter
    | Exit

  predicate Enabled(s: State, a: Action) {
    match a
    case Suspend(t) => t < |s.threads|
    case Resume(t) => t < |s.threads|
    case Start(t, p) => t < |s.threads| && p < PRIORITY_MAX && s.threads[t].stat == Init
    case SetPriority(t, p) => t < |s.threads| && p < PRIORITY_MAX
    case _ => true
  }

  function Step(s: State, a: Action): State
    requires Inv(s) && Enabled(s, a)
  {
    match a
    case Reschedule => Schedule(s)
    case YieldNow => Yield(s)
    case Suspend(t) => SuspendThread(s, t).0
    case Resume(t) => ResumeThread(s, t).0
    case Start(t, p) => Startup(s, t, p)
    case SetPriority(t, p) => ChangePriority(s, t, p)
    case Enter => EnterCritical(s)
    case Exit => ExitCritical(s)
  }

  lemma StepInv(s: State, a: Action)
    requires Inv(s) && Enabled(s, a)
    ensures Inv(Step(s, a))
  {
    match a
    case Reschedule => ScheduleInv(s);
    case YieldNow => YieldMark(s); ScheduleInv(Marked(s));
    case Suspend(t) => SuspendInv(s, t);
    case Resume(t) => ResumeInv(s, t);
    case Start(t, p) => StartupInv(s, t, p);
    case SetPriority(t, p) => ChangePriorityInv(s, t, p);
    case Enter => LockInv(s, s.lock + 1);
    case Exit =>
      if s.lock - 1 <= 0 { UnlockInv(s); ScheduleInv(s.(lock := 0)); } else { LockInv(s, s.lock - 1); }
  }

  lemma LockInv(s: State, lock: nat)
    requires Inv(s)
    ensures Inv(s.(lock := lock))
  {
    forall t | 0 <= t < |s.threads| ensures Placed(s.(lock := lock), t) {
      assert Placed(s, t);
    }
  }

  ghost predicate Run(ss: seq<State>, acts: seq<Action>) {
    && |ss| == |acts| + 1 && Inv(ss[0])
    && forall k :: 0 <= k < |acts| ==> Follows(ss, acts, k)
  }

  ghost predicate Follows(ss: seq<State>, acts: seq<Action>, k: int)
    requires 0 <= k < |acts| && |ss| == |acts| + 1
  {
    Inv(ss[k]) ==> Enabled(ss[k], acts[k]) && ss[k + 1] == Step(ss[k], acts[k])
  }

  /** Which actions end in a scheduling with the scheduler unlocked. */
  predicate Settles(s: State, a: Action) {
    match a
    case Reschedule => s.lock == 0
    case YieldNow => s.lock == 0
    case Exit => s.lock <= 1
    case _ => false
  }

  /** In every run the bitmap agrees with the ready lists, the running thread is on none of them, and
      whenever an unlocked scheduling has just happened no ready thread outranks the running one; while
      the scheduler is locked the current thread does not change. */
  lemma {:induction false} RunSafe(ss: seq<State>, acts: seq<Action>, k: nat)
    requires Run(ss, acts) && k <= |acts|
    ensures Inv(ss[k])
    ensures forall p, t :: 0 <= p < PRIORITY_MAX && t in ss[k].ready[p] ==> ss[k].group[p] && t != ss[k].current
    ensures k > 0 && Settles(ss[k - 1], acts[k - 1]) ==> Best(ss[k])
    ensures k > 0 && !Settles(ss[k - 1], acts[k - 1]) ==> ss[k].current == ss[k - 1].current
  {
    if k > 0 {
      RunSafe(ss, acts, k - 1);
      assert Follows(ss, acts, k - 1);
      StepInv(ss[k - 1], acts[k - 1]);
      StepSettles(ss[k - 1], acts[k - 1]);
    }
    forall p, t | 0 <= p < PRIORITY_MAX && t in ss[k].ready[p] ensures ss[k].group[p] && t != ss[k].current {
      OffLists(ss[k], p, t);
    }
  }

  lemma OffLists(s: State, p: nat, t: Tid)
    requires Inv(s) && p < PRIORITY_MAX && t in s.ready[p]
    ensures s.group[p] && t != s.current
  {
    assert OneList(s.ready[p], s.group[p], p, s.threads);
    assert Placed(s, s.current);
  }

  lemma StepSettles(s: State, a: Action)
    requires Inv(s) && Enabled(s, a)
    ensures if Settles(s, a) then Best(Step(s, a)) else Step(s, a).current == s.current
  {
    hide Ffs, Best, OneList, Placed;
    match a
    case Reschedule => if s.lock == 0 { ScheduleBest(s); }
    case YieldNow => YieldMark(s); if s.lock == 0 { ScheduleBest(Marked(s)); }
    case Exit => UnlockInv(s); if s.lock <= 1 { ScheduleBest(s.(lock := 0)); }
    case _ =>
  }

  // ---------- round robin ----------

  /** The running thread and, behind it, the ready threads of its priority. */
  function Cycle(s: State): seq<Tid>
    requires Inv(s)
  {
    [s.current] + s.ready[s.threads[s.current].prio]
  }

  /** The current thread runs, unlocked, and nobody ready outranks it. */
  predicate OnTop(s: State) {
    Inv(s) && s.lock == 0 && s.threads[s.current].stat == Running
    && forall p :: 0 <= p < s.threads[s.current].prio ==> !s.group[p]
  }

  function Rotated(c: seq<Tid>, n: nat): seq<Tid>
    requires n <= |c|
  {
    c[n..] + c[..n]
  }

  /** One yield moves the running thread behind the others of its priority. */
  lemma YieldRotates(s: State)
    requires OnTop(s)
    ensures OnTop(Yield(s)) && Cycle(Yield(s)) == Rotated(Cycle(s), 1)
  {
    var p := s.threads[s.current].prio;
    YieldMark(s);
    GroupLists(s, p);
    if s.ready[p] != [] { YieldToNext(s, p); } else { YieldAlone(s, p); }
  }

  lemma YieldToNext(s: State, p: nat)
    requires OnTop(s) && p == s.threads[s.current].prio && s.ready[p] != [] && s.group[p]
    ensures OnTop(Yield(s)) && Cycle(Yield(s)) == Rotated(Cycle(s), 1)
  {
    YieldMark(s);
    var m := Marked(s);
    ScheduleInv(m);
    GroupLists(s, p);
    FfsAt(m.group, p);
    SwitchIs(m);
    forall q | 0 <= q < p ensures s.ready[q] == [] { GroupLists(s, q); }
    hide Inv, Schedule, Ffs, Stays, MustSwitch;
    var d := Schedule(m);
    var l := s.ready[p];
    assert d.ready == s.ready[p := l[1..] + [s.current]];
    assert d.current == l[0] && d.threads[l[0]].prio == p;
    assert l == [l[0]] + l[1..] && (Cycle(s))[1..] == l;
  }

  lemma YieldAlone(s: State, p: nat)
    requires OnTop(s) && p == s.threads[s.current].prio && s.ready[p] == [] && !s.group[p]
    ensures OnTop(Yield(s)) && Cycle(Yield(s)) == Rotated(Cycle(s), 1)
  {
    YieldMark(s);
    StayIs(Marked(s));
    hide Inv, Schedule, Ffs, OneList, Placed;
  }

  function Yields(s: State, n: nat): (r: State)
    requires OnTop(s)
    ensures OnTop(r)
  {
    if n == 0 then s else
      var r := Yields(s, n - 1);
      YieldRotates(r);
      Yield(r)
  }

  /** k threads of one priority that only yield run in turn: after n yields the thread at place
      n mod k of the cycle runs, and the cycle has been rotated by that much. */
  lemma {:induction false} RoundRobin(s: State, n: nat)
    requires OnTop(s)
    ensures var c := Cycle(s);
            && Cycle(Yields(s, n)) == Rotated(c, n % |c|)
            && Yields(s, n).current == c[n % |c|]
  {
    hide Inv, OnTop, Yield, Cycle, Rotated;
    CycleHead(s);
    var c := Cycle(s);
    if n == 0 {
      NoTurn(c);
    } else {
      RoundRobin(s, n - 1);
      var r := Yields(s, n - 1);
      CycleHead(r);
      YieldRotates(r);
      NextTurn(c, n);
      RotateOnce(c, (n - 1) % |c|);
      CycleHead(Yield(r));
    }
  }

  lemma CycleHead(s: State)
    requires OnTop(s)
    ensures Inv(s) && Cycle(s) != [] && Cycle(s)[0] == s.current
  {
  }

  lemma NoTurn(c: seq<Tid>)
    requires c != []
    ensures 0 % |c| == 0 && Rotated(c, 0) == c
  {
  }

  lemma NextTurn(c: seq<Tid>, n: nat)
    requires n > 0 && c != []
    ensures n % |c| == if (n - 1) % |c| + 1 == |c| then 0 else (n - 1) % |c| + 1
  {
    var k := |c|;
    var q, r := (n - 1) / k, (n - 1) % k;
    assert n == q * k + (r + 1);
    if r + 1 == k {
      assert n == (q + 1) * k + 0;
      DivMod(n, k, q + 1, 0);
    } else {
      DivMod(n, k, q, r + 1);
    }
  }

  lemma RotateOnce(c: seq<Tid>, n: nat)
    requires n < |c|
    ensures Rotated(Rotated(c, n), 1) == Rotated(c, if n + 1 == |c| then 0 else n + 1)
    ensures Rotated(c, if n + 1 == |c| then 0 else n + 1)[0] == c[if n + 1 == |c| then 0 else n + 1]
  {
    var r := Rotated(c, n);
    assert r[0] == c[n] && r[1..] == c[n + 1..] + c[..n];
    assert c[..n + 1] == c[..n] + [c[n]];
    if n + 1 == |c| { assert c[n + 1..] == []; }
  }

  // ---------- a request to yield is not forgotten ----------

  /** A yield with nobody ready does nothing at once, but it is remembered: when a thread of the same
      priority becomes ready, the next scheduling switches to it, although without that yield the
      running thread would have gone on. */
  lemma YieldIsRemembered(s: State, t: Tid)
    requires OnTop(s) && Ffs(s.group) == 0 && !s.threads[s.current].yielding
    requires t < |s.threads| && s.threads[t].stat == Suspended && s.threads[t].prio == s.threads[s.current].prio
    ensures Yield(s).current == s.current
    ensures Inv(ResumeThread(Yield(s), t).0) && Schedule(ResumeThread(Yield(s), t).0).current == t
    ensures Inv(ResumeThread(s, t).0) && Schedule(ResumeThread(s, t).0).current == s.current
  {
    YieldMark(s);
    var p := s.threads[t].prio;
    GroupLists(s, p);
    StayIs(Marked(s));
    var y, z := ResumeThread(Yield(s), t).0, ResumeThread(s, t).0;
    ResumeInv(Yield(s), t);
    ResumeInv(s, t);
    assert s.ready[p] == [];
    assert Ffs(y.group) == p + 1 by { FfsAt(y.group, p); }
    assert Ffs(z.group) == p + 1 by { FfsAt(z.group, p); }
    ScheduleBest(y);
    ScheduleBest(z);
  }

  lemma FfsAt(g: seq<bool>, p: nat)
    requires p < |g| && g[p] && forall q :: 0 <= q < p ==> !g[q]
    ensures Ffs(g) == p + 1
  {
  }
}
