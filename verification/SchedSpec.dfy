/** The scheduler of scheduler.c on one processor: ready lists by priority, a bitmap of the lists that
    hold a thread, the running thread, and the lock nesting.  A smaller number is a higher priority. */
module SchedSpec {
  import opened Lists
  import opened IpcList

  datatype Stat = Init | Ready | Suspended | Running

  /** The fields current_priority and stat of a thread; `yielding` is RT_THREAD_STAT_YIELD. */
  datatype Thread = Thread(prio: nat, stat: Stat, yielding: bool)

  datatype State = State(
    ready: seq<seq<Tid>>,    // rt_thread_priority_table
    group: seq<bool>,        // rt_thread_ready_priority_group
    current: Tid,
    lock: int,
    threads: seq<Thread>)

  /** __rt_ffs: one more than the number of the lowest bit that is set, 0 when there is none. */
  function Ffs(bits: seq<bool>): (n: nat)
    ensures n <= |bits|
    ensures n == 0 <==> forall i :: 0 <= i < |bits| ==> !bits[i]
    ensures n > 0 ==> bits[n - 1] && forall i :: 0 <= i < n - 1 ==> !bits[i]
  {
    if bits == [] then 0 else if bits[0] then 1 else
      var n := Ffs(bits[1..]);
      if n == 0 then 0 else n + 1
  }

  /** What every operation relies on for its accesses. */
  predicate Sized(s: State) {
    && |s.ready| == PRIORITY_MAX && |s.group| == PRIORITY_MAX && s.current < |s.threads|
    && forall t :: 0 <= t < |s.threads| ==> s.threads[t].prio < PRIORITY_MAX
  }

  /** rt_schedule_insert_thread */
  function InsertThread(s: State, t: Tid): State
    requires Sized(s) && t < |s.threads|
  {
    var th := s.threads[t];
    if t == s.current then s.(threads := s.threads[t := th.(stat := Running)])
    else s.(threads := s.threads[t := th.(stat := Ready)],
            ready := s.ready[th.prio := s.ready[th.prio] + [t]],
            group := s.group[th.prio := true])
  }

  /** rt_schedule_remove_thread */
  function RemoveThread(s: State, t: Tid): State
    requires Sized(s) && t < |s.threads|
  {
    var p := s.threads[t].prio;
    var l := Without(s.ready[p], t);
    s.(ready := s.ready[p := l], group := if l == [] then s.group[p := false] else s.group)
  }

  /** Whether rt_schedule leaves the processor to the running thread when `best` is the best priority
      on the ready lists. */
  predicate Stays(th: Thread, best: nat) {
    th.stat == Running && (th.prio < best || (th.prio == best && !th.yielding))
  }

  /** rt_schedule */
  function Schedule(s: State): State
    requires Inv(s)
  {
    if s.lock != 0 || Ffs(s.group) == 0 then s
    else
      var best := Ffs(s.group) - 1;
      GroupLists(s, best);
      var to := s.ready[best][0];
      var from := s.threads[s.current];
      var s1 := if from.stat == Running then s.(threads := s.threads[s.current := from.(yielding := false)]) else s;
      if Stays(from, best) then Dispatch(s1, s.current) else SwitchTo(s1, to, from.stat == Running)
  }

  /** The switch to another thread; the old one is put back if it is still running. */
  function SwitchTo(s: State, to: Tid, insert: bool): State
    requires Sized(s) && to < |s.threads|
  {
    var s2 := s.(current := to);
    Dispatch(if insert then InsertThread(s2, s.current) else s2, to)
  }

  /** The thread that is to run leaves the ready lists. */
  function Dispatch(s: State, t: Tid): State
    requires Sized(s) && t < |s.threads|
  {
    var r := RemoveThread(s, t);
    r.(threads := r.threads[t := r.threads[t].(stat := Running)])
  }

  /** rt_thread_yield */
  function Yield(s: State): State
    requires Inv(s)
  {
    YieldMark(s);
    Schedule(Marked(s))
  }

  function Marked(s: State): State
    requires s.current < |s.threads|
  {
    s.(threads := s.threads[s.current := s.threads[s.current].(yielding := true)])
  }

  /** rt_thread_suspend; a thread that is neither ready nor running is refused. */
  function SuspendThread(s: State, t: Tid): (State, bool)
    requires Sized(s) && t < |s.threads|
  {
    if s.threads[t].stat != Ready && s.threads[t].stat != Running then (s, false)
    else
      var r := RemoveThread(s, t);
      (r.(threads := r.threads[t := r.threads[t].(stat := Suspended)]), true)
  }

  /** rt_thread_resume; a thread that is not suspended is refused. */
  function ResumeThread(s: State, t: Tid): (State, bool)
    requires Sized(s) && t < |s.threads|
  {
    if s.threads[t].stat != Suspended then (s, false) else (InsertThread(s, t), true)
  }

  /** rt_thread_control with RT_THREAD_CTRL_CHANGE_PRIORITY */
  function ChangePriority(s: State, t: Tid, p: nat): State
    requires Sized(s) && t < |s.threads| && p < PRIORITY_MAX
  {
    if s.threads[t].stat == Ready then
      var r := RemoveThread(s, t);
      InsertThread(r.(threads := r.threads[t := r.threads[t].(prio := p)]), t)
    else s.(threads := s.threads[t := s.threads[t].(prio := p)])
  }

  /** rt_thread_startup of a thread that is not running yet, up to its scheduling. */
  function Startup(s: State, t: Tid, p: nat): State
    requires Sized(s) && t < |s.threads| && p < PRIORITY_MAX
  {
    InsertThread(s.(threads := s.threads[t := Thread(p, Suspended, false)]), t)
  }

  function EnterCritical(s: State): State {
    s.(lock := s.lock + 1)
  }

  /** rt_exit_critical; leaving more often than entering leaves the scheduler unlocked. */
  function ExitCritical(s: State): State
    requires Inv(s)
  {
    if s.lock - 1 <= 0 then (UnlockInv(s); Schedule(s.(lock := 0))) else s.(lock := s.lock - 1)
  }

  /** After rt_system_scheduler_init and rt_system_scheduler_start with one thread started: it runs, and
      all others are still to be started. */
  function Fresh(n: nat, first: Tid, prios: seq<nat>): State
    requires |prios| == n && first < n
  {
    State(seq(PRIORITY_MAX, _ => []), seq(PRIORITY_MAX, _ => false), first, 0,
          seq(n, t requires 0 <= t < n => Thread(prios[t], if t == first then Running else Init, false)))
  }

  lemma FreshInv(n: nat, first: Tid, prios: seq<nat>)
    requires |prios| == n && first < n && forall t :: 0 <= t < n ==> prios[t] < PRIORITY_MAX
    ensures Inv(Fresh(n, first, prios)) && Best(Fresh(n, first, prios))
  {
    var s := Fresh(n, first, prios);
    forall t | 0 <= t < n ensures Placed(s, t) {}
  }

  // ---------- the invariant ----------

  predicate Inv(s: State) {
    && Sized(s) && s.lock >= 0
    && (forall p :: 0 <= p < PRIORITY_MAX ==> OneList(s.ready[p], s.group[p], p, s.threads))
    && (forall t :: 0 <= t < |s.threads| ==> Placed(s, t))
  }

  /** A ready list holds ready threads of its priority, each once, and its bit says whether any. */
  predicate OneList(l: seq<Tid>, bit: bool, p: nat, threads: seq<Thread>) {
    && Distinct(l)
    && (bit <==> l != [])
    && forall t :: t in l ==> t < |threads| && threads[t].prio == p && threads[t].stat == Ready
  }

  /** A ready thread is on its list; only the current thread can be running, and it is not ready. */
  predicate Placed(s: State, t: Tid)
    requires Sized(s) && t < |s.threads|
  {
    && (s.threads[t].stat == Ready ==> t in s.ready[s.threads[t].prio] && t != s.current)
    && (s.threads[t].stat == Running ==> t == s.current)
    && (s.threads[t].stat == Init ==> t != s.current)
  }

  lemma UnlockInv(s: State)
    requires Inv(s)
    ensures Inv(s.(lock := 0))
  {
    forall t | 0 <= t < |s.threads| ensures Placed(s.(lock := 0), t) {
      assert Placed(s, t);
    }
  }

  lemma YieldMark(s: State)
    requires Inv(s)
    ensures Inv(Marked(s))
  {
    var d := Marked(s);
    forall p | 0 <= p < PRIORITY_MAX ensures OneList(d.ready[p], d.group[p], p, d.threads) {
      assert OneList(s.ready[p], s.group[p], p, s.threads);
    }
    forall t | 0 <= t < |d.threads| ensures Placed(d, t) {
      assert Placed(s, t);
    }
  }

  /** Updating one thread that is on no list, without making it ready, keeps the lists. */
  lemma UpdateInv(s: State, t: Tid, th: Thread)
    requires Inv(s) && t < |s.threads| && s.threads[t].stat != Ready && th.stat != Ready && th.prio < PRIORITY_MAX
    requires (th.stat == Running ==> t == s.current) && (th.stat == Init ==> t != s.current)
    ensures Inv(s.(threads := s.threads[t := th]))
  {
    var d := s.(threads := s.threads[t := th]);
    forall p | 0 <= p < PRIORITY_MAX ensures OneList(d.ready[p], d.group[p], p, d.threads) {
      assert OneList(s.ready[p], s.group[p], p, s.threads);
    }
    forall u | 0 <= u < |d.threads| ensures Placed(d, u) {
      assert Placed(s, u);
    }
  }

  /** A thread on no list goes to the end of its list, or runs on if it is the current one. */
  lemma InsertInv(s: State, t: Tid)
    requires Inv(s) && t < |s.threads| && s.threads[t].stat != Ready
    ensures Inv(InsertThread(s, t))
  {
    if t == s.current {
      UpdateInv(s, t, s.threads[t].(stat := Running));
    } else {
      var d := InsertThread(s, t);
      var q := s.threads[t].prio;
      forall p | 0 <= p < PRIORITY_MAX ensures OneList(d.ready[p], d.group[p], p, d.threads) {
        assert OneList(s.ready[p], s.group[p], p, s.threads);
      }
      assert t in d.ready[q];
      forall u | 0 <= u < |d.threads| ensures Placed(d, u) {
        assert Placed(s, u);
      }
    }
  }

  /** A ready thread leaves its list for another state. */
  lemma LeaveInv(s: State, t: Tid, th: Thread)
    requires Inv(s) && t < |s.threads| && s.threads[t].stat == Ready && th.stat == Suspended && th.prio < PRIORITY_MAX
    ensures var r := RemoveThread(s, t); Inv(r.(threads := r.threads[t := th]))
  {
    var r := RemoveThread(s, t);
    var d := r.(threads := r.threads[t := th]);
    var q := s.threads[t].prio;
    assert Placed(s, t) && OneList(s.ready[q], s.group[q], q, s.threads);
    RemoveKeeps(s.ready[q], t);
    forall p | 0 <= p < PRIORITY_MAX ensures OneList(d.ready[p], d.group[p], p, d.threads) {
      assert OneList(s.ready[p], s.group[p], p, s.threads);
    }
    forall u | 0 <= u < |d.threads| ensures Placed(d, u) {
      assert Placed(s, u);
    }
  }

  /** Removing a thread that is on no list changes nothing. */
  lemma RemoveAbsent(s: State, t: Tid)
    requires Inv(s) && t < |s.threads| && s.threads[t].stat != Ready
    ensures RemoveThread(s, t) == s
  {
    var p := s.threads[t].prio;
    assert OneList(s.ready[p], s.group[p], p, s.threads);
    RemoveNothing(s.ready[p], t);
    if s.ready[p] == [] { assert s.group[p := false] == s.group; }
    assert s.ready[p := s.ready[p]] == s.ready;
  }

  lemma {:induction false} RemoveNothing(l: seq<Tid>, t: Tid)
    requires t !in l
    ensures Without(l, t) == l
  {
    if l != [] {
      assert l[0] in l;
      RemoveNothing(l[1..], t);
    }
  }

  lemma GroupLists(s: State, p: nat)
    requires Inv(s) && p < PRIORITY_MAX
    ensures s.group[p] <==> s.ready[p] != []
    ensures s.group[p] ==> Head(s, p)
  {
    assert OneList(s.ready[p], s.group[p], p, s.threads);
    assert s.ready[p] != [] ==> s.ready[p][0] in s.ready[p];
  }

  /** The first thread of list `p` is there and ready. */
  predicate Head(s: State, p: nat)
    requires Sized(s)
  {
    p < PRIORITY_MAX && s.ready[p] != [] && s.ready[p][0] < |s.threads| && s.threads[s.ready[p][0]].stat == Ready
    && s.threads[s.ready[p][0]].prio == p
  }

  /** The bitmap lookup of _get_highest_priority_thread finds the best priority on the ready lists,
      and finds none exactly when no thread is ready. */
  lemma LookupIsBest(s: State)
    requires Inv(s)
    ensures Ffs(s.group) == 0 <==> forall t :: 0 <= t < |s.threads| ==> s.threads[t].stat != Ready
    ensures Ffs(s.group) != 0 ==> Head(s, Ffs(s.group) - 1)
    ensures forall t :: 0 <= t < |s.threads| && s.threads[t].stat == Ready ==> Ffs(s.group) - 1 <= s.threads[t].prio
  {
    forall t | 0 <= t < |s.threads| && s.threads[t].stat == Ready ensures s.group[s.threads[t].prio] {
      assert Placed(s, t);
      GroupLists(s, s.threads[t].prio);
    }
    if Ffs(s.group) != 0 {
      GroupLists(s, Ffs(s.group) - 1);
      assert Ffs(s.group) - 1 < PRIORITY_MAX;
    }
  }

  // ---------- what rt_schedule does ----------

  /** The ready lists after a switch away from thread `c`: the best list loses its first thread, and
      `c`, if it is still running, goes to the end of its own list. */
  function Requeued(s: State, best: nat): seq<seq<Tid>>
    requires Sized(s) && best < PRIORITY_MAX && s.ready[best] != []
  {
    var l := s.ready[best := s.ready[best][1..]];
    var c := s.threads[s.current];
    if c.stat == Running then l[c.prio := l[c.prio] + [s.current]] else l
  }

  function Switched(s: State, best: nat): seq<Thread>
    requires Sized(s) && best < PRIORITY_MAX && s.ready[best] != [] && s.ready[best][0] < |s.threads|
  {
    var c, to := s.threads[s.current], s.ready[best][0];
    var l := if c.stat == Running then s.threads[s.current := Thread(c.prio, Ready, false)] else s.threads;
    l[to := l[to].(stat := Running)]
  }

  predicate MustSwitch(s: State)
    requires Inv(s)
  {
    s.lock == 0 && Ffs(s.group) != 0 && !Stays(s.threads[s.current], Ffs(s.group) - 1)
  }

  /** A switch in one piece. */
  lemma SwitchIs(s: State)
    requires Inv(s) && MustSwitch(s)
    ensures var best := Ffs(s.group) - 1; var d := Schedule(s);
            && Head(s, best) && s.ready[best][0] != s.current
            && d.ready == Requeued(s, best) && d.current == s.ready[best][0] && d.lock == 0
            && d.threads == Switched(s, best) && |d.group| == PRIORITY_MAX
            && forall p :: 0 <= p < PRIORITY_MAX ==> (d.group[p] <==> d.ready[p] != [])
  {
    ScheduleSwitches(s);
    AllGroups(s);
    var best := Ffs(s.group) - 1;
    UnmarkedSwitch(s, best);
    hide Schedule, Ffs, Without, SwitchTo, OneList, Inv, Placed, MustSwitch, Unmarked, Switched, Requeued;
    SwitchToIs(Unmarked(s), s.ready[best][0], best, s.threads[s.current].stat == Running);
  }

  lemma AllGroups(s: State)
    requires Inv(s)
    ensures forall p :: 0 <= p < PRIORITY_MAX ==> (s.group[p] <==> s.ready[p] != [])
  {
    forall p | 0 <= p < PRIORITY_MAX ensures s.group[p] <==> s.ready[p] != [] {
      GroupLists(s, p);
    }
  }

  lemma UnmarkedSwitch(s: State, best: nat)
    requires Sized(s) && Head(s, best)
    ensures var m, c := Unmarked(s), s.current;
            var run, l := s.threads[c].stat == Running, s.ready[best := s.ready[best][1..]];
            var th := if run then m.threads[c := m.threads[c].(stat := Ready)] else m.threads;
            && m.ready == s.ready && m.group == s.group && m.current == c && m.lock == s.lock
               && |m.threads| == |s.threads|
            && th[s.ready[best][0] := th[s.ready[best][0]].(stat := Running)] == Switched(s, best)
            && m.threads[c].prio == s.threads[c].prio
            && Requeued(s, best) == if run then l[s.threads[c].prio := l[s.threads[c].prio] + [c]] else l
  {
    var c := s.current;
    var from := s.threads[c];
    assert from.stat == Running ==>
             Unmarked(s).threads[c := Thread(from.prio, Ready, false)] ==
             s.threads[c := Thread(from.prio, Ready, false)];
  }

  /** The mark of a yield is taken from a running thread. */
  function Unmarked(s: State): State
    requires s.current < |s.threads|
  {
    var from := s.threads[s.current];
    if from.stat == Running then s.(threads := s.threads[s.current := from.(yielding := false)]) else s
  }

  lemma ScheduleSwitches(s: State)
    requires Inv(s) && MustSwitch(s)
    ensures var best := Ffs(s.group) - 1;
            && Sized(Unmarked(s)) && Head(s, best) && Head(Unmarked(s), best) && s.ready[best][0] != s.current
            && Schedule(s) == SwitchTo(Unmarked(s), s.ready[best][0], s.threads[s.current].stat == Running)
  {
    LookupIsBest(s);
    var best := Ffs(s.group) - 1;
    assert Placed(s, s.ready[best][0]) && Placed(s, s.current);
    hide SwitchTo, Ffs;
  }

  lemma SwitchToIs(s: State, to: Tid, best: nat, insert: bool)
    requires Sized(s) && best < PRIORITY_MAX && Head(s, best) && s.ready[best][0] == to && to != s.current
    requires forall p :: 0 <= p < PRIORITY_MAX ==> (s.group[p] <==> s.ready[p] != [])
    ensures var d := SwitchTo(s, to, insert);
            var c := s.threads[s.current];
            var l := s.ready[best := s.ready[best][1..]];
            var th := if insert then s.threads[s.current := c.(stat := Ready)] else s.threads;
            && d.ready == (if insert then l[c.prio := l[c.prio] + [s.current]] else l)
            && d.threads == th[to := th[to].(stat := Running)]
            && d.current == to && d.lock == s.lock && |d.group| == PRIORITY_MAX
            && forall p :: 0 <= p < PRIORITY_MAX ==> (d.group[p] <==> d.ready[p] != [])
  {
    hide Without;
    var l, c := s.ready[best], s.current;
    RemoveHead(l);
    RemoveHead(l + [c]);
    assert (l + [c])[1..] == l[1..] + [c];
    var d := SwitchTo(s, to, insert);
    var m := s.ready[best := l[1..]];
    var p := s.threads[c].prio;
    assert d.ready == if insert then m[p := m[p] + [c]] else m;
  }

  lemma RemoveHead(l: seq<Tid>)
    requires l != []
    ensures Without(l, l[0]) == l[1..]
  {
  }

  lemma SwitchSized(s: State)
    requires Inv(s) && MustSwitch(s)
    ensures Sized(Schedule(s)) && |Schedule(s).threads| == |s.threads|
  {
    SwitchIs(s);
    hide Schedule, Ffs, Stays, MustSwitch, OneList, Placed;
  }

  lemma SwitchLists(s: State, p: nat)
    requires Inv(s) && MustSwitch(s) && p < PRIORITY_MAX
    ensures var d := Schedule(s); Sized(d) && OneList(d.ready[p], d.group[p], p, d.threads)
  {
    SwitchIs(s);
    SwitchSized(s);
    assert Placed(s, s.current);
    assert OneList(s.ready[p], s.group[p], p, s.threads);
    assert s.current !in s.ready[p];
    hide Schedule, Ffs, Stays, Inv, MustSwitch, Placed, OneList, Sized;
    var best, d := Ffs(s.group) - 1, Schedule(s);
    var to, c := s.ready[best][0], s.threads[s.current];
    SwitchList(s.ready[p], s.group[p], p, s.threads, s.current, to, p == best, c.stat == Running && c.prio == p);
  }

  /** One list across a switch from thread `c` to thread `to`. */
  lemma SwitchList(l: seq<Tid>, bit: bool, p: nat, threads: seq<Thread>, c: Tid, to: Tid, first: bool, last: bool)
    requires OneList(l, bit, p, threads) && c < |threads| && to < |threads| && c != to && c !in l
    requires if first then l != [] && l[0] == to else threads[to].prio != p
    requires last <==> threads[c].stat == Running && threads[c].prio == p
    ensures var l' := if first then l[1..] else l;
            var l'' := if last then l' + [c] else l';
            var th := if threads[c].stat == Running then threads[c := Thread(threads[c].prio, Ready, false)]
                else threads;
            OneList(l'', l'' != [], p, th[to := th[to].(stat := Running)])
  {
    if first { TailIs(l); }
    var l' := if first then l[1..] else l;
    assert to !in l' && c !in l';
  }

  lemma SwitchPlaces(s: State, t: Tid)
    requires Inv(s) && MustSwitch(s) && t < |s.threads|
    ensures Sized(Schedule(s)) && t < |Schedule(s).threads| && Placed(Schedule(s), t)
  {
    SwitchIs(s);
    SwitchLists(s, 0);
    assert Placed(s, s.current) && Placed(s, t);
    var best := Ffs(s.group) - 1;
    hide Schedule, Ffs, Stays, Inv, MustSwitch, OneList, Sized;
    var d := Schedule(s);
    var p := s.threads[t].prio;
    if t == s.current {
      assert d.threads[t].stat == Ready ==> d.ready[p][|d.ready[p]| - 1] == t;
    } else if s.threads[t].stat == Ready {
      TailHas(s.ready[p], t);
    }
  }

  lemma SwitchInv(s: State)
    requires Inv(s) && MustSwitch(s)
    ensures Inv(Schedule(s))
  {
    SwitchIs(s);
    SwitchLists(s, 0);
    hide Schedule, Ffs, Stays, MustSwitch, OneList, Placed;
    forall p | 0 <= p < PRIORITY_MAX
      ensures OneList(Schedule(s).ready[p], Schedule(s).group[p], p, Schedule(s).threads)
    {
      SwitchLists(s, p);
    }
    forall t | 0 <= t < |s.threads| ensures Placed(Schedule(s), t) {
      SwitchPlaces(s, t);
    }
  }

  lemma TailHas(l: seq<Tid>, t: Tid)
    requires t in l
    ensures l[0] == t || t in l[1..]
  {
    assert l == [l[0]] + l[1..];
  }

  /** Without a switch only a pending request to yield is dropped. */
  lemma StayIs(s: State)
    requires Inv(s) && !MustSwitch(s)
    ensures Schedule(s) == if s.lock != 0 || Ffs(s.group) == 0 then s
                           else s.(threads := s.threads[s.current := s.threads[s.current].(yielding := false)])
    ensures Inv(Schedule(s))
  {
    if s.lock == 0 && Ffs(s.group) != 0 {
      var th := s.threads[s.current].(yielding := false);
      UpdateInv(s, s.current, th);
      RemoveAbsent(s.(threads := s.threads[s.current := th]), s.current);
    }
  }

  lemma ScheduleInv(s: State)
    requires Inv(s)
    ensures Inv(Schedule(s))
  {
    if MustSwitch(s) { SwitchInv(s); } else { StayIs(s); }
  }

  /** No ready thread outranks the running one, and the current thread does run unless nobody can. */
  ghost predicate Best(s: State) {
    && s.current < |s.threads|
    && (s.threads[s.current].stat == Running || forall t :: 0 <= t < |s.threads| ==> s.threads[t].stat != Ready)
    && forall t :: 0 <= t < |s.threads| && s.threads[t].stat == Ready ==> s.threads[s.current].prio <= s.threads[t].prio
  }

  /** After rt_schedule with the scheduler unlocked, no ready thread outranks the running one.  The
      thread that runs is the old one if it still can and nobody better is ready, nor an equal one when
      it has yielded; otherwise it is the one that has been ready longest at the best priority. */
  lemma ScheduleBest(s: State)
    requires Inv(s) && s.lock == 0
    ensures Inv(Schedule(s)) && Best(Schedule(s))
    ensures Schedule(s).current == if MustSwitch(s) then s.ready[Ffs(s.group) - 1][0] else s.current
  {
    ScheduleInv(s);
    LookupIsBest(s);
    if MustSwitch(s) {
      SwitchIs(s);
      hide Schedule, Ffs, Without, Requeued;
      forall t | 0 <= t < |s.threads| && Schedule(s).threads[t].stat == Ready
        ensures Ffs(s.group) - 1 <= Schedule(s).threads[t].prio
      {
        if t != s.current { assert s.threads[t].stat == Ready; }
      }
    } else {
      StayIs(s);
      hide Schedule, Ffs, Without;
    }
  }
}
