/** What nested critical sections do over whole runs of the scheduler. */
module SchedOutcomes {
  import opened Lists
  import opened IpcList
  import opened SchedSpec
  import opened SchedTheorems

  /** How many critical sections are open after the first `k` actions, when `open` were at the beginning: an exit
      closes the innermost one, and none when none is open. */
  function Depth(acts: seq<Action>, k: nat, open: int): int
    requires k <= |acts|
  {
    if k == 0 then open
    else
      var d := Depth(acts, k - 1, open);
      match acts[k - 1]
      case Enter => d + 1
      case Exit => if d > 0 then d - 1 else 0
      case _ => d
  }

  lemma ScheduleLock(s: State)
    requires Inv(s)
    ensures Schedule(s).lock == s.lock
  {
    if MustSwitch(s) { SwitchIs(s); } else { StayIs(s); }
    assert MustSwitch(s) ==> s.lock == 0;
    hide Schedule, OneList, Placed, MustSwitch, Ffs;
  }

  lemma StepLock(s: State, a: Action)
    requires Inv(s) && Enabled(s, a)
    ensures Step(s, a).lock == Depth([a], 1, s.lock)
  {
    YieldMark(s);
    UnlockInv(s);
    ScheduleLock(s);
    ScheduleLock(Marked(s));
    ScheduleLock(s.(lock := 0));
    assert Depth([a], 0, s.lock) == s.lock && [a][0] == a;
    hide Schedule, Ffs, OneList, Placed, Inv;
  }

  /** In every run the lock counts the open critical sections: each enter opens one, each exit closes one, and
      nothing else opens or closes any. */
  lemma {:induction false} RunDepth(ss: seq<State>, acts: seq<Action>, k: nat)
    requires Run(ss, acts) && k <= |acts|
    ensures ss[k].lock == Depth(acts, k, ss[0].lock)
  {
    if k > 0 {
      RunDepth(ss, acts, k - 1);
      RunSafe(ss, acts, k - 1);
      assert Follows(ss, acts, k - 1);
      StepLock(ss[k - 1], acts[k - 1]);
      assert Depth([acts[k - 1]], 0, ss[k - 1].lock) == ss[k - 1].lock;
      hide Step, Inv;
    }
  }

  /** A critical section is not left by a switch: from the enter to the exit that matches it, however many
      sections are opened and closed between, whoever is made ready, and however often the running thread yields,
      suspends itself or asks for a scheduling, the current thread stays the same. */
  lemma {:induction false} RunCritical(ss: seq<State>, acts: seq<Action>, j: nat, k: nat)
    requires Run(ss, acts) && j <= k <= |acts|
    requires forall u :: j <= u <= k ==> Depth(acts, u, ss[0].lock) > 0
    ensures ss[k].current == ss[j].current
    decreases k
  {
    if j < k {
      RunCritical(ss, acts, j, k - 1);
      RunDepth(ss, acts, k - 1);
      RunDepth(ss, acts, k);
      RunSafe(ss, acts, k);
      assert acts[k - 1].Exit? ==> Depth(acts, k, ss[0].lock) == Depth(acts, k - 1, ss[0].lock) - 1;
    }
  }

  /** The exit that closes the last section schedules: no ready thread outranks the one that then runs. */
  lemma LastExit(ss: seq<State>, acts: seq<Action>, k: nat)
    requires Run(ss, acts) && k < |acts| && acts[k] == Exit && Depth(acts, k, ss[0].lock) <= 1
    ensures ss[k + 1].lock == 0 && Best(ss[k + 1])
  {
    RunDepth(ss, acts, k);
    RunDepth(ss, acts, k + 1);
    RunSafe(ss, acts, k);
    RunSafe(ss, acts, k + 1);
    hide Best;
  }

  // ---------- starting a thread ----------

  /** A thread that is started is ready, behind the others of its priority; nothing else changes. */
  lemma StartOutcome(s: State, t: Tid, p: nat)
    requires Inv(s) && Enabled(s, Start(t, p))
    ensures var d := Step(s, Start(t, p));
            && d.threads == s.threads[t := Thread(p, Ready, false)]
            && d.ready == s.ready[p := s.ready[p] + [t]] && d.group == s.group[p := true]
            && d.current == s.current && d.lock == s.lock
  {
    assert Placed(s, t);
  }
}
