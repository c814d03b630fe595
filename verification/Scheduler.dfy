/** The scheduler object: the global tables of scheduler.c and the thread objects they refer to. */
module Scheduler {
  import opened Lists
  import opened IpcList
  import opened SchedSpec
  import opened SchedTheorems

  class Scheduler {
    const ready: array<seq<Tid>>
    var group: seq<bool>
    var current: Tid
    var lock: int
    const threads: array<Thread>

    function View(): State
      reads this, ready, threads
    {
      State(ready[..], group, current, lock, threads[..])
    }

    /** rt_schedule_insert_thread */
    method Insert(t: Tid)
      requires Sized(View()) && t < threads.Length
      modifies `group, ready, threads
      ensures View() == InsertThread(old(View()), t) && Sized(View())
    {
      var th := threads[t];
      if t == current {
        threads[t] := th.(stat := Running);
        return;
      }
      threads[t] := th.(stat := Ready);
      ready[th.prio] := ready[th.prio] + [t];
      group := group[th.prio := true];
    }

    /** rt_schedule_remove_thread */
    method Take(t: Tid)
      requires Sized(View()) && t < threads.Length
      modifies `group, ready
      ensures View() == RemoveThread(old(View()), t) && Sized(View())
    {
      var p := threads[t].prio;
      ready[p] := Without(ready[p], t);
      if ready[p] == [] {
        group := group[p := false];
      }
    }

    /** rt_schedule */
    method Run()
      requires Inv(View())
      modifies this, ready, threads
      ensures View() == Schedule(old(View()))
      ensures Inv(View()) && (old(lock) == 0 ==> Best(View()))
    {
      hide Inv, Best, OneList, Placed;
      ghost var s := View();
      ScheduleInv(s);
      if lock == 0 {
        ScheduleBest(s);
        var first := Ffs(group);
        if first != 0 {
          var best := first - 1;
          InvSized(s);
          GroupLists(s, best);
          hide Ffs, Without, SwitchTo, Dispatch;
          var to := ready[best][0];
          var from := current;
          var insert := false;
          if threads[current].stat == Running {
            if threads[current].prio < best {
              to := current;
            } else if threads[current].prio == best && !threads[current].yielding {
              to := current;
            } else {
              insert := true;
            }
            threads[current] := threads[current].(yielding := false);
          }
          if to != current {
            Switch(to, insert);
          } else {
            StartRunning(current);
          }
        }
      }
    }

    method Switch(to: Tid, insert: bool)
      requires Sized(View()) && to < threads.Length
      modifies this, ready, threads
      ensures View() == SwitchTo(old(View()), to, insert)
    {
      hide InsertThread, Dispatch;
      var from := current;
      current := to;
      if insert { Insert(from); }
      StartRunning(to);
    }

    method StartRunning(t: Tid)
      requires Sized(View()) && t < threads.Length
      modifies `group, ready, threads
      ensures View() == Dispatch(old(View()), t)
    {
      Take(t);
      threads[t] := threads[t].(stat := Running);
    }

    /** rt_thread_yield */
    method YieldProcessor()
      requires Inv(View())
      modifies this, ready, threads
      ensures View() == Yield(old(View())) && Inv(View())
    {
      hide Inv, Schedule;
      ghost var s := View();
      YieldMark(s);
      InvSized(s);
      threads[current] := threads[current].(yielding := true);
      assert View() == Marked(s);
      Run();
    }

    /** rt_thread_suspend */
    method Suspend(t: Tid) returns (ok: bool)
      requires Inv(View()) && t < threads.Length
      modifies `group, ready, threads
      ensures (View(), ok) == SuspendThread(old(View()), t) && Inv(View())
    {
      hide Inv, RemoveThread;
      InvSized(View());
      SuspendInv(View(), t);
      if threads[t].stat != Ready && threads[t].stat != Running { return false; }
      Take(t);
      threads[t] := threads[t].(stat := Suspended);
      return true;
    }

    /** rt_thread_resume */
    method Resume(t: Tid) returns (ok: bool)
      requires Inv(View()) && t < threads.Length
      modifies `group, ready, threads
      ensures (View(), ok) == ResumeThread(old(View()), t) && Inv(View())
    {
      hide Inv, InsertThread;
      InvSized(View());
      ResumeInv(View(), t);
      if threads[t].stat != Suspended { return false; }
      Insert(t);
      return true;
    }

    /** rt_thread_control with RT_THREAD_CTRL_CHANGE_PRIORITY */
    method SetPriority(t: Tid, p: nat)
      requires Inv(View()) && t < threads.Length && p < PRIORITY_MAX
      modifies `group, ready, threads
      ensures View() == ChangePriority(old(View()), t, p) && Inv(View())
    {
      hide Inv, InsertThread;
      InvSized(View());
      ChangePriorityInv(View(), t, p);
      if threads[t].stat == Ready {
        Take(t);
        threads[t] := threads[t].(prio := p);
        Insert(t);
      } else {
        threads[t] := threads[t].(prio := p);
      }
    }

    /** rt_enter_critical */
    method Enter()
      modifies `lock
      ensures View() == EnterCritical(old(View()))
    {
      lock := lock + 1;
    }

    /** rt_exit_critical */
    method Exit()
      requires Inv(View())
      modifies this, ready, threads
      ensures View() == ExitCritical(old(View())) && Inv(View())
    {
      hide Inv, Schedule;
      ghost var s := View();
      UnlockInv(s);
      lock := lock - 1;
      if lock <= 0 {
        lock := 0;
        assert View() == s.(lock := 0);
        Run();
      } else {
        LockInv(s, s.lock - 1);
        assert View() == s.(lock := s.lock - 1);
      }
    }
  }

  lemma InvSized(s: State)
    requires Inv(s)
    ensures Sized(s)
  {
  }
}
