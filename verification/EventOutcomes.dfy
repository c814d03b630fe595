/** How sending and receiving of the event flags end. */
module EventOutcomes {
  import opened Lists
  import opened IpcList
  import opened EventSpec

  /** What a receiver asks for is there: all of its flags, or one of them. */
  ghost predicate Met(want: Info, flags: Flags) {
    if want.option.all then want.flags <= flags
    else want.option.any && exists f :: f in want.flags && f in flags
  }

  lemma SatisfiedIsMet(want: Info, flags: Flags)
    ensures Satisfied(want, flags) <==> Met(want, flags)
  {
    if want.option.all {
      if want.flags <= flags { assert flags * want.flags == want.flags; }
      if flags * want.flags == want.flags { assert forall f :: f in want.flags ==> f in flags * want.flags; }
    } else if exists f :: f in want.flags && f in flags {
      var f :| f in want.flags && f in flags;
      assert f in flags * want.flags;
    } else {
      assert forall f :: f !in flags * want.flags;
    }
  }

  /** How a receive ends: for no flags with an error, with flags when the condition is met, without waiting by a
      timeout, and otherwise in the list of waiters, with the flags left as they were. */
  lemma RecvOutcome(s: State, t: Tid, want: Info, timeout: int, flag: Flag, prio: Tid -> nat)
    requires t < |s.info|
    ensures var (d, r) := Recv(s, t, want, timeout, flag, prio);
            && (r.Error? <==> want.flags == {})
            && (r.Received? <==> want.flags != {} && Met(want, s.flags))
            && (r.Timeout? <==> want.flags != {} && !Met(want, s.flags) && timeout == 0)
            && (r.Blocked? <==> want.flags != {} && !Met(want, s.flags) && timeout != 0)
            && (r.Received? ==> r.flags == want.flags * s.flags && d.waiters == s.waiters)
            && (r.Received? ==> d.flags == if want.option.clear then s.flags - r.flags else s.flags)
            && (r.Blocked? ==> Joins(s.waiters, d.waiters, t, flag, prio))
            && (r.Blocked? ==> d == State(s.flags, d.waiters, s.info[t := want]))
            && (r.Error? || r.Timeout? ==> d == s)
  {
    SatisfiedIsMet(want, s.flags);
    InsertJoins(s.waiters, t, flag, prio);
    hide Satisfied, Met, Joins, Insert;
    assert s.flags - want.flags == s.flags - (want.flags * s.flags);
  }

  /** How a send ends: for no flags with an error that changes nothing; otherwise the flags are added, each waiter
      whose condition is then met is resumed or still has to wait because another took the flags, and a flag
      goes out of the set only with a waiter that asked for RT_EVENT_FLAG_CLEAR. */
  lemma SendOutcome(s: State, flags: Flags, f: nat)
    requires Inv(s)
    ensures var (d, r) := Send(s, flags);
            && r == (if flags == {} then Error else Done)
            && (r.Error? ==> d == s)
            && (forall t :: t in d.waiters ==> t in s.waiters && d.info[t] == s.info[t] && !Met(s.info[t], d.flags))
            && (forall t :: t in s.waiters && t !in d.waiters ==> Met(s.info[t], s.flags + flags))
            && (r.Done? && f in s.flags + flags && f !in d.flags ==>
                  exists t :: t in s.waiters && t !in d.waiters && Took(s, d, t, f))
            && (f in d.flags ==> f in s.flags + flags)
  {
    if flags == {} {
      forall t | t in s.waiters ensures !Met(s.info[t], s.flags) { SatisfiedIsMet(s.info[t], s.flags); }
    } else {
      SendWaiters(s, flags);
      if f in s.flags + flags && f !in Send(s, flags).0.flags { var t := SendTakes(s, flags, f); }
    }
    hide Send, Met, Took;
  }

  /** Waiter `t` received flag `f` and took it away. */
  ghost predicate Took(s: State, d: State, t: Tid, f: nat) {
    t < |s.info| && t < |d.info| && s.info[t].option.clear && f in s.info[t].flags && f in d.info[t].flags
  }

  lemma SendTakes(s: State, flags: Flags, f: nat) returns (t: Tid)
    requires Inv(s) && flags != {} && f in s.flags + flags && f !in Send(s, flags).0.flags
    ensures t in s.waiters && t !in Send(s, flags).0.waiters && Took(s, Send(s, flags).0, t, f)
  {
    t := ScanKeepsRest(s.flags + flags, s.waiters, s.info, f);
    ScanLeavesNone(s.flags + flags, s.waiters, s.info);
    ScanServes(s.flags + flags, s.waiters, s.info, t);
    hide ScanList;
  }

  lemma SendWaiters(s: State, flags: Flags)
    requires Inv(s) && flags != {}
    ensures var d := Send(s, flags).0;
            && d.flags <= s.flags + flags && |d.info| == |s.info|
            && (forall t :: t in d.waiters ==>
                  t in s.waiters && t < |s.info| && d.info[t] == s.info[t] && !Met(s.info[t], d.flags))
            && (forall t :: t in s.waiters && t !in d.waiters ==> t < |s.info| && Met(s.info[t], s.flags + flags))
  {
    var d := Send(s, flags).0;
    ScanLeavesNone(s.flags + flags, s.waiters, s.info);
    hide ScanList, Met;
    forall t | t in d.waiters ensures !Met(s.info[t], d.flags) { SatisfiedIsMet(s.info[t], d.flags); }
    forall t | t in s.waiters && t !in d.waiters ensures Met(s.info[t], s.flags + flags) {
      ServedMet(s, flags, t);
    }
  }

  lemma ServedMet(s: State, flags: Flags, t: Tid)
    requires Inv(s) && t in ScanList(s.flags + flags, s.waiters, s.info).woken
    ensures t < |s.info| && Met(s.info[t], s.flags + flags)
  {
    var r := ScanList(s.flags + flags, s.waiters, s.info);
    ScanServes(s.flags + flags, s.waiters, s.info, t);
    ScanLeavesNone(s.flags + flags, s.waiters, s.info);
    hide ScanList;
    assert t in s.waiters && Waits(s.info[t], s.flags);
    if !s.info[t].option.all {
      var f :| f in r.info[t].flags;
      assert f in (s.flags + flags) * s.info[t].flags;
    }
  }

  /** A thread whose timer runs out waits no longer; the others do, and the flags stay as they are. */
  lemma ExpireOutcome(s: State, t: Tid, flag: Flag, prio: Tid -> nat)
    requires Inv(s) && Enabled(s, Expire(t))
    ensures var (d, r) := Step(s, Expire(t), flag, prio);
            && r.Timeout? && (forall x :: x in d.waiters <==> x in s.waiters && x != t)
            && d == s.(waiters := d.waiters)
  {
    RemoveKeeps(s.waiters, t);
  }

  /** After a reset no flag is set and nobody waits. */
  lemma ResetOutcome(s: State, flag: Flag, prio: Tid -> nat)
    requires Inv(s)
    ensures Step(s, ResetIt, flag, prio) == (State({}, [], s.info), Done)
  {
  }
}
