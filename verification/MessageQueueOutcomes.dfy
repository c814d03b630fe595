/** How the calls of the message queue end: who gets a node or a message, who fails and when, and who
    waits where. */
module MessageQueueOutcomes {
  import opened Lists
  import opened IpcList
  import opened MessageQueueSpec

  predicate Sends(a: Action) {
    a.SendStart? || a.SendAgain?
  }

  predicate Receives(a: Action) {
    a.RecvStart? || a.RecvAgain?
  }

  /** The caller does not wait, or has waited for as long as it was ready to; a negative timeout never
      runs out. */
  predicate OutOfTime(a: Action)
    requires Sends(a) || Receives(a)
  {
    0 <= a.timeout <= if a.SendAgain? || a.RecvAgain? then a.elapsed else 0
  }

  lemma RecvEnds(s: State, t: Tid, left: int, flag: Flag, prio: Tid -> nat)
    ensures var (d, r) := RecvTake(s, t, left, flag, prio);
            && (r.Received? <==> s.msgs != [])
            && (r.Timeout? <==> s.msgs == [] && left == 0)
            && (r.Blocked? <==> s.msgs == [] && left != 0)
            && (if r.Received? then s.msgs == [r.msg] + d.msgs else d.msgs == s.msgs)
            && d.copying == (if r.Received? then s.copying[t := Emptying(r.msg)] else s.copying)
            && (if r.Blocked? then Joins(s.receivers, d.receivers, t, flag, prio) else d.receivers == s.receivers)
            && d == s.(msgs := d.msgs, copying := d.copying, receivers := d.receivers)
  {
    InsertJoins(s.receivers, t, flag, prio);
    hide Joins, Insert;
  }

  lemma SendEnds(s: State, t: Tid, left: int, flag: Flag, prio: Tid -> nat)
    ensures var (d, r) := SendTake(s, t, left, flag, prio);
            && (r.Taken? <==> s.free > 0)
            && (r.Full? <==> s.free == 0 && left == 0)
            && (r.Blocked? <==> s.free == 0 && left != 0)
            && s.free == d.free + (if r.Taken? then 1 else 0)
            && d.copying == (if r.Taken? then s.copying[t := Filling] else s.copying)
            && (if r.Blocked? then Joins(s.senders, d.senders, t, flag, prio) else d.senders == s.senders)
            && d == s.(free := d.free, copying := d.copying, senders := d.senders)
  {
    InsertJoins(s.senders, t, flag, prio);
    hide Joins, Insert;
  }

  /** How the first half of a receive ends: with the first message when there is one; without one by a timeout
      when no time is left, and otherwise in the list of receivers.  Nothing else changes. */
  lemma RecvOutcome(s: State, a: Action, flag: Flag, prio: Tid -> nat)
    requires Enabled(s, a) && Receives(a)
    ensures var (d, r) := Step(s, a, flag, prio);
            && (r.Received? <==> s.msgs != [])
            && (r.Timeout? <==> s.msgs == [] && OutOfTime(a))
            && (r.Blocked? <==> s.msgs == [] && !OutOfTime(a))
            && (if r.Received? then s.msgs == [r.msg] + d.msgs else d.msgs == s.msgs)
            && d.copying == (if r.Received? then s.copying[a.t := Emptying(r.msg)] else s.copying)
            && (if r.Blocked? then Joins(s.receivers, d.receivers, a.t, flag, prio) else d.receivers == s.receivers)
            && d == s.(msgs := d.msgs, copying := d.copying, receivers := d.receivers, wokenR := s.wokenR - {a.t})
  {
    var u := s.(wokenR := s.wokenR - {a.t});
    assert a.RecvStart? ==> u == s;
    RecvEnds(u, a.t, if a.RecvStart? then a.timeout else Left(a.timeout, a.elapsed), flag, prio);
    hide Joins, RecvTake, Idle;
  }

  /** How the first half of a send ends: with a node of the pool when one is free; without one by a failure
      when no time is left, and otherwise in the list of senders.  Nothing else changes. */
  lemma SendOutcome(s: State, a: Action, flag: Flag, prio: Tid -> nat)
    requires Enabled(s, a) && Sends(a)
    ensures var (d, r) := Step(s, a, flag, prio);
            && (r.Taken? <==> s.free > 0)
            && (r.Full? <==> s.free == 0 && OutOfTime(a))
            && (r.Blocked? <==> s.free == 0 && !OutOfTime(a))
            && s.free == d.free + (if r.Taken? then 1 else 0)
            && d.copying == (if r.Taken? then s.copying[a.t := Filling] else s.copying)
            && (if r.Blocked? then Joins(s.senders, d.senders, a.t, flag, prio) else d.senders == s.senders)
            && d == s.(free := d.free, copying := d.copying, senders := d.senders, wokenS := s.wokenS - {a.t})
  {
    var u := s.(wokenS := s.wokenS - {a.t});
    assert a.SendStart? ==> u == s;
    SendEnds(u, a.t, if a.SendStart? then a.timeout else Left(a.timeout, a.elapsed), flag, prio);
    hide Joins, SendTake, Idle;
  }

  /** An urgent send never waits: it fails exactly when no node is free, and then changes nothing. */
  lemma UrgentOutcome(s: State, t: Tid, flag: Flag, prio: Tid -> nat)
    requires Enabled(s, UrgentStart(t))
    ensures var (d, r) := Step(s, UrgentStart(t), flag, prio);
            && r == (if s.free > 0 then Taken else Full)
            && (r.Full? ==> d == s)
            && (r.Taken? ==> s.free == d.free + 1 && d == s.(free := d.free, copying := s.copying[t := Filling]))
  {
  }

  /** The second half of a send puts the message that was copied behind or, for an urgent one, in front of all
      others, gives up the node, and resumes the first waiting receiver. */
  lemma LinkOutcome(s: State, a: Action, flag: Flag, prio: Tid -> nat)
    requires Enabled(s, a) && (a.Link? || a.LinkUrgent?)
    ensures var (d, r) := Step(s, a, flag, prio);
            && r.Done? && a.t !in d.copying && |d.msgs| == |s.msgs| + 1
            && (a.Link? ==> s.copying[a.t] == Filled(d.msgs[|s.msgs|]) && d.msgs[..|s.msgs|] == s.msgs)
            && (a.LinkUrgent? ==> s.copying[a.t] == FilledUrgent(d.msgs[0]) && d.msgs[1..] == s.msgs)
            && (forall x :: x in s.copying && x != a.t ==> x in d.copying && d.copying[x] == s.copying[x])
            && Resumes(s.receivers, d.receivers, s.wokenR, d.wokenR)
            && d == s.(msgs := d.msgs, copying := d.copying, receivers := d.receivers, wokenR := d.wokenR)
  {
  }

  /** The second half of a receive frees the node and resumes the first waiting sender. */
  lemma PutBackOutcome(s: State, t: Tid, flag: Flag, prio: Tid -> nat)
    requires Enabled(s, PutBack(t))
    ensures var (d, r) := Step(s, PutBack(t), flag, prio);
            && r.Done? && d.free == s.free + 1 && t !in d.copying
            && (forall x :: x in s.copying && x != t ==> x in d.copying && d.copying[x] == s.copying[x])
            && Resumes(s.senders, d.senders, s.wokenS, d.wokenS)
            && d == s.(free := d.free, copying := d.copying, senders := d.senders, wokenS := d.wokenS)
  {
  }

  /** A thread whose timer runs out waits no longer; the others keep their places, and nothing is lost. */
  lemma ExpireOutcome(s: State, t: Tid, flag: Flag, prio: Tid -> nat)
    requires Inv(s) && Enabled(s, Expire(t))
    ensures var (d, r) := Step(s, Expire(t), flag, prio);
            && r.Timeout? && Idle(d, t)
            && (forall x :: x != t ==> (x in d.receivers <==> x in s.receivers) && (x in d.senders <==> x in s.senders))
            && d == s.(receivers := d.receivers, senders := d.senders)
  {
    if t in s.receivers {
      RemoveKeeps(s.receivers, t);
    } else {
      RemoveKeeps(s.senders, t);
    }
  }

  /** After a reset no message is queued and nobody waits, and the nodes of the queue are free. */
  lemma ResetOutcome(s: State, flag: Flag, prio: Tid -> nat)
    ensures var (d, r) := Step(s, Reset, flag, prio);
            && r.Done? && d.msgs == [] && d.receivers == [] && d.senders == []
            && d.free + |d.msgs| == s.free + |s.msgs|
            && d == s.(free := d.free, msgs := [], receivers := [], senders := [])
  {
  }

  // ---------- whole runs ----------

  lemma StepChanges(s: State, a: Action, flag: Flag, prio: Tid -> nat)
    requires Enabled(s, a)
    ensures var d, t := Step(s, a, flag, prio).0, if a.Reset? then 0 else a.t;
            Changes(s.receivers, d.receivers, t, flag, prio) && Changes(s.senders, d.senders, t, flag, prio)
  {
    hide Insert, Idle;
  }

  lemma StepSorted(s: State, a: Action, prio: Tid -> nat)
    requires Enabled(s, a) && Sorted(s.receivers, prio) && Sorted(s.senders, prio)
    ensures var d := Step(s, a, Prio, prio).0; Sorted(d.receivers, prio) && Sorted(d.senders, prio)
  {
    StepChanges(s, a, Prio, prio);
    var d, t := Step(s, a, Prio, prio).0, if a.Reset? then 0 else a.t;
    hide Step, Enabled, Sorted, Changes;
    ChangesSorted(s.receivers, d.receivers, t, prio);
    ChangesSorted(s.senders, d.senders, t, prio);
  }

  /** With RT_IPC_FLAG_PRIO both lists are in priority order throughout every run, so the thread that is
      resumed first is one of the highest priority and, among its equals, the one that has waited longest. */
  lemma {:induction false} RunSorted(ss: seq<State>, acts: seq<Action>, max: nat, prio: Tid -> nat, k: nat)
    requires Run(ss, acts, max, Prio, prio) && k <= |acts|
    ensures Sorted(ss[k].receivers, prio) && Sorted(ss[k].senders, prio)
  {
    if k > 0 {
      RunSorted(ss, acts, max, prio, k - 1);
      StepSorted(ss[k - 1], acts[k - 1], prio);
    }
  }

  ghost predicate Waits(s: State, t: Tid, receiving: bool) {
    if receiving then t in s.receivers || t in s.wokenR else t in s.senders || t in s.wokenS
  }

  /** The actions that end the wait of thread `t`: its own next step, its timer, and a reset. */
  predicate Ends(a: Action, t: Tid) {
    a.Reset? || a == Expire(t) || ((a.SendAgain? || a.RecvAgain?) && a.t == t)
  }

  lemma StepWaits(s: State, a: Action, flag: Flag, prio: Tid -> nat, t: Tid, receiving: bool)
    requires Inv(s) && Enabled(s, a) && Waits(s, t, receiving) && !Ends(a, t)
    ensures Waits(Step(s, a, flag, prio).0, t, receiving)
  {
    var d := Step(s, a, flag, prio).0;
    if Sends(a) {
      SendOutcome(s, a, flag, prio);
      JoinsIn(s.senders, d.senders, a.t, flag, prio, t);
    } else if Receives(a) {
      RecvOutcome(s, a, flag, prio);
      JoinsIn(s.receivers, d.receivers, a.t, flag, prio, t);
    } else if a.Expire? {
      ExpireOutcome(s, a.t, flag, prio);
    } else if a.Link? || a.LinkUrgent? {
      LinkOutcome(s, a, flag, prio);
    } else if a.PutBack? {
      PutBackOutcome(s, a.t, flag, prio);
    }
    hide Joins, Inv, SendTake, RecvTake, AtTail, AtHead, Returned, Without;
  }

  /** A thread that has blocked goes on waiting until its timer ends the wait, the queue is reset, or it is
      resumed and runs again: it is never sent away before. */
  lemma {:induction false} RunWaits(ss: seq<State>, acts: seq<Action>, max: nat, flag: Flag, prio: Tid -> nat,
                                    j: nat, k: nat)
    requires Run(ss, acts, max, flag, prio) && j < k <= |acts|
    requires Sends(acts[j]) || Receives(acts[j])
    requires Step(ss[j], acts[j], flag, prio).1.Blocked?
    requires forall u :: j < u < k ==> !Ends(acts[u], acts[j].t)
    ensures Waits(ss[k], acts[j].t, Receives(acts[j]))
    decreases k
  {
    hide Joins;
    if k == j + 1 {
      if Sends(acts[j]) {
        SendOutcome(ss[j], acts[j], flag, prio);
        JoinsIn(ss[j].senders, ss[k].senders, acts[j].t, flag, prio, acts[j].t);
      } else {
        RecvOutcome(ss[j], acts[j], flag, prio);
        JoinsIn(ss[j].receivers, ss[k].receivers, acts[j].t, flag, prio, acts[j].t);
      }
    } else {
      RunWaits(ss, acts, max, flag, prio, j, k - 1);
      RunInv(ss, acts, max, flag, prio, k - 1);
      StepWaits(ss[k - 1], acts[k - 1], flag, prio, acts[j].t, Receives(acts[j]));
    }
  }

  /** A call with a negative timeout ends in no run by a timeout of its own, nor for want of a node. */
  lemma RunForever(ss: seq<State>, acts: seq<Action>, max: nat, flag: Flag, prio: Tid -> nat, k: nat)
    requires Run(ss, acts, max, flag, prio) && k < |acts|
    requires (Sends(acts[k]) || Receives(acts[k])) && acts[k].timeout < 0
    ensures var r := Step(ss[k], acts[k], flag, prio).1; r.Blocked? || r.Taken? || r.Received?
  {
    if Sends(acts[k]) {
      SendOutcome(ss[k], acts[k], flag, prio);
    } else {
      RecvOutcome(ss[k], acts[k], flag, prio);
    }
    hide Step, Joins;
  }
}
