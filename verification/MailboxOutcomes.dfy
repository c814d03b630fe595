/** How the calls of the mailbox end: who gets a mail, who fails and when, and who waits where. */
module MailboxOutcomes {
  import opened Lists
  import opened IpcList
  import opened MailboxSpec

  predicate Sends(a: Action) {
    a.SendStart? || a.SendAgain?
  }

  predicate Receives(a: Action) {
    a.RecvStart? || a.RecvAgain?
  }

  /** The caller does not wait, or has waited for as long as it was ready to; a negative timeout never
      runs out. */
  predicate OutOfTime(a: Action)
    requires Sends(a) || Receives(a)
  {
    0 <= a.timeout <= if a.SendAgain? || a.RecvAgain? then a.elapsed else 0
  }

  lemma RecvEnds(s: State, t: Tid, left: int, flag: Flag, prio: Tid -> nat)
    ensures var (d, r) := Recv(s, t, left, flag, prio);
            && (r.Received? <==> s.mails != [])
            && (r.Timeout? <==> s.mails == [] && left == 0)
            && (r.Blocked? <==> s.mails == [] && left != 0)
            && (r.Received? ==> s.mails == [r.mail] + d.mails)
            && (if r.Received? then Resumes(s.senders, d.senders, s.wokenS, d.wokenS)
                else d.mails == s.mails && d.senders == s.senders && d.wokenS == s.wokenS)
            && (if r.Blocked? then Joins(s.receivers, d.receivers, t, flag, prio) else d.receivers == s.receivers)
            && d.wokenR == s.wokenR && d.size == s.size
  {
    InsertJoins(s.receivers, t, flag, prio);
    hide Joins, Insert;
  }

  lemma SendEnds(s: State, t: Tid, mail: Mail, left: int, flag: Flag, prio: Tid -> nat)
    ensures var (d, r) := Send(s, t, mail, left, flag, prio);
            && (r.Done? <==> |s.mails| < s.size)
            && (r.Full? <==> |s.mails| >= s.size && left == 0)
            && (r.Blocked? <==> |s.mails| >= s.size && left != 0)
            && d.mails == (if r.Done? then s.mails + [mail] else s.mails)
            && (if r.Done? then Resumes(s.receivers, d.receivers, s.wokenR, d.wokenR)
                else d.receivers == s.receivers && d.wokenR == s.wokenR)
            && (if r.Blocked? then Joins(s.senders, d.senders, t, flag, prio) else d.senders == s.senders)
            && d.wokenS == s.wokenS && d.size == s.size
  {
    InsertJoins(s.senders, t, flag, prio);
    hide Joins, Insert;
  }

  /** How a receive ends: with the first mail when there is one, and then the first waiting sender is
      resumed; without one by a timeout when no time is left, and otherwise in the list of receivers.
      Nothing else changes. */
  lemma RecvOutcome(s: State, a: Action, flag: Flag, prio: Tid -> nat)
    requires Enabled(s, a) && Receives(a)
    ensures var (d, r) := Step(s, a, flag, prio);
            && (r.Received? <==> s.mails != [])
            && (r.Timeout? <==> s.mails == [] && OutOfTime(a))
            && (r.Blocked? <==> s.mails == [] && !OutOfTime(a))
            && (r.Received? ==> s.mails == [r.mail] + d.mails)
            && (if r.Received? then Resumes(s.senders, d.senders, s.wokenS, d.wokenS)
                else d.mails == s.mails && d.senders == s.senders && d.wokenS == s.wokenS)
            && (if r.Blocked? then Joins(s.receivers, d.receivers, a.t, flag, prio) else d.receivers == s.receivers)
            && d.wokenR == s.wokenR - {a.t} && d.size == s.size
  {
    var u := s.(wokenR := s.wokenR - {a.t});
    assert a.RecvStart? ==> u == s;
    RecvEnds(u, a.t, if a.RecvStart? then a.timeout else Left(a.timeout, a.elapsed), flag, prio);
    hide Joins, Recv, Idle, Resumes;
  }

  /** How a send ends: with the mail stored behind the others when there is room, and then the first waiting
      receiver is resumed; without room by a failure when no time is left, and otherwise in the list of
      senders.  Nothing else changes. */
  lemma SendOutcome(s: State, a: Action, flag: Flag, prio: Tid -> nat)
    requires Enabled(s, a) && Sends(a)
    ensures var (d, r) := Step(s, a, flag, prio);
            && (r.Done? <==> |s.mails| < s.size)
            && (r.Full? <==> |s.mails| >= s.size && OutOfTime(a))
            && (r.Blocked? <==> |s.mails| >= s.size && !OutOfTime(a))
            && d.mails == (if r.Done? then s.mails + [a.mail] else s.mails)
            && (if r.Done? then Resumes(s.receivers, d.receivers, s.wokenR, d.wokenR)
                else d.receivers == s.receivers && d.wokenR == s.wokenR)
            && (if r.Blocked? then Joins(s.senders, d.senders, a.t, flag, prio) else d.senders == s.senders)
            && d.wokenS == s.wokenS - {a.t} && d.size == s.size
  {
    var u := s.(wokenS := s.wokenS - {a.t});
    assert a.SendStart? ==> u == s;
    SendEnds(u, a.t, a.mail, if a.SendStart? then a.timeout else Left(a.timeout, a.elapsed), flag, prio);
    hide Joins, Send, Idle, Resumes;
  }

  /** An urgent send never waits: it fails exactly when there is no room, and otherwise its mail is the next
      one to be received. */
  lemma UrgentOutcome(s: State, mail: Mail, flag: Flag, prio: Tid -> nat)
    ensures var (d, r) := Step(s, UrgentSend(mail), flag, prio);
            && r == (if |s.mails| < s.size then Done else Full)
            && (r.Full? ==> d == s)
            && (r.Done? ==> d.mails == [mail] + s.mails && Resumes(s.receivers, d.receivers, s.wokenR, d.wokenR)
                            && d == s.(mails := d.mails, receivers := d.receivers, wokenR := d.wokenR))
  {
  }

  /** A thread whose timer runs out waits no longer; the others keep their places, and nothing is lost. */
  lemma ExpireOutcome(s: State, t: Tid, flag: Flag, prio: Tid -> nat)
    requires Inv(s) && Enabled(s, Expire(t))
    ensures var (d, r) := Step(s, Expire(t), flag, prio);
            && r.Timeout? && Idle(d, t)
            && (forall x :: x != t ==> (x in d.receivers <==> x in s.receivers) && (x in d.senders <==> x in s.senders))
            && d == s.(receivers := d.receivers, senders := d.senders)
  {
    if t in s.receivers {
      RemoveKeeps(s.receivers, t);
    } else {
      RemoveKeeps(s.senders, t);
    }
  }

  /** After a reset the mailbox is as it was created: no mail, and nobody waits. */
  lemma ResetOutcome(s: State, flag: Flag, prio: Tid -> nat)
    ensures Step(s, Reset, flag, prio) == (Initial(s.size).(wokenR := s.wokenR, wokenS := s.wokenS), Done)
  {
  }

  // ---------- whole runs ----------

  /** With RT_IPC_FLAG_PRIO both lists are in priority order throughout every run, so the thread that is
      resumed first is one of the highest priority and, among its equals, the one that has waited longest. */
  lemma {:induction false} RunSorted(ss: seq<State>, acts: seq<Action>, size: nat, prio: Tid -> nat, k: nat)
    requires Run(ss, acts, size, Prio, prio) && k <= |acts|
    ensures Sorted(ss[k].receivers, prio) && Sorted(ss[k].senders, prio)
  {
    if k > 0 {
      RunSorted(ss, acts, size, prio, k - 1);
      StepSorted(ss[k - 1], acts[k - 1], prio);
    }
  }

  lemma StepChanges(s: State, a: Action, flag: Flag, prio: Tid -> nat)
    requires Enabled(s, a)
    ensures var d, t := Step(s, a, flag, prio).0, if a.UrgentSend? || a.Reset? then 0 else a.t;
            Changes(s.receivers, d.receivers, t, flag, prio) && Changes(s.senders, d.senders, t, flag, prio)
  {
    hide Insert, Idle;
  }

  lemma StepSorted(s: State, a: Action, prio: Tid -> nat)
    requires Enabled(s, a) && Sorted(s.receivers, prio) && Sorted(s.senders, prio)
    ensures var d := Step(s, a, Prio, prio).0; Sorted(d.receivers, prio) && Sorted(d.senders, prio)
  {
    StepChanges(s, a, Prio, prio);
    var d, t := Step(s, a, Prio, prio).0, if a.UrgentSend? || a.Reset? then 0 else a.t;
    hide Step, Enabled, Sorted, Changes;
    ChangesSorted(s.receivers, d.receivers, t, prio);
    ChangesSorted(s.senders, d.senders, t, prio);
  }

  ghost predicate Waits(s: State, t: Tid, receiving: bool) {
    if receiving then t in s.receivers || t in s.wokenR else t in s.senders || t in s.wokenS
  }

  /** The actions that end the wait of thread `t`: its own next step, its timer, and a reset. */
  predicate Ends(a: Action, t: Tid) {
    a.Reset? || a == Expire(t) || ((a.SendAgain? || a.RecvAgain?) && a.t == t)
  }

  lemma StepWaits(s: State, a: Action, flag: Flag, prio: Tid -> nat, t: Tid, receiving: bool)
    requires Inv(s) && Enabled(s, a) && Waits(s, t, receiving) && !Ends(a, t)
    ensures Waits(Step(s, a, flag, prio).0, t, receiving)
  {
    if Sends(a) {
      SendOutcome(s, a, flag, prio);
      JoinsIn(s.senders, Step(s, a, flag, prio).0.senders, a.t, flag, prio, t);
    } else if Receives(a) {
      RecvOutcome(s, a, flag, prio);
      JoinsIn(s.receivers, Step(s, a, flag, prio).0.receivers, a.t, flag, prio, t);
    } else if a.Expire? {
      ExpireOutcome(s, a.t, flag, prio);
    } else {
      UrgentOutcome(s, a.mail, flag, prio);
    }
    hide Step, Joins, Inv;
  }

  /** A thread that has blocked goes on waiting until its timer ends the wait, the mailbox is reset, or it
      is resumed and runs again: it is never sent away before. */
  lemma {:induction false} RunWaits(ss: seq<State>, acts: seq<Action>, size: nat, flag: Flag, prio: Tid -> nat,
                                    j: nat, k: nat)
    requires Run(ss, acts, size, flag, prio) && j < k <= |acts|
    requires Sends(acts[j]) || Receives(acts[j])
    requires Step(ss[j], acts[j], flag, prio).1.Blocked?
    requires forall u :: j < u < k ==> !Ends(acts[u], acts[j].t)
    ensures Waits(ss[k], acts[j].t, Receives(acts[j]))
    decreases k
  {
    hide Joins;
    if k == j + 1 {
      if Sends(acts[j]) {
        SendOutcome(ss[j], acts[j], flag, prio);
        JoinsIn(ss[j].senders, ss[k].senders, acts[j].t, flag, prio, acts[j].t);
      } else {
        RecvOutcome(ss[j], acts[j], flag, prio);
        JoinsIn(ss[j].receivers, ss[k].receivers, acts[j].t, flag, prio, acts[j].t);
      }
    } else {
      RunWaits(ss, acts, size, flag, prio, j, k - 1);
      RunNoLostWakeup(ss, acts, size, flag, prio, k - 1);
      StepWaits(ss[k - 1], acts[k - 1], flag, prio, acts[j].t, Receives(acts[j]));
    }
  }

  /** A call with a negative timeout ends in no run by a timeout of its own, nor by a full mailbox. */
  lemma RunForever(ss: seq<State>, acts: seq<Action>, size: nat, flag: Flag, prio: Tid -> nat, k: nat)
    requires Run(ss, acts, size, flag, prio) && k < |acts|
    requires (Sends(acts[k]) || Receives(acts[k])) && acts[k].timeout < 0
    ensures var r := Step(ss[k], acts[k], flag, prio).1; r.Blocked? || r.Done? || r.Received?
  {
    if Sends(acts[k]) {
      SendOutcome(ss[k], acts[k], flag, prio);
    } else {
      RecvOutcome(ss[k], acts[k], flag, prio);
    }
    hide Step, Joins;
  }
}
