/** The mailbox of ipc.c.  Its state machine has one step for every stretch of code that runs with
    interrupts off; a thread that was suspended and resumed goes on with a step of its own. */
module MailboxSpec {
  import opened Lists
  import opened IpcList
  import opened QueueOrder

  type Mail = int

  /** `wokenS` and `wokenR` are the threads that have been resumed (with RT_EOK) out of a blocked send
      or receive and have not run since. */
  datatype State = State(
    size: nat,
    mails: seq<Mail>,
    receivers: seq<Tid>,
    senders: seq<Tid>,
    wokenR: set<Tid>,
    wokenS: set<Tid>)

  datatype Outcome = Done | Received(mail: Mail) | Full | Timeout | Blocked

  /** What the sections have in common after a mail was stored: resume the first receiver. */
  function WakeReceiver(s: State): State {
    if s.receivers == [] then s
    else s.(receivers := s.receivers[1..], wokenR := s.wokenR + {s.receivers[0]})
  }

  function WakeSender(s: State): State {
    if s.senders == [] then s
    else s.(senders := s.senders[1..], wokenS := s.wokenS + {s.senders[0]})
  }

  /** rt_mb_send_wait, from the test for a full mailbox on. */
  function Send(s: State, t: Tid, mail: Mail, timeout: int, flag: Flag, prio: Tid -> nat): (State, Outcome) {
    if |s.mails| < s.size then (WakeReceiver(s.(mails := s.mails + [mail])), Done)
    else if timeout == 0 then (s, Full)
    else (s.(senders := Insert(s.senders, t, flag, prio)), Blocked)
  }

  /** rt_mb_urgent */
  function Urgent(s: State, mail: Mail): (State, Outcome) {
    if |s.mails| < s.size then (WakeReceiver(s.(mails := [mail] + s.mails)), Done) else (s, Full)
  }

  /** rt_mb_recv, from the test for an empty mailbox on. */
  function Recv(s: State, t: Tid, timeout: int, flag: Flag, prio: Tid -> nat): (State, Outcome) {
    if s.mails != [] then (WakeSender(s.(mails := s.mails[1..])), Received(s.mails[0]))
    else if timeout == 0 then (s, Timeout)
    else (s.(receivers := Insert(s.receivers, t, flag, prio)), Blocked)
  }

  datatype Action =
    | SendStart(t: Tid, mail: Mail, timeout: int)
    | SendAgain(t: Tid, mail: Mail, timeout: int, elapsed: nat)   // a resumed sender runs again
    | UrgentSend(mail: Mail)
    | RecvStart(t: Tid, timeout: int)
    | RecvAgain(t: Tid, timeout: int, elapsed: nat)
    | Expire(t: Tid)                                              // the timer of a suspended thread
    | Reset                                                       // rt_mb_control with RT_IPC_CMD_RESET

  predicate Idle(s: State, t: Tid) {
    t !in s.receivers && t !in s.senders && t !in s.wokenR && t !in s.wokenS
  }

  predicate Enabled(s: State, a: Action) {
    match a
    case SendStart(t, _, _) => Idle(s, t)
    case SendAgain(t, _, _, _) => t in s.wokenS
    case UrgentSend(_) => true
    case RecvStart(t, _) => Idle(s, t)
    case RecvAgain(t, _, _) => t in s.wokenR
    case Expire(t) => t in s.receivers || t in s.senders
    case Reset => true
  }

  function Step(s: State, a: Action, flag: Flag, prio: Tid -> nat): (State, Outcome) {
    match a
    case SendStart(t, mail, timeout) => Send(s, t, mail, timeout, flag, prio)
    case SendAgain(t, mail, timeout, elapsed) =>
      Send(s.(wokenS := s.wokenS - {t}), t, mail, Left(timeout, elapsed), flag, prio)
    case UrgentSend(mail) => Urgent(s, mail)
    case RecvStart(t, timeout) => Recv(s, t, timeout, flag, prio)
    case RecvAgain(t, timeout, elapsed) =>
      Recv(s.(wokenR := s.wokenR - {t}), t, Left(timeout, elapsed), flag, prio)
    case Expire(t) => (if t in s.receivers then s.(receivers := Without(s.receivers, t))
                       else s.(senders := Without(s.senders, t)), Timeout)
    case Reset => (s.(mails := [], receivers := [], senders := []), Done)
  }

  /** A thread is in at most one place. */
  ghost predicate OnePlace(s: State) {
    && Distinct(s.receivers) && Distinct(s.senders)
    && (forall t :: t in s.receivers ==> t !in s.senders && t !in s.wokenR && t !in s.wokenS)
    && (forall t :: t in s.senders ==> t !in s.wokenR && t !in s.wokenS)
    && s.wokenR !! s.wokenS
  }

  /** No wakeup is lost: while a thread waits for something, at least as many threads are on their
      way to take it as there is of it. */
  ghost predicate NoLostWakeup(s: State) {
    && (s.senders != [] ==> s.size - |s.mails| <= |s.wokenS|)
    && (s.receivers != [] ==> |s.mails| <= |s.wokenR|)
  }

  ghost predicate Inv(s: State) {
    |s.mails| <= s.size && OnePlace(s) && NoLostWakeup(s)
  }

  function Initial(size: nat): State {
    State(size, [], [], [], {}, {})
  }

  lemma WakeReceiverInv(s: State)
    requires OnePlace(s) && |s.mails| <= s.size
    requires s.senders != [] ==> s.size - |s.mails| <= |s.wokenS|
    requires s.receivers != [] ==> |s.mails| <= |s.wokenR| + 1
    ensures Inv(WakeReceiver(s))
  {
    if s.receivers != [] {
      assert s.receivers == [s.receivers[0]] + s.receivers[1..];
      assert s.receivers[0] in s.receivers;
    }
  }

  lemma WakeSenderInv(s: State)
    requires OnePlace(s) && |s.mails| <= s.size
    requires s.senders != [] ==> s.size - |s.mails| <= |s.wokenS| + 1
    requires s.receivers != [] ==> |s.mails| <= |s.wokenR|
    ensures Inv(WakeSender(s))
  {
    if s.senders != [] {
      assert s.senders == [s.senders[0]] + s.senders[1..];
      assert s.senders[0] in s.senders;
    }
  }

  /** The invariant, with one free slot too many for the woken senders. */
  lemma SendInv(s: State, t: Tid, mail: Mail, timeout: int, flag: Flag, prio: Tid -> nat)
    requires |s.mails| <= s.size && OnePlace(s) && Idle(s, t)
    requires s.senders != [] ==> s.size - |s.mails| <= |s.wokenS| + 1
    requires s.senders != [] && |s.mails| == s.size ==> s.size - |s.mails| <= |s.wokenS|
    requires s.receivers != [] ==> |s.mails| <= |s.wokenR|
    ensures Inv(Send(s, t, mail, timeout, flag, prio).0)
  {
    if |s.mails| < s.size {
      WakeReceiverInv(s.(mails := s.mails + [mail]));
    } else if timeout != 0 {
      InsertKeeps(s.senders, t, flag, prio);
    }
  }

  lemma RecvInv(s: State, t: Tid, timeout: int, flag: Flag, prio: Tid -> nat)
    requires |s.mails| <= s.size && OnePlace(s) && Idle(s, t)
    requires s.receivers != [] ==> |s.mails| <= |s.wokenR| + 1
    requires s.senders != [] ==> s.size - |s.mails| <= |s.wokenS|
    ensures Inv(Recv(s, t, timeout, flag, prio).0)
  {
    if s.mails != [] {
      WakeSenderInv(s.(mails := s.mails[1..]));
    } else if timeout != 0 {
      InsertKeeps(s.receivers, t, flag, prio);
    }
  }

  lemma ExpireInv(s: State, t: Tid)
    requires Inv(s) && (t in s.receivers || t in s.senders)
    ensures Inv(if t in s.receivers then s.(receivers := Without(s.receivers, t))
                else s.(senders := Without(s.senders, t)))
  {
    if t in s.receivers {
      RemoveKeeps(s.receivers, t);
    } else {
      RemoveKeeps(s.senders, t);
    }
  }

  lemma SendStartInv(s: State, t: Tid, mail: Mail, timeout: int, flag: Flag, prio: Tid -> nat)
    requires Inv(s) && Idle(s, t)
    ensures Inv(Send(s, t, mail, timeout, flag, prio).0)
  {
    SendInv(s, t, mail, timeout, flag, prio);
  }

  /** A resumed thread that runs again is the one that its wakeup was counted for. */
  lemma SendAgainInv(s: State, t: Tid, mail: Mail, timeout: int, flag: Flag, prio: Tid -> nat)
    requires Inv(s) && t in s.wokenS
    ensures Inv(Send(s.(wokenS := s.wokenS - {t}), t, mail, timeout, flag, prio).0)
  {
    SendInv(s.(wokenS := s.wokenS - {t}), t, mail, timeout, flag, prio);
  }

  lemma RecvStartInv(s: State, t: Tid, timeout: int, flag: Flag, prio: Tid -> nat)
    requires Inv(s) && Idle(s, t)
    ensures Inv(Recv(s, t, timeout, flag, prio).0)
  {
    RecvInv(s, t, timeout, flag, prio);
  }

  lemma RecvAgainInv(s: State, t: Tid, timeout: int, flag: Flag, prio: Tid -> nat)
    requires Inv(s) && t in s.wokenR
    ensures Inv(Recv(s.(wokenR := s.wokenR - {t}), t, timeout, flag, prio).0)
  {
    RecvInv(s.(wokenR := s.wokenR - {t}), t, timeout, flag, prio);
  }

  lemma UrgentInv(s: State, mail: Mail)
    requires Inv(s)
    ensures Inv(Urgent(s, mail).0)
  {
    if |s.mails| < s.size { WakeReceiverInv(s.(mails := [mail] + s.mails)); }
  }

  /** Every step keeps the invariant, whatever the threads do and in whatever order they run. */
  lemma StepInv(s: State, a: Action, flag: Flag, prio: Tid -> nat)
    requires Inv(s) && Enabled(s, a)
    ensures Inv(Step(s, a, flag, prio).0) && Step(s, a, flag, prio).0.size == s.size
  {
    hide Inv, Idle, Send, Urgent, Recv;
    SameSize(s, a, flag, prio);
    match a
    case SendStart(t, mail, timeout) => SendStartInv(s, t, mail, timeout, flag, prio);
    case SendAgain(t, mail, timeout, elapsed) => SendAgainInv(s, t, mail, Left(timeout, elapsed), flag, prio);
    case UrgentSend(mail) => UrgentInv(s, mail);
    case RecvStart(t, timeout) => RecvStartInv(s, t, timeout, flag, prio);
    case RecvAgain(t, timeout, elapsed) => RecvAgainInv(s, t, Left(timeout, elapsed), flag, prio);
    case Expire(t) => ExpireInv(s, t);
    case Reset => ResetInv(s);
  }

  lemma SameSize(s: State, a: Action, flag: Flag, prio: Tid -> nat)
    ensures Step(s, a, flag, prio).0.size == s.size
  {
  }

  lemma ResetInv(s: State)
    requires Inv(s)
    ensures Inv(s.(mails := [], receivers := [], senders := []))
  {
  }

  // ---------- whole runs ----------

  /** `ss[k]` is the state before action `acts[k]`. */
  ghost predicate Run(ss: seq<State>, acts: seq<Action>, size: nat, flag: Flag, prio: Tid -> nat) {
    && |ss| == |acts| + 1 && ss[0] == Initial(size)
    && forall k :: 0 <= k < |acts| ==> Enabled(ss[k], acts[k]) && ss[k + 1] == Step(ss[k], acts[k], flag, prio).0
  }

  /** No wakeup is lost in any run of any number of senders and receivers.  In particular, once all
      resumed threads have run, a thread still waits to send only on a full mailbox and to receive
      only on an empty one. */
  lemma {:induction false} RunNoLostWakeup(ss: seq<State>, acts: seq<Action>, size: nat, flag: Flag,
                                           prio: Tid -> nat, k: nat)
    requires Run(ss, acts, size, flag, prio) && k <= |acts|
    ensures Inv(ss[k]) && ss[k].size == size
    ensures ss[k].wokenS == {} && ss[k].senders != [] ==> |ss[k].mails| == size
    ensures ss[k].wokenR == {} && ss[k].receivers != [] ==> ss[k].mails == []
  {
    if k > 0 {
      RunNoLostWakeup(ss, acts, size, flag, prio, k - 1);
      StepInv(ss[k - 1], acts[k - 1], flag, prio);
    }
  }

  /** The mails that the first `k` actions delivered. */
  function Delivered(ss: seq<State>, acts: seq<Action>, flag: Flag, prio: Tid -> nat, k: nat): seq<Mail>
    requires |ss| == |acts| + 1 && k <= |acts|
  {
    if k == 0 then []
    else
      var rest := Delivered(ss, acts, flag, prio, k - 1);
      match Step(ss[k - 1], acts[k - 1], flag, prio).1
      case Received(mail) => rest + [mail]
      case _ => rest
  }

  /** What an action does to the stored mails. */
  function OpOf(s: State, a: Action, flag: Flag, prio: Tid -> nat): Op<Mail> {
    var stored := Step(s, a, flag, prio).1.Done?;
    match a
    case SendStart(_, mail, _) => if stored then Behind(mail) else Keep
    case SendAgain(_, mail, _, _) => if stored then Behind(mail) else Keep
    case UrgentSend(mail) => if stored then InFront(mail) else Keep
    case RecvStart(_, _) => Op.Take
    case RecvAgain(_, _, _) => Op.Take
    case Reset => Clear
    case Expire(_) => Keep
  }

  function Ops(ss: seq<State>, acts: seq<Action>, flag: Flag, prio: Tid -> nat, k: nat): (r: seq<Op<Mail>>)
    requires k <= |acts| <= |ss|
    ensures |r| == k && forall j :: 0 <= j < k ==> r[j] == OpOf(ss[j], acts[j], flag, prio)
  {
    seq(k, j requires 0 <= j < k => OpOf(ss[j], acts[j], flag, prio))
  }

  lemma StepOp(s: State, a: Action, flag: Flag, prio: Tid -> nat)
    ensures var (d, r) := Step(s, a, flag, prio);
            d.mails == Apply(s.mails, OpOf(s, a, flag, prio))
            && (r.Received? <==> OpOf(s, a, flag, prio).Take? && s.mails != [])
            && (r.Received? ==> r.mail == s.mails[0])
  {
    hide Insert;
  }

  lemma {:induction false} RunOps(ss: seq<State>, acts: seq<Action>, size: nat, flag: Flag, prio: Tid -> nat, k: nat)
    requires Run(ss, acts, size, flag, prio) && k <= |acts|
    ensures ss[k].mails == Queued(Ops(ss, acts, flag, prio, k))
    ensures Delivered(ss, acts, flag, prio, k) == TakenOut(Ops(ss, acts, flag, prio, k))
  {
    if k > 0 {
      RunOps(ss, acts, size, flag, prio, k - 1);
      StepOp(ss[k - 1], acts[k - 1], flag, prio);
      assert Ops(ss, acts, flag, prio, k)[..k - 1] == Ops(ss, acts, flag, prio, k - 1);
    }
  }

  lemma OnlyResetClears(s: State, a: Action, flag: Flag, prio: Tid -> nat)
    ensures OpOf(s, a, flag, prio).Clear? <==> a.Reset?
    ensures OpOf(s, a, flag, prio).InFront? ==> a.UrgentSend?
  {
  }

  lemma OpsKinds(ss: seq<State>, acts: seq<Action>, flag: Flag, prio: Tid -> nat, k: nat)
    requires k <= |acts| <= |ss|
    ensures forall j :: 0 <= j < k ==>
              && (Ops(ss, acts, flag, prio, k)[j].Clear? ==> acts[j].Reset?)
              && (Ops(ss, acts, flag, prio, k)[j].InFront? ==> acts[j].UrgentSend?)
  {
    hide OpOf, Step, Enabled;
    forall j | 0 <= j < k
      ensures (Ops(ss, acts, flag, prio, k)[j].Clear? ==> acts[j].Reset?)
              && (Ops(ss, acts, flag, prio, k)[j].InFront? ==> acts[j].UrgentSend?)
    {
      OnlyResetClears(ss[j], acts[j], flag, prio);
    }
  }

  /** In every run, with urgent mails and resets, however senders and receivers block and time out: the
      mailbox holds the urgent mails, the latest first, and then the others in the order in which they
      were accepted; those delivered are the ones accepted, none twice; and what is missing was thrown
      away by a reset.  Without both, everything comes out in the order in which it went in. */
  lemma RunOrder(ss: seq<State>, acts: seq<Action>, size: nat, flag: Flag, prio: Tid -> nat, k: nat)
    requires Run(ss, acts, size, flag, prio) && k <= |acts|
    ensures Orderly(Ops(ss, acts, flag, prio, k), ss[k].mails, Delivered(ss, acts, flag, prio, k))
    ensures (forall j :: 0 <= j < k ==> !acts[j].Reset?) ==> Dropped(Ops(ss, acts, flag, prio, k)) == []
    ensures (forall j :: 0 <= j < k ==> !acts[j].UrgentSend? && !acts[j].Reset?) ==>
              Delivered(ss, acts, flag, prio, k) + ss[k].mails == Added(Ops(ss, acts, flag, prio, k))
  {
    RunOps(ss, acts, size, flag, prio, k);
    OpsKinds(ss, acts, flag, prio, k);
    hide *;
    AlwaysOrderly(Ops(ss, acts, flag, prio, k));
  }

  /** The next mail received is the urgent one that was sent last and, when there is none, the one that
      was accepted first. */
  lemma RunUrgentFirst(ss: seq<State>, acts: seq<Action>, size: nat, flag: Flag, prio: Tid -> nat, k: nat)
    requires Run(ss, acts, size, flag, prio) && k < |acts| && Step(ss[k], acts[k], flag, prio).1.Received?
    ensures var ops := Ops(ss, acts, flag, prio, k);
            var waiting := Queued(Labels(ops));
            && waiting != [] && Given(ops, waiting[0])
            && Step(ss[k], acts[k], flag, prio).1.mail == Value(ops, waiting[0])
            && forall l :: l in waiting ==> waiting[0] <= l
  {
    RunOrder(ss, acts, size, flag, prio, k);
    StepOp(ss[k], acts[k], flag, prio);
  }
}

/** The mailbox object: a ring of mails in an array, and two lists of suspended threads. */
module Mailbox {
  import opened Lists
  import opened IpcList
  import opened MailboxSpec

  /** RT_MB_ENTRY_MAX */
  const ENTRY_MAX: nat := 0xFFFF

  function Wrap(i: nat, size: nat): nat {
    if i >= size then i - size else i
  }

  /** The `entry` mails from offset `out` on, going around. */
  function Mails(pool: seq<Mail>, size: nat, out: nat, entry: nat): seq<Mail>
    requires entry <= size <= |pool| && (entry > 0 ==> out < size)
  {
    seq(entry, i requires 0 <= i < entry => pool[Wrap(out + i, size)])
  }

  lemma MailsAt(pool: seq<Mail>, size: nat, out: nat, entry: nat, i: nat)
    requires i < entry <= size <= |pool| && out < size
    ensures Mails(pool, size, out, entry)[i] == pool[Wrap(out + i, size)]
  {
  }

  lemma StoreBehind(pool: seq<Mail>, size: nat, out: nat, entry: nat, mail: Mail)
    requires entry < size <= |pool| && out < size
    ensures Mails(pool[Wrap(out + entry, size) := mail], size, out, entry + 1) == Mails(pool, size, out, entry) + [mail]
  {
    var p := pool[Wrap(out + entry, size) := mail];
    var a, b := Mails(p, size, out, entry + 1), Mails(pool, size, out, entry) + [mail];
    forall i | 0 <= i <= entry ensures a[i] == b[i] {
      MailsAt(p, size, out, entry + 1, i);
      if i < entry { MailsAt(pool, size, out, entry, i); }
    }
    assert a == b;
  }

  lemma StoreInFront(pool: seq<Mail>, size: nat, out: nat, entry: nat, mail: Mail)
    requires entry < size <= |pool| && out < size
    ensures var o := if out > 0 then out - 1 else size - 1;
            Mails(pool[o := mail], size, o, entry + 1) == [mail] + Mails(pool, size, out, entry)
  {
    var o := if out > 0 then out - 1 else size - 1;
    var p := pool[o := mail];
    var a, b := Mails(p, size, o, entry + 1), [mail] + Mails(pool, size, out, entry);
    forall i | 0 <= i <= entry ensures a[i] == b[i] {
      MailsAt(p, size, o, entry + 1, i);
      if i > 0 { MailsAt(pool, size, out, entry, i - 1); }
    }
    assert a == b;
  }

  lemma TakeFirst(pool: seq<Mail>, size: nat, out: nat, entry: nat)
    requires 0 < entry <= size <= |pool| && out < size
    ensures Mails(pool, size, out, entry)[0] == pool[out]
    ensures Mails(pool, size, Wrap(out + 1, size), entry - 1) == Mails(pool, size, out, entry)[1..]
  {
    MailsAt(pool, size, out, entry, 0);
    var o := Wrap(out + 1, size);
    var a, b := Mails(pool, size, o, entry - 1), Mails(pool, size, out, entry)[1..];
    forall i | 0 <= i < entry - 1 ensures a[i] == b[i] {
      MailsAt(pool, size, o, entry - 1, i);
      MailsAt(pool, size, out, entry, i + 1);
    }
    assert a == b;
  }

  /** The offset to write to is the offset to read from plus the number of entries, modulo the size. */
  lemma WrapIsModulo(i: nat, size: nat)
    requires size > 0 && i < 2 * size
    ensures Wrap(i, size) == i % size
  {
    if i >= size {
      assert i == size * 1 + (i - size);
      assert i / size == 1;
    }
  }

  class Mailbox {
    const size: nat
    const pool: array<Mail>
    const flag: Flag
    const prio: Tid -> nat
    var entry: nat
    var inOffset: nat
    var outOffset: nat
    var receivers: seq<Tid>
    var senders: seq<Tid>
    ghost var wokenR: set<Tid>
    ghost var wokenS: set<Tid>

    ghost predicate Valid()
      reads this
    {
      && size <= ENTRY_MAX && size <= pool.Length
      && entry <= size
      && (size == 0 ==> outOffset == 0)
      && (size > 0 ==> outOffset < size)
      && inOffset == Wrap(outOffset + entry, size)
    }

    /** The mails in the order in which they will be received. */
    ghost function Contents(): seq<Mail>
      requires Valid()
      reads this, pool
    {
      Mails(pool[..], size, outOffset, entry)
    }

    ghost function View(): State
      requires Valid()
      reads this, pool
    {
      State(size, Contents(), receivers, senders, wokenR, wokenS)
    }

    /** rt_mb_init; `size` is narrowed to sixteen bits. */
    constructor (msgpool: array<Mail>, size: nat, flag: Flag, prio: Tid -> nat)
      requires size <= msgpool.Length
      ensures Valid() && View() == Initial(size % 0x1_0000)
      ensures pool == msgpool && this.flag == flag && this.prio == prio
    {
      this.size, pool, this.flag, this.prio := size % 0x1_0000, msgpool, flag, prio;
      entry, inOffset, outOffset := 0, 0, 0;
      receivers, senders := [], [];
      wokenR, wokenS := {}, {};
    }

    /** rt_ipc_list_resume on the list of receivers. */
    method ResumeReceiver()
      requires Valid()
      modifies this`receivers, this`wokenR
      ensures Valid() && View() == WakeReceiver(old(View()))
    {
      if receivers != [] {
        wokenR := wokenR + {receivers[0]};
        receivers := receivers[1..];
      }
    }

    method ResumeSender()
      requires Valid()
      modifies this`senders, this`wokenS
      ensures Valid() && View() == WakeSender(old(View()))
    {
      if senders != [] {
        wokenS := wokenS + {senders[0]};
        senders := senders[1..];
      }
    }

    /** rt_mb_send_wait with interrupts off: store the mail, give up, or suspend the thread. */
    method SendSection(t: Tid, mail: Mail, timeout: int) returns (r: Outcome)
      requires Valid()
      modifies this, pool
      ensures Valid() && (View(), r) == Send(old(View()), t, mail, timeout, flag, prio)
    {
      if entry == size {
        if timeout == 0 { return Full; }
        senders := Suspend(senders, t, flag, prio);
        return Blocked;
      }
      StoreBehind(pool[..], size, outOffset, entry, mail);
      ghost var p: seq<Mail> := pool[..];
      pool[inOffset] := mail;
      assert pool[..] == p[inOffset := mail];
      inOffset := inOffset + 1;
      if inOffset >= size { inOffset := 0; }
      assert entry < ENTRY_MAX;
      entry := entry + 1;
      ResumeReceiver();
      return Done;
    }

    /** rt_mb_urgent */
    method UrgentSection(mail: Mail) returns (r: Outcome)
      requires Valid()
      modifies this, pool
      ensures Valid() && (View(), r) == Urgent(old(View()), mail)
    {
      if entry == size { return Full; }
      StoreInFront(pool[..], size, outOffset, entry, mail);
      ghost var p: seq<Mail> := pool[..];
      if outOffset > 0 { outOffset := outOffset - 1; } else { outOffset := size - 1; }
      pool[outOffset] := mail;
      assert pool[..] == p[outOffset := mail];
      entry := entry + 1;
      ResumeReceiver();
      return Done;
    }

    /** rt_mb_recv with interrupts off: take a mail, give up, or suspend the thread. */
    method RecvSection(t: Tid, timeout: int) returns (r: Outcome)
      requires Valid()
      modifies this
      ensures Valid() && (View(), r) == Recv(old(View()), t, timeout, flag, prio)
    {
      if entry == 0 {
        if timeout == 0 { return Timeout; }
        receivers := Suspend(receivers, t, flag, prio);
        return Blocked;
      }
      TakeFirst(pool[..], size, outOffset, entry);
      var mail := pool[outOffset];
      outOffset := outOffset + 1;
      if outOffset >= size { outOffset := 0; }
      entry := entry - 1;
      ResumeSender();
      return Received(mail);
    }

    /** A resumed sender goes on: its timeout is reduced by the ticks it waited, then it tries again. */
    method SendResumed(t: Tid, mail: Mail, timeout: int, elapsed: nat) returns (r: Outcome)
      requires Valid() && t in wokenS
      modifies this, pool
      ensures Valid() && (View(), r) == Step(old(View()), SendAgain(t, mail, timeout, elapsed), flag, prio)
    {
      wokenS := wokenS - {t};
      var left := timeout;
      if left > 0 {
        left := left - elapsed;
        if left < 0 { left := 0; }
      }
      r := SendSection(t, mail, left);
    }

    method RecvResumed(t: Tid, timeout: int, elapsed: nat) returns (r: Outcome)
      requires Valid() && t in wokenR
      modifies this
      ensures Valid() && (View(), r) == Step(old(View()), RecvAgain(t, timeout, elapsed), flag, prio)
    {
      wokenR := wokenR - {t};
      var left := timeout;
      if left > 0 {
        left := left - elapsed;
        if left < 0 { left := 0; }
      }
      r := RecvSection(t, left);
    }

    /** rt_mb_control, RT_IPC_CMD_RESET */
    method ResetSection()
      requires Valid()
      modifies this
      ensures Valid() && View() == Step(old(View()), Reset, flag, prio).0
    {
      while receivers != []
        invariant Valid() && unchanged(this`wokenR, this`wokenS, this`senders)
      {
        receivers := receivers[1..];
      }
      while senders != []
        invariant Valid() && receivers == [] && unchanged(this`wokenR, this`wokenS)
      {
        senders := senders[1..];
      }
      entry, inOffset, outOffset := 0, 0, 0;
    }
  }
}
