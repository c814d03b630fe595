/** The message queue of ipc.c as a state machine.  Sending and receiving take two stretches of code
    with interrupts off, one before and one after the message is copied with interrupts on, so
    besides the free nodes and the queue there are nodes that a thread is copying into or out of. */
module MessageQueueSpec {
  import opened Lists
  import opened IpcList
  import opened QueueOrder

  type Msg = seq<int>

  datatype Copy =
    | Filling                  // taken by a sender, nothing copied yet
    | Filled(msg: Msg)         // rt_mq_send_wait has copied its message and will link the node at the tail
    | FilledUrgent(msg: Msg)   // rt_mq_urgent has copied its message and will link the node at the head
    | Emptying(msg: Msg)       // taken by a receiver, which copies the message out

  /** `copying` are the threads between their two halves. */
  datatype State = State(
    max: nat,
    free: nat,
    msgs: seq<Msg>,
    copying: map<Tid, Copy>,
    receivers: seq<Tid>,
    senders: seq<Tid>,
    wokenR: set<Tid>,
    wokenS: set<Tid>)

  datatype Outcome = Done | Taken | Received(msg: Msg) | Full | Timeout | Blocked | Error

  function WakeReceiver(s: State): State {
    if s.receivers == [] then s
    else s.(receivers := s.receivers[1..], wokenR := s.wokenR + {s.receivers[0]})
  }

  function WakeSender(s: State): State {
    if s.senders == [] then s
    else s.(senders := s.senders[1..], wokenS := s.wokenS + {s.senders[0]})
  }

  /** First half of rt_mq_send_wait: take a free node. */
  function SendTake(s: State, t: Tid, timeout: int, flag: Flag, prio: Tid -> nat): (State, Outcome) {
    if s.free > 0 then (s.(free := s.free - 1, copying := s.copying[t := Filling]), Taken)
    else if timeout == 0 then (s, Full)
    else (s.(senders := Insert(s.senders, t, flag, prio)), Blocked)
  }

  /** First half of rt_mq_urgent, which never waits. */
  function UrgentTake(s: State, t: Tid): (State, Outcome) {
    if s.free > 0 then (s.(free := s.free - 1, copying := s.copying[t := Filling]), Taken) else (s, Full)
  }

  /** First half of rt_mq_recv: take the first message off the queue. */
  function RecvTake(s: State, t: Tid, timeout: int, flag: Flag, prio: Tid -> nat): (State, Outcome) {
    if s.msgs != [] then
      (s.(msgs := s.msgs[1..], copying := s.copying[t := Emptying(s.msgs[0])]), Received(s.msgs[0]))
    else if timeout == 0 then (s, Timeout)
    else (s.(receivers := Insert(s.receivers, t, flag, prio)), Blocked)
  }

  /** Second half of rt_mq_send_wait: the message of thread `t` goes to the end of the queue. */
  function AtTail(s: State, t: Tid, msg: Msg): State {
    WakeReceiver(s.(msgs := s.msgs + [msg], copying := s.copying - {t}))
  }

  /** Second half of rt_mq_urgent: the message of thread `t` goes to the front of the queue. */
  function AtHead(s: State, t: Tid, msg: Msg): State {
    WakeReceiver(s.(msgs := [msg] + s.msgs, copying := s.copying - {t}))
  }

  /** Second half of rt_mq_recv: the node of thread `t` is free again. */
  function Returned(s: State, t: Tid): State {
    WakeSender(s.(free := s.free + 1, copying := s.copying - {t}))
  }

  datatype Action =
    | SendStart(t: Tid, timeout: int)
    | SendAgain(t: Tid, timeout: int, elapsed: nat)
    | UrgentStart(t: Tid)
    | Fill(t: Tid, msg: Msg)          // the copy of rt_mq_send_wait, with interrupts on
    | FillUrgent(t: Tid, msg: Msg)    // the copy of rt_mq_urgent
    | Link(t: Tid)                    // second half of rt_mq_send_wait
    | LinkUrgent(t: Tid)              // second half of rt_mq_urgent
    | RecvStart(t: Tid, timeout: int)
    | RecvAgain(t: Tid, timeout: int, elapsed: nat)
    | PutBack(t: Tid)                 // second half of rt_mq_recv
    | Expire(t: Tid)
    | Reset                           // rt_mq_control with RT_IPC_CMD_RESET

  predicate Idle(s: State, t: Tid) {
    t !in s.copying && t !in s.receivers && t !in s.senders && t !in s.wokenR && t !in s.wokenS
  }

  predicate Enabled(s: State, a: Action) {
    match a
    case SendStart(t, _) => Idle(s, t)
    case SendAgain(t, _, _) => t in s.wokenS
    case UrgentStart(t) => Idle(s, t)
    case Fill(t, _) => t in s.copying && s.copying[t].Filling?
    case FillUrgent(t, _) => t in s.copying && s.copying[t].Filling?
    case Link(t) => t in s.copying && s.copying[t].Filled?
    case LinkUrgent(t) => t in s.copying && s.copying[t].FilledUrgent?
    case RecvStart(t, _) => Idle(s, t)
    case RecvAgain(t, _, _) => t in s.wokenR
    case PutBack(t) => t in s.copying && s.copying[t].Emptying?
    case Expire(t) => t in s.receivers || t in s.senders
    case Reset => true
  }

  function Step(s: State, a: Action, flag: Flag, prio: Tid -> nat): (State, Outcome)
    requires Enabled(s, a)
  {
    match a
    case SendStart(t, timeout) => SendTake(s, t, timeout, flag, prio)
    case SendAgain(t, timeout, elapsed) =>
      SendTake(s.(wokenS := s.wokenS - {t}), t, Left(timeout, elapsed), flag, prio)
    case UrgentStart(t) => UrgentTake(s, t)
    case Fill(t, msg) => (s.(copying := s.copying[t := Filled(msg)]), Done)
    case FillUrgent(t, msg) => (s.(copying := s.copying[t := FilledUrgent(msg)]), Done)
    case Link(t) => (AtTail(s, t, s.copying[t].msg), Done)
    case LinkUrgent(t) => (AtHead(s, t, s.copying[t].msg), Done)
    case RecvStart(t, timeout) => RecvTake(s, t, timeout, flag, prio)
    case RecvAgain(t, timeout, elapsed) =>
      RecvTake(s.(wokenR := s.wokenR - {t}), t, Left(timeout, elapsed), flag, prio)
    case PutBack(t) => (Returned(s, t), Done)
    case Expire(t) =>
      (if t in s.receivers then s.(receivers := Without(s.receivers, t))
       else s.(senders := Without(s.senders, t)), Timeout)
    case Reset =>
      (s.(free := s.free + |s.msgs|, msgs := [], receivers := [], senders := []), Done)
  }

  /** No node is lost or duplicated: free nodes, queued messages and copies under way make up the pool. */
  ghost predicate Conserved(s: State) {
    s.free + |s.msgs| + |s.copying| == s.max
  }

  ghost predicate OnePlace(s: State) {
    && Distinct(s.receivers) && Distinct(s.senders)
    && (forall t :: t in s.receivers ==> t !in s.senders && t !in s.wokenR && t !in s.wokenS && t !in s.copying)
    && (forall t :: t in s.senders ==> t !in s.wokenR && t !in s.wokenS && t !in s.copying)
    && (forall t :: t in s.wokenR ==> t !in s.wokenS && t !in s.copying)
    && (forall t :: t in s.wokenS ==> t !in s.copying)
  }

  ghost predicate NoLostWakeup(s: State) {
    && (s.senders != [] ==> s.free <= |s.wokenS|)
    && (s.receivers != [] ==> |s.msgs| <= |s.wokenR|)
  }

  ghost predicate Inv(s: State) {
    Conserved(s) && OnePlace(s) && NoLostWakeup(s)
  }

  function Initial(max: nat): State {
    State(max, max, [], map[], [], [], {}, {})
  }

  lemma AddCopy(m: map<Tid, Copy>, t: Tid, c: Copy)
    ensures t !in m ==> |m[t := c]| == |m| + 1
    ensures t in m ==> |m[t := c]| == |m|
  {
    assert t !in m ==> m[t := c].Keys == m.Keys + {t};
    assert t in m ==> m[t := c].Keys == m.Keys;
    assert |m[t := c].Keys| == |m[t := c]| && |m.Keys| == |m|;
  }

  lemma DropCopy(m: map<Tid, Copy>, t: Tid)
    requires t in m
    ensures |m - {t}| == |m| - 1
  {
    assert (m - {t}).Keys == m.Keys - {t};
    assert |(m - {t}).Keys| == |m - {t}| && |m.Keys| == |m|;
  }

  lemma WakeReceiverInv(s: State)
    requires Conserved(s) && OnePlace(s)
    requires s.senders != [] ==> s.free <= |s.wokenS|
    requires s.receivers != [] ==> |s.msgs| <= |s.wokenR| + 1
    ensures Inv(WakeReceiver(s))
  {
    if s.receivers != [] {
      assert s.receivers == [s.receivers[0]] + s.receivers[1..];
      assert s.receivers[0] in s.receivers;
    }
  }

  lemma WakeSenderInv(s: State)
    requires Conserved(s) && OnePlace(s)
    requires s.senders != [] ==> s.free <= |s.wokenS| + 1
    requires s.receivers != [] ==> |s.msgs| <= |s.wokenR|
    ensures Inv(WakeSender(s))
  {
    if s.senders != [] {
      assert s.senders == [s.senders[0]] + s.senders[1..];
      assert s.senders[0] in s.senders;
    }
  }

  lemma SendTakeInv(s: State, t: Tid, timeout: int, flag: Flag, prio: Tid -> nat)
    requires Conserved(s) && OnePlace(s) && Idle(s, t)
    requires s.senders != [] && s.free > 0 ==> s.free <= |s.wokenS| + 1
    requires s.receivers != [] ==> |s.msgs| <= |s.wokenR|
    ensures Inv(SendTake(s, t, timeout, flag, prio).0)
  {
    if s.free > 0 {
      AddCopy(s.copying, t, Filling);
    } else if timeout != 0 {
      InsertKeeps(s.senders, t, flag, prio);
    }
  }

  lemma RecvTakeInv(s: State, t: Tid, timeout: int, flag: Flag, prio: Tid -> nat)
    requires Conserved(s) && OnePlace(s) && Idle(s, t)
    requires s.senders != [] ==> s.free <= |s.wokenS|
    requires s.receivers != [] && s.msgs != [] ==> |s.msgs| <= |s.wokenR| + 1
    ensures Inv(RecvTake(s, t, timeout, flag, prio).0)
  {
    if s.msgs != [] {
      AddCopy(s.copying, t, Emptying(s.msgs[0]));
    } else if timeout != 0 {
      InsertKeeps(s.receivers, t, flag, prio);
    }
  }

  lemma SendStartInv(s: State, t: Tid, timeout: int, flag: Flag, prio: Tid -> nat)
    requires Inv(s) && Idle(s, t)
    ensures Inv(SendTake(s, t, timeout, flag, prio).0) && Inv(UrgentTake(s, t).0)
  {
    SendTakeInv(s, t, timeout, flag, prio);
    SendTakeInv(s, t, 0, flag, prio);
  }

  lemma SendAgainInv(s: State, t: Tid, timeout: int, flag: Flag, prio: Tid -> nat)
    requires Inv(s) && t in s.wokenS
    ensures Inv(SendTake(s.(wokenS := s.wokenS - {t}), t, timeout, flag, prio).0)
  {
    SendTakeInv(s.(wokenS := s.wokenS - {t}), t, timeout, flag, prio);
  }

  lemma RecvStartInv(s: State, t: Tid, timeout: int, flag: Flag, prio: Tid -> nat)
    requires Inv(s) && Idle(s, t)
    ensures Inv(RecvTake(s, t, timeout, flag, prio).0)
  {
    RecvTakeInv(s, t, timeout, flag, prio);
  }

  lemma RecvAgainInv(s: State, t: Tid, timeout: int, flag: Flag, prio: Tid -> nat)
    requires Inv(s) && t in s.wokenR
    ensures Inv(RecvTake(s.(wokenR := s.wokenR - {t}), t, timeout, flag, prio).0)
  {
    RecvTakeInv(s.(wokenR := s.wokenR - {t}), t, timeout, flag, prio);
  }

  lemma FillInv(s: State, t: Tid, c: Copy)
    requires Inv(s) && t in s.copying
    ensures Inv(s.(copying := s.copying[t := c]))
  {
    AddCopy(s.copying, t, c);
  }

  lemma LinkInv(s: State, t: Tid, msgs: seq<Msg>)
    requires Inv(s) && t in s.copying && |msgs| == |s.msgs| + 1
    ensures Inv(WakeReceiver(s.(msgs := msgs, copying := s.copying - {t})))
  {
    DropCopy(s.copying, t);
    WakeReceiverInv(s.(msgs := msgs, copying := s.copying - {t}));
  }

  lemma PutBackInv(s: State, t: Tid)
    requires Inv(s) && t in s.copying
    ensures Inv(WakeSender(s.(free := s.free + 1, copying := s.copying - {t})))
  {
    DropCopy(s.copying, t);
    WakeSenderInv(s.(free := s.free + 1, copying := s.copying - {t}));
  }

  lemma ExpireInv(s: State, t: Tid)
    requires Inv(s) && (t in s.receivers || t in s.senders)
    ensures Inv(if t in s.receivers then s.(receivers := Without(s.receivers, t))
                else s.(senders := Without(s.senders, t)))
  {
    if t in s.receivers {
      RemoveKeeps(s.receivers, t);
    } else {
      RemoveKeeps(s.senders, t);
    }
  }

  lemma ResetInv(s: State)
    requires Inv(s)
    ensures Inv(s.(free := s.free + |s.msgs|, msgs := [], receivers := [], senders := []))
  {
  }

  lemma SameMax(s: State, a: Action, flag: Flag, prio: Tid -> nat)
    requires Enabled(s, a)
    ensures Step(s, a, flag, prio).0.max == s.max
  {
  }

  /** Every step keeps the invariant. */
  lemma StepInv(s: State, a: Action, flag: Flag, prio: Tid -> nat)
    requires Inv(s) && Enabled(s, a)
    ensures Inv(Step(s, a, flag, prio).0) && Step(s, a, flag, prio).0.max == s.max
  {
    hide Inv, Idle, SendTake, UrgentTake, RecvTake, WakeReceiver, WakeSender;
    SameMax(s, a, flag, prio);
    match a
    case SendStart(t, timeout) => SendStartInv(s, t, timeout, flag, prio);
    case SendAgain(t, timeout, elapsed) => SendAgainInv(s, t, Left(timeout, elapsed), flag, prio);
    case UrgentStart(t) => SendStartInv(s, t, 0, flag, prio);
    case Fill(t, msg) => FillInv(s, t, Filled(msg));
    case FillUrgent(t, msg) => FillInv(s, t, FilledUrgent(msg));
    case Link(t) => LinkInv(s, t, s.msgs + [s.copying[t].msg]);
    case LinkUrgent(t) => LinkInv(s, t, [s.copying[t].msg] + s.msgs);
    case RecvStart(t, timeout) => RecvStartInv(s, t, timeout, flag, prio);
    case RecvAgain(t, timeout, elapsed) => RecvAgainInv(s, t, Left(timeout, elapsed), flag, prio);
    case PutBack(t) => PutBackInv(s, t);
    case Expire(t) => ExpireInv(s, t);
    case Reset => ResetInv(s);
  }

  // ---------- whole runs ----------

  ghost predicate Run(ss: seq<State>, acts: seq<Action>, max: nat, flag: Flag, prio: Tid -> nat) {
    && |ss| == |acts| + 1 && ss[0] == Initial(max)
    && forall k :: 0 <= k < |acts| ==> Enabled(ss[k], acts[k]) && ss[k + 1] == Step(ss[k], acts[k], flag, prio).0
  }

  /** In every run, at every point between two sections, the pool is conserved and no wakeup is lost. */
  lemma {:induction false} RunInv(ss: seq<State>, acts: seq<Action>, max: nat, flag: Flag, prio: Tid -> nat, k: nat)
    requires Run(ss, acts, max, flag, prio) && k <= |acts|
    ensures Inv(ss[k]) && ss[k].max == max
    ensures ss[k].wokenS == {} && ss[k].senders != [] ==> |ss[k].msgs| + |ss[k].copying| == max
    ensures ss[k].wokenR == {} && ss[k].receivers != [] ==> ss[k].msgs == []
  {
    if k > 0 {
      RunInv(ss, acts, max, flag, prio, k - 1);
      StepInv(ss[k - 1], acts[k - 1], flag, prio);
    }
  }

  /** The messages that the first `k` actions took off the queue. */
  function Delivered(ss: seq<State>, acts: seq<Action>, flag: Flag, prio: Tid -> nat, k: nat): seq<Msg>
    requires |ss| == |acts| + 1 && k <= |acts|
    requires forall j :: 0 <= j < |acts| ==> Enabled(ss[j], acts[j])
  {
    if k == 0 then []
    else
      var rest := Delivered(ss, acts, flag, prio, k - 1);
      match Step(ss[k - 1], acts[k - 1], flag, prio).1
      case Received(msg) => rest + [msg]
      case _ => rest
  }

  /** What an action does to the queue of messages. */
  function OpOf(s: State, a: Action): Op<Msg>
    requires Enabled(s, a)
  {
    match a
    case Link(t) => Behind(s.copying[t].msg)
    case LinkUrgent(t) => InFront(s.copying[t].msg)
    case RecvStart(_, _) => Op.Take
    case RecvAgain(_, _, _) => Op.Take
    case Reset => Clear
    case _ => Keep
  }

  function Ops(ss: seq<State>, acts: seq<Action>, k: nat): (r: seq<Op<Msg>>)
    requires k <= |acts| <= |ss| && forall j :: 0 <= j < |acts| ==> Enabled(ss[j], acts[j])
    ensures |r| == k && forall j :: 0 <= j < k ==> r[j] == OpOf(ss[j], acts[j])
  {
    seq(k, j requires 0 <= j < k => OpOf(ss[j], acts[j]))
  }

  lemma StepOp(s: State, a: Action, flag: Flag, prio: Tid -> nat)
    requires Enabled(s, a)
    ensures var (d, r) := Step(s, a, flag, prio);
            d.msgs == Apply(s.msgs, OpOf(s, a)) && (r.Received? <==> OpOf(s, a).Take? && s.msgs != [])
            && (r.Received? ==> r.msg == s.msgs[0])
  {
    hide Insert;
  }

  lemma {:induction false} RunOps(ss: seq<State>, acts: seq<Action>, max: nat, flag: Flag, prio: Tid -> nat, k: nat)
    requires Run(ss, acts, max, flag, prio) && k <= |acts|
    ensures ss[k].msgs == Queued(Ops(ss, acts, k)) && Delivered(ss, acts, flag, prio, k) == TakenOut(Ops(ss, acts, k))
  {
    if k > 0 {
      RunOps(ss, acts, max, flag, prio, k - 1);
      StepOp(ss[k - 1], acts[k - 1], flag, prio);
      assert Ops(ss, acts, k)[..k - 1] == Ops(ss, acts, k - 1);
    }
  }

  lemma OnlyResetClears(s: State, a: Action)
    requires Enabled(s, a)
    ensures OpOf(s, a).Clear? <==> a.Reset?
    ensures OpOf(s, a).InFront? ==> a.LinkUrgent?
  {
  }

  lemma OpsKinds(ss: seq<State>, acts: seq<Action>, k: nat)
    requires k <= |acts| <= |ss| && forall j :: 0 <= j < |acts| ==> Enabled(ss[j], acts[j])
    ensures forall j :: 0 <= j < k ==>
              && (Ops(ss, acts, k)[j].Clear? ==> acts[j].Reset?)
              && (Ops(ss, acts, k)[j].InFront? ==> acts[j].LinkUrgent?)
  {
    hide OpOf, Step, Enabled;
    forall j | 0 <= j < k
      ensures (Ops(ss, acts, k)[j].Clear? ==> acts[j].Reset?) && (Ops(ss, acts, k)[j].InFront? ==> acts[j].LinkUrgent?)
    {
      OnlyResetClears(ss[j], acts[j]);
    }
  }

  /** In every run, with urgent messages and resets: the queue holds the urgent messages, the latest
      first, and then the others in the order in which they were linked; those received are the ones that
      were linked, none twice; and what is missing was thrown away by a reset.  Without both,
      everything comes out in the order in which it was linked. */
  lemma RunOrder(ss: seq<State>, acts: seq<Action>, max: nat, flag: Flag, prio: Tid -> nat, k: nat)
    requires Run(ss, acts, max, flag, prio) && k <= |acts|
    ensures Orderly(Ops(ss, acts, k), ss[k].msgs, Delivered(ss, acts, flag, prio, k))
    ensures (forall j :: 0 <= j < k ==> !acts[j].Reset?) ==> Dropped(Ops(ss, acts, k)) == []
    ensures (forall j :: 0 <= j < k ==> !acts[j].LinkUrgent? && !acts[j].Reset?) ==>
              Delivered(ss, acts, flag, prio, k) + ss[k].msgs == Added(Ops(ss, acts, k))
  {
    RunOps(ss, acts, max, flag, prio, k);
    OpsKinds(ss, acts, k);
    hide *;
    AlwaysOrderly(Ops(ss, acts, k));
  }

  /** The next message received is the urgent one that was linked last and, when there is none, the one
      that was linked first. */
  lemma RunUrgentFirst(ss: seq<State>, acts: seq<Action>, max: nat, flag: Flag, prio: Tid -> nat, k: nat)
    requires Run(ss, acts, max, flag, prio) && k < |acts| && Step(ss[k], acts[k], flag, prio).1.Received?
    ensures var ops := Ops(ss, acts, k);
            var waiting := Queued(Labels(ops));
            && waiting != [] && Given(ops, waiting[0])
            && Step(ss[k], acts[k], flag, prio).1.msg == Value(ops, waiting[0])
            && forall l :: l in waiting ==> waiting[0] <= l
  {
    RunOrder(ss, acts, max, flag, prio, k);
    StepOp(ss[k], acts[k], flag, prio);
  }

  /** A message under way in a copy is disturbed by no step of another thread. */
  lemma CopyUndisturbed(s: State, a: Action, flag: Flag, prio: Tid -> nat, t: Tid)
    requires Inv(s) && Enabled(s, a) && t in s.copying
    requires !(a.Fill? && a.t == t) && !(a.FillUrgent? && a.t == t) && !(a.Link? && a.t == t)
             && !(a.LinkUrgent? && a.t == t) && !(a.PutBack? && a.t == t)
    ensures var d := Step(s, a, flag, prio).0; t in d.copying && d.copying[t] == s.copying[t]
  {
  }
}

/** How rt_mq_init divides the memory it is given into nodes. */
module QueuePool {
  import opened Arith

  /** RT_MQ_ENTRY_MAX */
  const ENTRY_MAX: nat := 0xFFFF
  /** sizeof(struct rt_mq_message), the link in front of a message */
  const LINK: nat := 4

  /** mq->msg_size */
  function MessageSize(size: nat): nat {
    RoundUp(size, 4) % (ENTRY_MAX + 1)
  }

  /** mq->max_msgs */
  function NodeCount(poolSize: nat, msgSize: nat): (n: nat)
    ensures n <= ENTRY_MAX
  {
    poolSize / (msgSize + LINK) % (ENTRY_MAX + 1)
  }

  predicate InPool(n: nat, msgSize: nat, poolSize: nat) {
    n * (msgSize + LINK) <= poolSize
  }

  /** The nodes that are laid out lie inside the pool. */
  lemma NodesFit(poolSize: nat, msgSize: nat)
    ensures InPool(NodeCount(poolSize, msgSize), msgSize, poolSize)
  {
    Scale(NodeCount(poolSize, msgSize), poolSize / (msgSize + LINK), msgSize + LINK);
  }

  /** Where byte `o` of node `i` is in the pool; the bytes from LINK on are the message. */
  function ByteAt(i: nat, o: nat, msgSize: nat): nat {
    i * (msgSize + LINK) + o
  }

  /** No byte of the pool belongs to two nodes, or to a link and a message: a message of up to msgSize
      bytes overwrites nothing else. */
  lemma BytesApart(poolSize: nat, msgSize: nat, i: nat, o: nat, j: nat, q: nat)
    requires i < NodeCount(poolSize, msgSize) && o < msgSize + LINK && j < NodeCount(poolSize, msgSize)
             && q < msgSize + LINK
    ensures ByteAt(i, o, msgSize) < poolSize
    ensures ByteAt(i, o, msgSize) == ByteAt(j, q, msgSize) <==> i == j && o == q
  {
    NodesFit(poolSize, msgSize);
    Scale(i + 1, NodeCount(poolSize, msgSize), msgSize + LINK);
    Distribute(i, 1, msgSize + LINK);
    DivMod(ByteAt(i, o, msgSize), msgSize + LINK, i, o);
    DivMod(ByteAt(j, q, msgSize), msgSize + LINK, j, q);
  }
}

/** The message queue object: a pool of nodes, linked into a free list and a queue. */
module MessageQueue {
  import opened QueuePool
  import opened Lists
  import opened IpcList
  import opened NodeList
  import opened MessageQueueSpec

  datatype Place = InFree | InQueue | HeldBy(t: Tid)

  /** Where the nodes are: the two lists, and for every thread between its two halves the value of
      its local variable `msg` and how far it has come. */
  datatype Nodes = Nodes(
    place: seq<Place>,
    free: seq<nat>,
    queue: seq<nat>,
    held: map<Tid, nat>,
    stage: map<Tid, Copy>)

  /** Every node is in exactly one place: on the free list, in the queue, or with one thread that
      copies into or out of it. */
  ghost predicate Partition(g: Nodes, max: nat) {
    && |g.place| == max && Distinct(g.free) && Distinct(g.queue) && g.held.Keys == g.stage.Keys
    && |g.free| + |g.queue| + |g.held| == max
    && (forall i :: 0 <= i < |g.free| ==> g.free[i] < max && g.place[g.free[i]] == InFree)
    && (forall i :: 0 <= i < |g.queue| ==> g.queue[i] < max && g.place[g.queue[i]] == InQueue)
    && (forall t :: t in g.held ==> g.held[t] < max && g.place[g.held[t]] == HeldBy(t))
    && (forall n :: 0 <= n < max ==> match g.place[n]
                                     case InFree => n in g.free
                                     case InQueue => n in g.queue
                                     case HeldBy(t) => t in g.held && g.held[t] == n)
  }

  /** The links of both lists, and `tail` is the last node of the queue, or null when there is none. */
  ghost predicate Links(g: Nodes, next: seq<int>, head: int, tail: int, freeHead: int) {
    ListOf(next, freeHead, g.free) && ListOf(next, head, g.queue) && tail == Last(g.queue)
  }

  /** What a node in the hands of a thread contains; a sender has ended its node with a null link. */
  ghost predicate Holds(n: nat, c: Copy, next: seq<int>, data: seq<Msg>) {
    n < |next| == |data| &&
    match c
    case Filling => true
    case Filled(msg) => data[n] == msg && next[n] == NIL
    case FilledUrgent(msg) => data[n] == msg
    case Emptying(msg) => data[n] == msg
  }

  ghost predicate Holding(held: map<Tid, nat>, stage: map<Tid, Copy>, next: seq<int>, data: seq<Msg>) {
    forall t :: t in held && t in stage ==> Holds(held[t], stage[t], next, data)
  }

  ghost predicate Rep(g: Nodes, max: nat, next: seq<int>, data: seq<Msg>, head: int, tail: int, freeHead: int) {
    |next| == |data| == max && Partition(g, max) && Links(g, next, head, tail, freeHead)
        && Holding(g.held, g.stage, next, data)
  }

  function Messages(queue: seq<nat>, data: seq<Msg>): (r: seq<Msg>)
    ensures |r| == |queue|
  {
    seq(|queue|, i requires 0 <= i < |queue| => if queue[i] < |data| then data[queue[i]] else [])
  }

  // ---------- what the sections do to the nodes ----------

  /** The first free node goes to thread `t`. */
  function FreeToThread(g: Nodes, t: Tid): Nodes
    requires g.free != [] && g.free[0] < |g.place|
  {
    Nodes(g.place[g.free[0] := HeldBy(t)], g.free[1..], g.queue, g.held[t := g.free[0]], g.stage[t := Filling])
  }

  /** The first node of the queue, with message `msg`, goes to thread `t`. */
  function QueueToThread(g: Nodes, t: Tid, msg: Msg): Nodes
    requires g.queue != [] && g.queue[0] < |g.place|
  {
    Nodes(g.place[g.queue[0] := HeldBy(t)], g.free, g.queue[1..], g.held[t := g.queue[0]], g.stage[t := Emptying(msg)])
  }

  /** The node of thread `t` goes to the end of the queue, to its front, or to the free list. */
  function ThreadToTail(g: Nodes, t: Tid): Nodes
    requires t in g.held && g.held[t] < |g.place|
  {
    Nodes(g.place[g.held[t] := InQueue], g.free, g.queue + [g.held[t]], g.held - {t}, g.stage - {t})
  }

  function ThreadToHead(g: Nodes, t: Tid): Nodes
    requires t in g.held && g.held[t] < |g.place|
  {
    Nodes(g.place[g.held[t] := InQueue], g.free, [g.held[t]] + g.queue, g.held - {t}, g.stage - {t})
  }

  function ThreadToFree(g: Nodes, t: Tid): Nodes
    requires t in g.held && g.held[t] < |g.place|
  {
    Nodes(g.place[g.held[t] := InFree], [g.held[t]] + g.free, g.queue, g.held - {t}, g.stage - {t})
  }

  /** The first node of the queue goes to the free list. */
  function QueueToFree(g: Nodes): Nodes
    requires g.queue != [] && g.queue[0] < |g.place|
  {
    Nodes(g.place[g.queue[0] := InFree], [g.queue[0]] + g.free, g.queue[1..], g.held, g.stage)
  }

  // ---------- the partition ----------

  lemma TailOf(l: seq<nat>)
    requires Distinct(l) && l != []
    ensures Distinct(l[1..]) && l[0] !in l[1..]
    ensures forall n :: n in l[1..] <==> n in l && n != l[0]
  {
    assert l == [l[0]] + l[1..];
  }

  lemma Around(l: seq<nat>, x: nat)
    requires Distinct(l) && x !in l
    ensures Distinct([x] + l) && Distinct(l + [x])
    ensures forall n :: n in [x] + l <==> n == x || n in l
    ensures forall n :: n in l + [x] <==> n == x || n in l
  {
  }

  lemma MapAdd<V>(m: map<Tid, V>, t: Tid, v: V)
    requires t !in m
    ensures |m[t := v]| == |m| + 1
  {
    assert m[t := v].Keys == m.Keys + {t};
    assert |m[t := v].Keys| == |m[t := v]| && |m.Keys| == |m|;
  }

  lemma MapDrop<V>(m: map<Tid, V>, t: Tid)
    requires t in m
    ensures |m - {t}| == |m| - 1
  {
    assert (m - {t}).Keys == m.Keys - {t};
    assert |(m - {t}).Keys| == |m - {t}| && |m.Keys| == |m|;
  }

  lemma FreeToThreadPartition(g: Nodes, max: nat, t: Tid)
    requires Partition(g, max) && g.free != [] && t !in g.held
    ensures g.free[0] < |g.place| && Partition(FreeToThread(g, t), max)
  {
    TailOf(g.free);
    MapAdd(g.held, t, g.free[0]);
  }

  lemma QueueToThreadPartition(g: Nodes, max: nat, t: Tid, msg: Msg)
    requires Partition(g, max) && g.queue != [] && t !in g.held
    ensures g.queue[0] < |g.place| && Partition(QueueToThread(g, t, msg), max)
  {
    TailOf(g.queue);
    MapAdd(g.held, t, g.queue[0]);
  }

  lemma ThreadToTailPartition(g: Nodes, max: nat, t: Tid)
    requires Partition(g, max) && t in g.held
    ensures g.held[t] < |g.place| && Partition(ThreadToTail(g, t), max)
    ensures |g.queue| < max
  {
    Around(g.queue, g.held[t]);
    MapDrop(g.held, t);
  }

  lemma ThreadToHeadPartition(g: Nodes, max: nat, t: Tid)
    requires Partition(g, max) && t in g.held
    ensures g.held[t] < |g.place| && Partition(ThreadToHead(g, t), max)
    ensures |g.queue| < max
  {
    Around(g.queue, g.held[t]);
    MapDrop(g.held, t);
  }

  lemma ThreadToFreePartition(g: Nodes, max: nat, t: Tid)
    requires Partition(g, max) && t in g.held
    ensures g.held[t] < |g.place| && Partition(ThreadToFree(g, t), max)
  {
    Around(g.free, g.held[t]);
    MapDrop(g.held, t);
  }

  lemma QueueToFreePartition(g: Nodes, max: nat)
    requires Partition(g, max) && g.queue != []
    ensures g.queue[0] < |g.place| && Partition(QueueToFree(g), max)
  {
    TailOf(g.queue);
    Around(g.free, g.queue[0]);
  }

  // ---------- the links ----------

  /** The node that thread `t` holds is on no list and with no other thread. */
  lemma HeldApart(g: Nodes, max: nat, t: Tid)
    requires Partition(g, max) && t in g.held
    ensures t in g.stage && g.held[t] < max && g.held[t] !in g.free && g.held[t] !in g.queue
    ensures forall u :: u in g.held && u != t ==> g.held[u] != g.held[t]
  {
  }

  lemma QueuedApart(g: Nodes, max: nat, i: nat)
    requires Partition(g, max) && i < |g.queue|
    ensures g.queue[i] < max && g.queue[i] !in g.free && Distinct(g.queue)
    ensures forall u :: u in g.held ==> g.held[u] != g.queue[i]
  {
  }

  lemma FreeToThreadRep(g: Nodes, max: nat, next: seq<int>, data: seq<Msg>, head: int, tail: int, freeHead: int, t: Tid)
    requires Rep(g, max, next, data, head, tail, freeHead) && freeHead != NIL && t !in g.held
    ensures g.free != [] && freeHead == g.free[0] < max && |g.place| == max
    ensures Rep(FreeToThread(g, t), max, next, data, head, tail, next[freeHead])
  {
    FreeToThreadPartition(g, max, t);
    Pop(next, freeHead, g.free);
  }

  lemma QueueToThreadRep(g: Nodes, max: nat, next: seq<int>, data: seq<Msg>, head: int, tail: int, freeHead: int,
                         t: Tid)
    requires Rep(g, max, next, data, head, tail, freeHead) && g.queue != [] && t !in g.held
    ensures head == g.queue[0] < max && |g.place| == max
    ensures Rep(QueueToThread(g, t, data[head]), max, next, data, next[head],
                if tail == head then NIL else tail, freeHead)
  {
    Pop(next, head, g.queue);
    QueueToThreadPartition(g, max, t, data[head]);
    LastOfRest(g.queue);
  }

  /** `tail` becomes null exactly when the node taken was the only one. */
  lemma LastOfRest(l: seq<nat>)
    requires l != [] && Distinct(l)
    ensures Last(l[1..]) == if Last(l) == l[0] then NIL else Last(l)
  {
    if |l| > 1 { assert l[0] != l[|l| - 1]; }
  }

  /** When thread `t` gives up its node and the link of `y` is written, the other threads keep theirs. */
  lemma HoldingDrop(held: map<Tid, nat>, stage: map<Tid, Copy>, next: seq<int>, data: seq<Msg>, t: Tid, y: nat, v: int)
    requires Holding(held, stage, next, data) && t in held && t in stage && y < |next|
    requires forall u :: u in held && u != t ==> held[u] != y
    ensures Holding(held - {t}, stage - {t}, next[y := v], data) && Holding(held - {t}, stage - {t}, next, data)
    ensures Holds(held[t], stage[t], next, data)
  {
    forall u | u in held && u in stage && u != t ensures Holds(held[u], stage[u], next[y := v], data) {
      assert Holds(held[u], stage[u], next, data);
    }
  }

  lemma TailLinks(g: Nodes, max: nat, next: seq<int>, head: int, tail: int, freeHead: int, x: nat)
    requires Partition(g, max) && Links(g, next, head, tail, freeHead) && |next| == max
    requires x < max && x !in g.queue && next[x] == NIL
    ensures tail != NIL ==> 0 <= tail < max
    ensures var n := if tail == NIL then next else next[tail := x];
            ListOf(n, freeHead, g.free) && ListOf(n, if head == NIL then x else head, g.queue + [x])
  {
    if g.queue == [] {
      assert After([x], 0) == NIL;
      assert g.queue + [x] == [x];
    } else {
      QueuedApart(g, max, |g.queue| - 1);
      Append(next, head, g.queue, x);
      Frame(next, freeHead, g.free, tail, x);
    }
  }

  lemma ThreadToTailRep(g: Nodes, max: nat, next: seq<int>, data: seq<Msg>, head: int, tail: int, freeHead: int, t: Tid)
    requires Rep(g, max, next, data, head, tail, freeHead) && t in g.held && t in g.stage && g.stage[t].Filled?
    ensures g.held[t] < max && |g.place| == max && |g.queue| < max && data[g.held[t]] == g.stage[t].msg
    ensures tail != NIL ==> 0 <= tail < max
    ensures Rep(ThreadToTail(g, t), max, if tail == NIL then next else next[tail := g.held[t]], data,
                if head == NIL then g.held[t] else head, g.held[t], freeHead)
  {
    var x := g.held[t];
    HeldApart(g, max, t);
    ThreadToTailPartition(g, max, t);
    if g.queue != [] { QueuedApart(g, max, |g.queue| - 1); }
    hide Partition, Holding, ListOf, Distinct;
    HoldingDrop(g.held, g.stage, next, data, t, if tail == NIL then x else tail, x);
    TailLinks(g, max, next, head, tail, freeHead, x);
  }

  lemma ThreadToHeadRep(g: Nodes, max: nat, next: seq<int>, data: seq<Msg>, head: int, tail: int, freeHead: int, t: Tid)
    requires Rep(g, max, next, data, head, tail, freeHead) && t in g.held && t in g.stage && g.stage[t].FilledUrgent?
    ensures g.held[t] < max && |g.place| == max && |g.queue| < max && data[g.held[t]] == g.stage[t].msg
    ensures Rep(ThreadToHead(g, t), max, next[g.held[t] := head], data,
                g.held[t], if tail == NIL then g.held[t] else tail, freeHead)
  {
    var x := g.held[t];
    HeldApart(g, max, t);
    ThreadToHeadPartition(g, max, t);
    hide Partition, Holding, ListOf, Distinct;
    HoldingDrop(g.held, g.stage, next, data, t, x, head);
    Push(next, head, g.queue, x);
    Frame(next, freeHead, g.free, x, head);
  }

  lemma ThreadToFreeRep(g: Nodes, max: nat, next: seq<int>, data: seq<Msg>, head: int, tail: int, freeHead: int, t: Tid)
    requires Rep(g, max, next, data, head, tail, freeHead) && t in g.held
    ensures g.held[t] < max && |g.place| == max
    ensures Rep(ThreadToFree(g, t), max, next[g.held[t] := freeHead], data, head, tail, g.held[t])
  {
    var x := g.held[t];
    HeldApart(g, max, t);
    ThreadToFreePartition(g, max, t);
    hide Partition, Holding, ListOf, Distinct;
    HoldingDrop(g.held, g.stage, next, data, t, x, freeHead);
    Push(next, freeHead, g.free, x);
    Frame(next, head, g.queue, x, freeHead);
  }

  lemma QueueToFreeRep(g: Nodes, max: nat, next: seq<int>, data: seq<Msg>, head: int, tail: int, freeHead: int)
    requires Rep(g, max, next, data, head, tail, freeHead) && head != NIL
    ensures g.queue != [] && head == g.queue[0] < max && |g.place| == max
    ensures Rep(QueueToFree(g), max, next[head := freeHead], data, next[head], if tail == head then NIL else tail, head)
  {
    var x := g.queue[0];
    QueuedApart(g, max, 0);
    QueueToFreePartition(g, max);
    Pop(next, head, g.queue);
    TailOf(g.queue);
    LastOfRest(g.queue);
    Frame(next, next[head], g.queue[1..], x, freeHead);
    Push(next, freeHead, g.free, x);
  }

  lemma HoldingFill(held: map<Tid, nat>, stage: map<Tid, Copy>, next: seq<int>, data: seq<Msg>, t: Tid, msg: Msg)
    requires Holding(held, stage, next, data) && t in held && t in stage && held[t] < |data| == |next|
    requires forall u :: u in held && u != t ==> held[u] != held[t]
    ensures Holding(held, stage[t := Filled(msg)], next[held[t] := NIL], data[held[t] := msg])
    ensures Holding(held, stage[t := FilledUrgent(msg)], next, data[held[t] := msg])
  {
    forall u | u in held && u in stage && u != t
      ensures Holds(held[u], stage[u], next[held[t] := NIL], data[held[t] := msg])
      ensures Holds(held[u], stage[u], next, data[held[t] := msg])
    {
      assert Holds(held[u], stage[u], next, data);
    }
  }

  lemma HeldInRange(g: Nodes, max: nat, next: seq<int>, data: seq<Msg>, head: int, tail: int, freeHead: int, t: Tid)
    requires Rep(g, max, next, data, head, tail, freeHead) && t in g.held
    ensures g.held[t] < max && t in g.stage
  {
  }

  /** Writing into the node of thread `t` touches no list, no queued message and no other thread. */
  lemma FillRep(g: Nodes, max: nat, next: seq<int>, data: seq<Msg>, head: int, tail: int, freeHead: int, t: Tid,
                msg: Msg)
    requires Rep(g, max, next, data, head, tail, freeHead) && t in g.held
    ensures g.held[t] < max
    ensures Rep(g.(stage := g.stage[t := Filled(msg)]), max, next[g.held[t] := NIL], data[g.held[t] := msg], head,
            tail, freeHead)
    ensures Rep(g.(stage := g.stage[t := FilledUrgent(msg)]), max, next, data[g.held[t] := msg], head, tail, freeHead)
    ensures Messages(g.queue, data[g.held[t] := msg]) == Messages(g.queue, data)
  {
    HeldApart(g, max, t);
    FillPartition(g, max, t, Filled(msg));
    FillPartition(g, max, t, FilledUrgent(msg));
    hide Partition, Holding, ListOf, Messages;
    HoldingFill(g.held, g.stage, next, data, t, msg);
    Frame(next, freeHead, g.free, g.held[t], NIL);
    Frame(next, head, g.queue, g.held[t], NIL);
    MessagesFrame(g.queue, data, g.held[t], msg);
  }

  lemma FillPartition(g: Nodes, max: nat, t: Tid, c: Copy)
    requires Partition(g, max) && t in g.held
    ensures Partition(g.(stage := g.stage[t := c]), max)
  {
  }

  // ---------- the messages ----------

  lemma MessagesFrame(queue: seq<nat>, data: seq<Msg>, x: nat, msg: Msg)
    requires x < |data| && x !in queue
    ensures Messages(queue, data[x := msg]) == Messages(queue, data)
  {
    var a, b := Messages(queue, data[x := msg]), Messages(queue, data);
    forall i | 0 <= i < |queue| ensures a[i] == b[i] {
      assert queue[i] in queue;
    }
  }

  lemma MessagesEnds(queue: seq<nat>, data: seq<Msg>, x: nat)
    requires x < |data|
    ensures Messages(queue + [x], data) == Messages(queue, data) + [data[x]]
    ensures Messages([x] + queue, data) == [data[x]] + Messages(queue, data)
  {
    assert Messages(queue + [x], data) == Messages(queue, data) + [data[x]];
    assert Messages([x] + queue, data) == [data[x]] + Messages(queue, data);
  }

  lemma MessagesRest(queue: seq<nat>, data: seq<Msg>)
    requires queue != [] && queue[0] < |data|
    ensures Messages(queue, data) == [data[queue[0]]] + Messages(queue[1..], data)
  {
    assert queue == [queue[0]] + queue[1..];
    MessagesEnds(queue[1..], data, queue[0]);
  }

  class Queue {
    const maxMsgs: nat
    const msgSize: nat
    const next: array<int>
    const data: array<Msg>
    const flag: Flag
    const prio: Tid -> nat
    var head: int
    var tail: int
    var freeHead: int
    var entry: nat
    var receivers: seq<Tid>
    var senders: seq<Tid>
    ghost var wokenR: set<Tid>
    ghost var wokenS: set<Tid>
    ghost var g: Nodes

    ghost predicate Valid()
      reads this, next, data
    {
      && next.Length == data.Length == maxMsgs <= ENTRY_MAX
      && Rep(g, maxMsgs, next[..], data[..], head, tail, freeHead)
      && entry == |g.queue|
      && (forall n :: 0 <= n < |data[..]| ==> |data[..][n]| == msgSize)
    }

    ghost function View(): State
      reads this, next, data
    {
      State(maxMsgs, |g.free|, Messages(g.queue, data[..]), g.stage, receivers, senders, wokenR, wokenS)
    }

    /** rt_mq_init: as many nodes as the pool has room for are pushed one by one on the free list.
        Both the message size, rounded up, and the number of nodes are narrowed to sixteen bits. */
    constructor (poolSize: nat, size: nat, flag: Flag, prio: Tid -> nat)
      ensures Valid() && View() == Initial(maxMsgs)
      ensures msgSize == MessageSize(size) && maxMsgs == NodeCount(poolSize, msgSize)
              && InPool(maxMsgs, msgSize, poolSize)
      ensures this.flag == flag && this.prio == prio && fresh(next) && fresh(data)
    {
      hide MessageSize, NodeCount, InPool, Rep, ListOf;
      var msgSize := MessageSize(size);
      var maxMsgs := NodeCount(poolSize, msgSize);
      NodesFit(poolSize, msgSize);
      this.maxMsgs, this.msgSize, this.flag, this.prio := maxMsgs, msgSize, flag, prio;
      next := new int[maxMsgs];
      data := new Msg[maxMsgs](_ => seq(msgSize, _ => 0));
      head, tail, freeHead, entry := NIL, NIL, NIL, 0;
      receivers, senders, wokenR, wokenS := [], [], {}, {};
      g := Nodes(seq(maxMsgs, _ => InFree), [], [], map[], map[]);
      new;
      ghost var free;
      freeHead, free := PushAll(next);
      g := g.(free := free);
      AllFree(g, maxMsgs, next[..], data[..], freeHead);
    }

    /** Take the first node of the free list, for a sender. */
    method PopFree(t: Tid) returns (msg: nat)
      requires Valid() && freeHead != NIL && t !in g.held
      modifies this`freeHead, this`g
      ensures Valid() && t in g.held && g.held[t] == msg
      ensures View() == old(View()).(free := old(View()).free - 1, copying := old(View()).copying[t := Filling])
      ensures old(View()).free > 0
    {
      hide Rep, Messages;
      FreeToThreadRep(g, maxMsgs, next[..], data[..], head, tail, freeHead, t);
      msg := freeHead;
      freeHead := next[msg];
      g := FreeToThread(g, t);
    }

    /** Second half of rt_mq_send_wait up to the wakeup: link the node at the tail. */
    method AppendNode(t: Tid, msg: nat)
      requires Valid() && t in g.held && t in g.stage && g.held[t] == msg && g.stage[t].Filled?
      modifies next, this`head, this`tail, this`entry, this`g
      ensures Valid()
      ensures View() ==
              old(View()).(msgs := old(View()).msgs + [old(g).stage[t].msg], copying := old(View()).copying - {t})
    {
      hide Rep, Messages;
      ThreadToTailRep(g, maxMsgs, next[..], data[..], head, tail, freeHead, t);
      MessagesEnds(g.queue, data[..], msg);
      ghost var w: seq<int> := next[..];
      if tail != NIL {
        next[tail] := msg;
      }
      assert next[..] == if tail == NIL then w else w[tail := msg];
      tail := msg;
      if head == NIL { head := msg; }
      assert entry < ENTRY_MAX;
      entry := entry + 1;
      g := ThreadToTail(g, t);
    }

    /** First half of rt_mq_send_wait, for a message of `size` bytes. */
    method SendSection(t: Tid, size: nat, timeout: int) returns (r: Outcome, msg: nat)
      requires Valid() && t !in g.held
      modifies this`freeHead, this`g, this`senders
      ensures Valid()
      ensures if size > msgSize then r == Error && View() == old(View())
              else (View(), r) == SendTake(old(View()), t, timeout, flag, prio)
      ensures r.Taken? ==> t in g.held && g.held[t] == msg
    {
      hide Messages, Partition, Holding, ListOf;
      if size > msgSize { return Error, 0; }
      if freeHead == NIL {
        EmptyList(next[..], freeHead, g.free);
        if timeout == 0 { return Full, 0; }
        senders := Suspend(senders, t, flag, prio);
        return Blocked, 0;
      }
      msg := PopFree(t);
      r := Taken;
    }

    /** A resumed sender goes on: its timeout is reduced by the ticks it waited, then it tries again. */
    method SendResumed(t: Tid, timeout: int, elapsed: nat) returns (r: Outcome, msg: nat)
      requires Valid() && t !in g.held && t in wokenS
      modifies this`freeHead, this`g, this`senders, this`wokenS
      ensures Valid() && (View(), r) == Step(old(View()), SendAgain(t, timeout, elapsed), flag, prio)
      ensures r.Taken? ==> t in g.held && g.held[t] == msg
    {
      hide Messages, Rep;
      wokenS := wokenS - {t};
      var left := timeout;
      if left > 0 {
        left := left - elapsed;
        if left < 0 { left := 0; }
      }
      r, msg := SendSection(t, 0, left);
    }

    /** First half of rt_mq_urgent. */
    method UrgentSection(t: Tid, size: nat) returns (r: Outcome, msg: nat)
      requires Valid() && t !in g.held
      modifies this`freeHead, this`g
      ensures Valid()
      ensures if size > msgSize then r == Error && View() == old(View())
              else (View(), r) == UrgentTake(old(View()), t)
      ensures r.Taken? ==> t in g.held && g.held[t] == msg
    {
      hide Messages, Partition, Holding, ListOf;
      if size > msgSize { return Error, 0; }
      if freeHead == NIL {
        EmptyList(next[..], freeHead, g.free);
        return Full, 0;
      }
      msg := PopFree(t);
      r := Taken;
    }

    /** The copy of rt_mq_send_wait, which also makes the node the last of a list, and of
        rt_mq_urgent.  Bytes behind the message keep their old values. */
    method Copy(t: Tid, msg: nat, buffer: Msg, urgent: bool)
      requires Valid() && t in g.held && t in g.stage && g.held[t] == msg && g.stage[t].Filling? && |buffer| <= msgSize
      modifies next, data, this`g
      ensures Valid() && msg < |old(data[..])|
      ensures var m := buffer + old(data[..])[msg][|buffer|..];
              View() == Step(old(View()), if urgent then FillUrgent(t, m) else Fill(t, m), flag, prio).0
    {
      hide Rep, Messages;
      HeldInRange(g, maxMsgs, next[..], data[..], head, tail, freeHead, t);
      FillRep(g, maxMsgs, next[..], data[..], head, tail, freeHead, t, buffer + data[..][msg][|buffer|..]);
      ghost var d: seq<Msg>, w: seq<int> := data[..], next[..];
      if !urgent {
        next[msg] := NIL;
        assert next[..] == w[msg := NIL];
      }
      data[msg] := buffer + data[msg][|buffer|..];
      assert data[..] == d[msg := data[msg]];
      g := g.(stage := g.stage[t := if urgent then FilledUrgent(data[msg]) else Filled(data[msg])]);
    }

    /** rt_ipc_list_resume on the list of receivers. */
    method ResumeReceiver()
      requires Valid()
      modifies this`receivers, this`wokenR
      ensures Valid() && View() == WakeReceiver(old(View()))
    {
      hide Rep, Messages;
      if receivers != [] {
        wokenR := wokenR + {receivers[0]};
        receivers := receivers[1..];
      }
    }

    method ResumeSender()
      requires Valid()
      modifies this`senders, this`wokenS
      ensures Valid() && View() == WakeSender(old(View()))
    {
      hide Rep, Messages;
      if senders != [] {
        wokenS := wokenS + {senders[0]};
        senders := senders[1..];
      }
    }

    /** Second half of rt_mq_send_wait. */
    method LinkSection(t: Tid, msg: nat)
      requires Valid() && t in g.held && t in g.stage && g.held[t] == msg && g.stage[t].Filled?
      modifies next, this`head, this`tail, this`entry, this`g, this`receivers, this`wokenR
      ensures Valid() && View() == AtTail(old(View()), t, old(g).stage[t].msg)
    {
      hide Rep, Messages;
      AppendNode(t, msg);
      ResumeReceiver();
    }

    /** Second half of rt_mq_urgent up to the wakeup: link the node at the head. */
    method PrependNode(t: Tid, msg: nat)
      requires Valid() && t in g.held && t in g.stage && g.held[t] == msg && g.stage[t].FilledUrgent?
      modifies next, this`head, this`tail, this`entry, this`g
      ensures Valid()
      ensures View() ==
              old(View()).(msgs := [old(g).stage[t].msg] + old(View()).msgs, copying := old(View()).copying - {t})
    {
      hide Rep, Messages;
      ThreadToHeadRep(g, maxMsgs, next[..], data[..], head, tail, freeHead, t);
      MessagesEnds(g.queue, data[..], msg);
      ghost var w: seq<int> := next[..];
      next[msg] := head;
      assert next[..] == w[msg := head];
      head := msg;
      if tail == NIL { tail := msg; }
      assert entry < ENTRY_MAX;
      entry := entry + 1;
      g := ThreadToHead(g, t);
    }

    /** Second half of rt_mq_urgent. */
    method LinkUrgentSection(t: Tid, msg: nat)
      requires Valid() && t in g.held && t in g.stage && g.held[t] == msg && g.stage[t].FilledUrgent?
      modifies next, this`head, this`tail, this`entry, this`g, this`receivers, this`wokenR
      ensures Valid() && View() == AtHead(old(View()), t, old(g).stage[t].msg)
    {
      hide Rep, Messages;
      PrependNode(t, msg);
      ResumeReceiver();
    }

    /** First half of rt_mq_recv. */
    method RecvSection(t: Tid, timeout: int) returns (r: Outcome, msg: nat)
      requires Valid() && t !in g.held
      modifies this`head, this`tail, this`entry, this`g, this`receivers
      ensures Valid() && (View(), r) == RecvTake(old(View()), t, timeout, flag, prio)
      ensures r.Received? ==> t in g.held && g.held[t] == msg
    {
      hide Rep;
      if entry == 0 {
        if timeout == 0 { return Timeout, 0; }
        receivers := Suspend(receivers, t, flag, prio);
        return Blocked, 0;
      }
      hide Messages;
      QueueToThreadRep(g, maxMsgs, next[..], data[..], head, tail, freeHead, t);
      MessagesRest(g.queue, data[..]);
      msg := head;
      head := next[msg];
      if tail == msg { tail := NIL; }
      entry := entry - 1;
      r := Received(data[msg]);
      g := QueueToThread(g, t, data[msg]);
    }

    /** A resumed receiver goes on. */
    method RecvResumed(t: Tid, timeout: int, elapsed: nat) returns (r: Outcome, msg: nat)
      requires Valid() && t !in g.held && t in wokenR
      modifies this`head, this`tail, this`entry, this`g, this`receivers, this`wokenR
      ensures Valid() && (View(), r) == Step(old(View()), RecvAgain(t, timeout, elapsed), flag, prio)
      ensures r.Received? ==> t in g.held && g.held[t] == msg
    {
      hide Messages, Rep;
      wokenR := wokenR - {t};
      var left := timeout;
      if left > 0 {
        left := left - elapsed;
        if left < 0 { left := 0; }
      }
      r, msg := RecvSection(t, left);
    }

    /** The copy of rt_mq_recv, with interrupts on: the receiver gets the message it took, whatever
        other threads have done meanwhile. */
    method CopyOut(t: Tid, msg: nat, size: nat) returns (buffer: Msg)
      requires Valid() && t in g.held && t in g.stage && g.held[t] == msg && g.stage[t].Emptying?
      ensures |g.stage[t].msg| == msgSize
      ensures buffer == g.stage[t].msg[..if size > msgSize then msgSize else size]
    {
      HeldApart(g, maxMsgs, t);
      hide Partition, Links;
      assert Holds(msg, g.stage[t], next[..], data[..]);
      assert |data[..][msg]| == msgSize;
      buffer := data[msg][..if size > msgSize then msgSize else size];
    }

    /** Second half of rt_mq_recv. */
    method PutBackSection(t: Tid, msg: nat)
      requires Valid() && t in g.held && t in g.stage && g.held[t] == msg && g.stage[t].Emptying?
      modifies next, this`freeHead, this`g, this`senders, this`wokenS
      ensures Valid() && View() == Returned(old(View()), t)
    {
      hide Rep, Messages;
      ThreadToFreeRep(g, maxMsgs, next[..], data[..], head, tail, freeHead, t);
      ghost var w: seq<int> := next[..];
      next[msg] := freeHead;
      assert next[..] == w[msg := freeHead];
      freeHead := msg;
      g := ThreadToFree(g, t);
      ResumeSender();
    }

    /** rt_mq_control, RT_IPC_CMD_RESET */
    method ResetSection()
      requires Valid()
      modifies next, this`head, this`tail, this`freeHead, this`entry, this`g, this`receivers, this`senders
      ensures Valid() && View() == Step(old(View()), Reset, flag, prio).0
    {
      hide Partition, Holding, Messages;
      receivers, senders := [], [];
      while head != NIL
        invariant next.Length == data.Length == maxMsgs && Rep(g, maxMsgs, next[..], data[..], head, tail, freeHead)
        invariant receivers == senders == [] && g.stage == old(g.stage) && unchanged(this`entry)
        invariant |g.free| + |g.queue| == old(|g.free| + |g.queue|)
        decreases |g.queue|
      {
        QueueToFreeRep(g, maxMsgs, next[..], data[..], head, tail, freeHead);
        var msg := head;
        head := next[msg];
        if tail == msg { tail := NIL; }
        ghost var w: seq<int> := next[..];
        next[msg] := freeHead;
        assert next[..] == w[msg := freeHead];
        freeHead := msg;
        g := QueueToFree(g);
      }
      EmptyList(next[..], head, g.queue);
      NoMessages(data[..]);
      entry := 0;
    }
  }

  /** The loop of rt_mq_init. */
  method PushAll(next: array<int>) returns (freeHead: int, ghost free: seq<nat>)
    modifies next
    ensures ListOf(next[..], freeHead, free) && Distinct(free) && |free| == next.Length
    ensures forall n: nat :: n in free <==> n < next.Length
  {
    freeHead, free := NIL, [];
    for k := 0 to next.Length
      invariant ListOf(next[..], freeHead, free) && Distinct(free) && |free| == k
      invariant forall n: nat :: n in free <==> n < k
    {
      Push(next[..], freeHead, free, k);
      ghost var w: seq<int> := next[..];
      next[k] := freeHead;
      assert next[..] == w[k := freeHead];
      freeHead := k;
      free := [k] + free;
    }
  }

  lemma AllFree(g: Nodes, max: nat, next: seq<int>, data: seq<Msg>, freeHead: int)
    requires |next| == |data| == max && ListOf(next, freeHead, g.free) && Distinct(g.free) && |g.free| == max
    requires (forall n: nat :: n in g.free <==> n < max) && g.queue == [] && g.held == map[] && g.stage == map[]
    requires |g.place| == max && forall n :: 0 <= n < max ==> g.place[n] == InFree
    ensures Rep(g, max, next, data, NIL, NIL, freeHead) && Messages(g.queue, data) == []
  {
  }

  lemma EmptyList(next: seq<int>, head: int, l: seq<nat>)
    requires ListOf(next, head, l) && head == NIL
    ensures l == []
  {
  }

  lemma NoMessages(data: seq<Msg>)
    ensures Messages([], data) == []
  {
  }
}
