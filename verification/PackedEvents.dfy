/** Many logical events in one kernel event: each bit of a kernel event that is used only by setting
    a single bit and by waiting for a single bit with RT_EVENT_FLAG_AND | RT_EVENT_FLAG_CLEAR behaves
    like an auto-reset flag of its own. */
module PackedSpec {
  import opened Lists
  import opened IpcList
  import opened EventSpec

  /** CompactedEventSet::N */
  const N: nat := 32

  /** An independent auto-reset flag with its own queue: the reference that a bit refines. */
  datatype AutoReset = AutoReset(isSet: bool, queue: seq<Tid>)

  function Raise(f: AutoReset): AutoReset {
    if f.queue == [] then AutoReset(true, []) else AutoReset(f.isSet, f.queue[1..])
  }

  function Await(f: AutoReset, t: Tid, timeout: int): AutoReset {
    if f.isSet then AutoReset(false, f.queue)
    else if timeout == 0 then f
    else AutoReset(false, f.queue + [t])
  }

  function GiveUp(f: AutoReset, t: Tid): AutoReset {
    AutoReset(f.isSet, Without(f.queue, t))
  }

  /** What a thread asks for in CompactedEventSet::wait. */
  function Want(b: nat): Info {
    Info({b}, Option(true, false, true))
  }

  /** The threads of a list that `keep` picks, in their order. */
  function Select(l: seq<Tid>, keep: Tid -> bool): seq<Tid> {
    if l == [] then [] else if keep(l[0]) then [l[0]] + Select(l[1..], keep) else Select(l[1..], keep)
  }

  function WaitsFor(info: seq<Info>, b: nat): Tid -> bool {
    (t: Tid) => t < |info| && info[t] == Want(b)
  }

  function WaitersOf(l: seq<Tid>, info: seq<Info>, b: nat): seq<Tid> {
    Select(l, WaitsFor(info, b))
  }

  /** Bit `b` of the kernel event as a flag of its own. */
  function Bit(s: State, b: nat): AutoReset {
    AutoReset(b in s.flags, WaitersOf(s.waiters, s.info, b))
  }

  /** Every waiter of the kernel event waits for one of its N bits. */
  ghost predicate Packed(s: State) {
    Inv(s) && forall t :: t in s.waiters ==> exists b: nat :: b < N && s.info[t] == Want(b)
  }

  // ---------- lists ----------

  lemma {:induction false} SelectIn(l: seq<Tid>, f: Tid -> bool, t: Tid)
    ensures t in Select(l, f) <==> t in l && f(t)
  {
    if l != [] {
      assert l == [l[0]] + l[1..];
      SelectIn(l[1..], f, t);
    }
  }

  lemma {:induction false} SelectSame(l: seq<Tid>, f: Tid -> bool, g: Tid -> bool)
    requires forall t :: t in l ==> f(t) == g(t)
    ensures Select(l, f) == Select(l, g)
  {
    if l != [] {
      assert l[0] in l;
      SelectSame(l[1..], f, g);
    }
  }

  lemma {:induction false} SelectAppend(l: seq<Tid>, t: Tid, f: Tid -> bool)
    ensures Select(l + [t], f) == Select(l, f) + if f(t) then [t] else []
  {
    if l == [] {
      assert Select([t][1..], f) == [];
    } else {
      assert (l + [t])[1..] == l[1..] + [t];
      SelectAppend(l[1..], t, f);
    }
  }

  lemma {:induction false} SelectRemove(l: seq<Tid>, t: Tid, f: Tid -> bool)
    requires t in l
    ensures Select(Without(l, t), f) == if f(t) then Without(Select(l, f), t) else Select(l, f)
  {
    if l[0] != t {
      SelectRemove(l[1..], t, f);
      var r := Without(l[1..], t);
      assert ([l[0]] + r)[1..] == r;
    }
    if f(l[0]) {
      var q := Select(l[1..], f);
      assert ([l[0]] + q)[1..] == q;
    }
  }

  // ---------- one bit against the whole event ----------

  /** The scan after bit `b` has been set serves the first thread that waits for `b`, takes the bit
      back, and does nothing else. */
  lemma {:induction false} ScanOne(s: Flags, l: seq<Tid>, info: seq<Info>, b: nat)
    requires Distinct(l) && Known(l, info)
    requires forall t :: t in l ==> exists c: nat :: info[t] == Want(c) && (c !in s || c == b)
    ensures var q := WaitersOf(l, info, b);
            ScanList(s, l, info) ==
            if b in s && q != [] then Scan(s - {b}, Without(l, q[0]), [q[0]], info) else Scan(s, l, [], info)
  {
    if l != [] {
      assert l[0] in l;
      var t, i := l[0], info[l[0]];
      KnownTail(l, info, Info(Got(i, s), i.option));
      assert l == [t] + l[1..] && forall u :: u in l[1..] ==> u in l;
      var c: nat :| info[t] == Want(c) && (c !in s || c == b);
      assert Satisfied(i, s) <==> c in s by {
        assert c in i.flags;
        assert c in s ==> s * i.flags == i.flags;
      }
      var q, rest := WaitersOf(l, info, b), WaitersOf(l[1..], info, b);
      assert b in s ==> (info[t] == Want(b) <==> c in s) by { assert b == c || b !in Want(c).flags; }
      hide Satisfied, Known;
      if c in s {
        assert q[0] == t && Got(i, s) == i.flags && s - i.flags == s - {b};
        assert info[t := Info(i.flags, i.option)] == info;
        ScanOne(s - {b}, l[1..], info, b);
      } else {
        ScanOne(s, l[1..], info, b);
        if b in s && rest != [] {
          SelectIn(l[1..], WaitsFor(info, b), rest[0]);
          assert q == rest && q[0] != t;
        }
      }
    }
  }

  /** Setting a bit: that flag is raised, which resumes at most one thread, the one that has waited
      for the bit longest; every other bit keeps its value and its waiters. */
  lemma SetRefines(s: State, b: nat)
    requires Packed(s) && b < N
    ensures var d := Send(s, {b}).0;
            Packed(d) && Bit(d, b) == Raise(Bit(s, b)) && forall c: nat :: c != b ==> Bit(d, c) == Bit(s, c)
    ensures ScanList(s.flags + {b}, s.waiters, s.info).woken ==
            if Bit(s, b).queue == [] then [] else [Bit(s, b).queue[0]]
    ensures Send(s, {b}).0.info == s.info && forall t :: t in Send(s, {b}).0.waiters ==> t in s.waiters
  {
    var l, info, q := s.waiters, s.info, Bit(s, b).queue;
    SendInv(s, {b});
    forall t | t in l ensures exists c: nat :: info[t] == Want(c) && (c !in s.flags + {b} || c == b) {
      var c: nat :| c < N && info[t] == Want(c);
      NotThere(info[t], c, s.flags);
    }
    ScanOne(s.flags + {b}, l, info, b);
    assert b in s.flags ==> q == [] by {
      if q != [] {
        SelectIn(l, WaitsFor(info, b), q[0]);
        NotThere(info[q[0]], b, s.flags);
      }
    }
    if q == [] {
      forall c: nat | c != b ensures Bit(Send(s, {b}).0, c) == Bit(s, c) {}
    } else {
      SelectIn(l, WaitsFor(info, b), q[0]);
      RemoveKeeps(l, q[0]);
      var d := Send(s, {b}).0;
      assert d == State(s.flags, Without(l, q[0]), info) by { assert s.flags + {b} - {b} == s.flags; }
      SelectRemove(l, q[0], WaitsFor(info, b));
      forall c: nat | c != b ensures Bit(d, c) == Bit(s, c) {
        assert b !in Want(c).flags && b in Want(b).flags;
        SelectRemove(l, q[0], WaitsFor(info, c));
      }
    }
  }

  lemma NotThere(i: Info, c: nat, f: Flags)
    requires i == Want(c)
    ensures Satisfied(i, f) <==> c in f
  {
    assert c in i.flags;
    assert c in f ==> f * i.flags == i.flags;
  }

  /** Waiting for a bit takes it when it is set, and otherwise joins the end of its queue; the other
      bits are not involved. */
  lemma WaitRefines(s: State, t: Tid, b: nat, timeout: int, prio: Tid -> nat)
    requires Packed(s) && b < N && t < |s.info| && t !in s.waiters
    ensures var (d, r) := Recv(s, t, Want(b), timeout, Fifo, prio);
            && Packed(d) && Bit(d, b) == Await(Bit(s, b), t, timeout)
            && (forall c: nat :: c != b ==> Bit(d, c) == Bit(s, c))
            && r == if b in s.flags then Received({b}) else if timeout == 0 then Timeout else Blocked
  {
    var (d, r) := Recv(s, t, Want(b), timeout, Fifo, prio);
    RecvInv(s, t, Want(b), timeout, Fifo, prio);
    NotThere(Want(b), b, s.flags);
    assert Want(b).flags == {b} && (b in s.flags ==> s.flags * {b} == {b});
    forall c: nat ensures Bit(d, c) == if c == b then Await(Bit(s, b), t, timeout) else Bit(s, c) {
      SelectSame(s.waiters, WaitsFor(s.info, c), WaitsFor(d.info, c));
      if b !in s.flags && timeout != 0 {
        assert Insert(s.waiters, t, Fifo, prio) == s.waiters + [t];
        assert b !in Want(c).flags || b == c;
        SelectAppend(s.waiters, t, WaitsFor(d.info, c));
      }
    }
    forall u | u in d.waiters ensures exists b': nat :: b' < N && d.info[u] == Want(b') {
      if u !in s.waiters { assert u == t; }
    }
  }

  lemma ExpireRefines(s: State, t: Tid, b: nat)
    requires Packed(s) && t in s.waiters && s.info[t] == Want(b)
    ensures var d := s.(waiters := Without(s.waiters, t));
            Packed(d) && Bit(d, b) == GiveUp(Bit(s, b), t) && forall c: nat :: c != b ==> Bit(d, c) == Bit(s, c)
  {
    RemoveKeeps(s.waiters, t);
    forall c: nat
      ensures Bit(s.(waiters := Without(s.waiters, t)), c) == if c == b then GiveUp(Bit(s, b), t) else Bit(s, c)
    {
      assert b !in Want(c).flags || b == c;
      SelectRemove(s.waiters, t, WaitsFor(s.info, c));
    }
  }

  // ---------- runs ----------

  datatype Action =
    | SetBit(b: nat)
    | WaitBit(t: Tid, b: nat, timeout: int)
    | ExpireBit(t: Tid, b: nat)

  /** The step of the flag that the action is about. */
  function FlagStep(f: AutoReset, a: Action): AutoReset {
    match a
    case SetBit(_) => Raise(f)
    case WaitBit(t, _, timeout) => Await(f, t, timeout)
    case ExpireBit(t, _) => GiveUp(f, t)
  }

  ghost predicate Allowed(s: State, a: Action) {
    match a
    case SetBit(b) => b < N
    case WaitBit(t, b, _) => b < N && t < |s.info| && t !in s.waiters
    case ExpireBit(t, b) => t in s.waiters && t < |s.info| && s.info[t] == Want(b)
  }

  ghost function KernelStep(s: State, a: Action, prio: Tid -> nat): State
    requires Packed(s) && Allowed(s, a)
  {
    match a
    case SetBit(b) => Send(s, {b}).0
    case WaitBit(t, b, timeout) => Recv(s, t, Want(b), timeout, Fifo, prio).0
    case ExpireBit(t, _) => s.(waiters := Without(s.waiters, t))
  }

  lemma StepRefines(s: State, a: Action, prio: Tid -> nat)
    requires Packed(s) && Allowed(s, a)
    ensures Packed(KernelStep(s, a, prio))
    ensures forall c: nat :: Bit(KernelStep(s, a, prio), c) == if c == a.b then FlagStep(Bit(s, c), a) else Bit(s, c)
  {
    match a
    case SetBit(b) => SetRefines(s, b);
    case WaitBit(t, b, timeout) => WaitRefines(s, t, b, timeout, prio);
    case ExpireBit(t, b) => ExpireRefines(s, t, b);
  }

  /** A run of the kernel event whose events use only single bits. */
  ghost predicate Run(ss: seq<State>, acts: seq<Action>, prio: Tid -> nat) {
    && |ss| == |acts| + 1 && ss[0].flags == {} && ss[0].waiters == []
    && forall k :: 0 <= k < |acts| ==> Follows(ss, acts, prio, k)
  }

  ghost predicate Follows(ss: seq<State>, acts: seq<Action>, prio: Tid -> nat, k: int)
    requires 0 <= k < |acts| && |ss| == |acts| + 1
  {
    Packed(ss[k]) ==> Allowed(ss[k], acts[k]) && ss[k + 1] == KernelStep(ss[k], acts[k], prio)
  }

  /** Flag `b` alone, under only those actions of the run that are about it. */
  function Alone(acts: seq<Action>, b: nat): AutoReset {
    if acts == [] then AutoReset(false, [])
    else
      var n := |acts| - 1;
      if acts[n].b == b then FlagStep(Alone(acts[..n], b), acts[n]) else Alone(acts[..n], b)
  }

  /** In every run each bit is exactly where it would be as an independent flag: what happens to other
      bits of the same kernel event makes no difference to it. */
  lemma {:induction false} RunRefines(ss: seq<State>, acts: seq<Action>, prio: Tid -> nat, b: nat, k: nat)
    requires Run(ss, acts, prio) && k <= |acts|
    ensures Packed(ss[k]) && Bit(ss[k], b) == Alone(acts[..k], b)
  {
    if k > 0 {
      RunRefines(ss, acts, prio, b, k - 1);
      assert Follows(ss, acts, prio, k - 1);
      StepRefines(ss[k - 1], acts[k - 1], prio);
      assert acts[..k][..k - 1] == acts[..k - 1];
    }
  }
}
