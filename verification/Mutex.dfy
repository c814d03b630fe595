/** The mutex of ipc.c with priority inheritance.  A smaller number is a higher priority.  One mutex
    is considered, and its use is the only source of priority changes: `base` is the priority a
    thread has on its own. */
module MutexSpec {
  import opened Lists
  import opened IpcList

  /** RT_MUTEX_HOLD_MAX, RT_MUTEX_VALUE_MAX */
  const HOLD_MAX: nat := 0xFF
  const VALUE_MAX: nat := 0xFFFF

  const NOBODY: int := -1
  const NO_PRIORITY: nat := 0xFF

  datatype State = State(
    value: nat,
    hold: nat,
    original: nat,
    owner: int,
    waiters: seq<Tid>,
    prio: seq<nat>)

  datatype Outcome = Done | Full | Timeout | Blocked | NotOwner

  /** The current priorities as a function. */
  function Of(prio: seq<nat>): Tid -> nat {
    (t: Tid) => if t < |prio| then prio[t] else 0
  }

  predicate Thread(s: State, t: int) {
    0 <= t < |s.prio|
  }

  /** The owner inherits the priority of a thread that is about to wait. */
  function Raised(s: State, t: Tid): seq<nat>
    requires Thread(s, t) && Thread(s, s.owner)
  {
    if s.prio[t] < s.prio[s.owner] then s.prio[s.owner := s.prio[t]] else s.prio
  }

  /** rt_mutex_take, with interrupts off. */
  function Take(s: State, t: Tid, time: int, flag: Flag): (State, Outcome)
    requires Thread(s, t) && (s.owner == NOBODY || Thread(s, s.owner))
  {
    if s.owner == t then
      (if s.hold < HOLD_MAX then (s.(hold := s.hold + 1), Done) else (s, Full))
    else if s.value > 0 then
      var taken := s.(value := s.value - 1, owner := t, original := s.prio[t]);
      (if s.hold < HOLD_MAX then (taken.(hold := s.hold + 1), Done) else (taken, Full))
    else if time == 0 || s.owner == NOBODY then (s, Timeout)
    else
      (s.(prio := Raised(s, t), waiters := Insert(s.waiters, t, flag, Of(Raised(s, t)))), Blocked)
  }

  /** rt_mutex_release, with interrupts off.  (An owner always holds the mutex at least once.) */
  function Release(s: State, t: Tid, flag: Flag): (State, Outcome)
    requires Thread(s, t) && (forall w :: w in s.waiters ==> Thread(s, w))
  {
    if s.owner != t || s.hold == 0 then (s, NotOwner)
    else if s.hold > 1 then (s.(hold := s.hold - 1), Done)
    else
      var restored := s.prio[t := s.original];
      if s.waiters != [] then
        var next := s.waiters[0];
        assert next in s.waiters && Thread(s, next);
        var most := Highest(s.waiters, Of(restored));
        var raised := if flag == Fifo && restored[next] != most then restored[next := most] else restored;
        (s.(owner := next, original := restored[next], prio := raised, hold := 1, waiters := s.waiters[1..]), Done)
      else if s.value < VALUE_MAX then
        (s.(value := s.value + 1, owner := NOBODY, original := NO_PRIORITY, prio := restored, hold := 0), Done)
      else (s.(prio := restored, hold := 0), Full)
  }

  datatype Action =
    | TakeIt(t: Tid, time: int)
    | ReleaseIt(t: Tid)
    | Expire(t: Tid)      // the timer of a waiting thread

  predicate Enabled(s: State, a: Action) {
    match a
    case TakeIt(t, _) => Thread(s, t) && t !in s.waiters
    case ReleaseIt(t) => Thread(s, t) && t !in s.waiters
    case Expire(t) => t in s.waiters
  }

  ghost function Step(s: State, a: Action, flag: Flag, base: seq<nat>): (State, Outcome)
    requires Inv(s, flag, base) && Enabled(s, a)
  {
    match a
    case TakeIt(t, time) => Take(s, t, time, flag)
    case ReleaseIt(t) => Release(s, t, flag)
    case Expire(t) => (s.(waiters := Without(s.waiters, t)), Timeout)
  }

  function Initial(base: seq<nat>): State {
    State(1, 0, NO_PRIORITY, NOBODY, [], base)
  }

  /** The mutex is owned exactly when its value is 0 and exactly when it is held; only then threads
      wait for it, and the owner, which does not wait, runs at a priority at least as high as its own
      and that of every waiting thread.  All other threads have their own priority. */
  ghost predicate Inv(s: State, flag: Flag, base: seq<nat>) {
    && Ownership(s, base)
    && Waiting(s.waiters, s.owner, if s.owner == NOBODY then 0 else s.prio[s.owner], flag, base)
  }

  ghost predicate Ownership(s: State, base: seq<nat>) {
    && |s.prio| == |base| && (forall t :: 0 <= t < |base| ==> base[t] < PRIORITY_MAX)
    && s.value <= 1 && s.hold <= HOLD_MAX
    && (s.owner == NOBODY <==> s.value == 1) && (s.owner == NOBODY <==> s.hold == 0)
    && (s.owner == NOBODY ==> s.waiters == [])
    && (forall t :: 0 <= t < |base| && t != s.owner ==> s.prio[t] == base[t])
    && (s.owner != NOBODY ==>
          Thread(s, s.owner) && s.original == base[s.owner] && s.prio[s.owner] <= base[s.owner])
  }

  /** The waiting list of a mutex whose owner runs at priority `p`. */
  ghost predicate Waiting(l: seq<Tid>, owner: int, p: nat, flag: Flag, base: seq<nat>) {
    && Distinct(l)
    && (forall w :: w in l ==> w < |base| && w != owner && p <= base[w])
    && (flag == Prio ==> Sorted(l, Of(base)))
  }

  /** Priorities of other threads do not matter for the order of a list. */
  lemma {:induction false} PlaceSame(list: seq<Tid>, p: nat, f: Tid -> nat, g: Tid -> nat)
    requires forall w :: w in list ==> f(w) == g(w)
    ensures Place(list, p, f) == Place(list, p, g)
  {
    if list != [] {
      assert list[0] in list;
      PlaceSame(list[1..], p, f, g);
    }
  }

  lemma {:induction false} HighestSame(list: seq<Tid>, f: Tid -> nat, g: Tid -> nat)
    requires forall w :: w in list ==> f(w) == g(w)
    ensures Highest(list, f) == Highest(list, g)
  {
    if list != [] {
      var n := |list| - 1;
      assert list == list[..n] + [list[n]];
      assert list[n] in list;
      HighestSame(list[..n], f, g);
    }
  }

  lemma InsertSame(list: seq<Tid>, t: Tid, flag: Flag, f: Tid -> nat, g: Tid -> nat)
    requires (forall w :: w in list ==> f(w) == g(w)) && f(t) == g(t)
    ensures Insert(list, t, flag, f) == Insert(list, t, flag, g)
  {
    PlaceSame(list, f(t), f, g);
  }

  lemma WaitingInsert(l: seq<Tid>, owner: int, p: nat, q: nat, t: Tid, flag: Flag, base: seq<nat>)
    requires Waiting(l, owner, p, flag, base) && t !in l && t != owner && t < |base|
    requires q <= p && q <= base[t]
    ensures Waiting(Insert(l, t, flag, Of(base)), owner, q, flag, base)
  {
    InsertKeeps(l, t, flag, Of(base));
    if flag == Prio { InsertSorted(l, t, Of(base)); }
  }

  lemma InsertRaised(s: State, t: Tid, flag: Flag, base: seq<nat>)
    requires Inv(s, flag, base) && Thread(s, t) && t !in s.waiters && t != s.owner && s.owner != NOBODY
    ensures Insert(s.waiters, t, flag, Of(Raised(s, t))) == Insert(s.waiters, t, flag, Of(base))
  {
    hide Insert, Place;
    forall w | w in s.waiters ensures Of(Raised(s, t))(w) == Of(base)(w) {
      assert w < |base| && w != s.owner;
    }
    InsertSame(s.waiters, t, flag, Of(Raised(s, t)), Of(base));
  }

  lemma BlockInv(s: State, t: Tid, time: int, flag: Flag, base: seq<nat>)
    requires Inv(s, flag, base) && Thread(s, t) && t !in s.waiters && t != s.owner && s.owner != NOBODY && time != 0
    ensures Inv(Take(s, t, time, flag).0, flag, base)
  {
    hide Waiting, Insert;
    InsertRaised(s, t, flag, base);
    WaitingInsert(s.waiters, s.owner, s.prio[s.owner], Raised(s, t)[s.owner], t, flag, base);
    assert Take(s, t, time, flag).0 == s.(prio := Raised(s, t), waiters := Insert(s.waiters, t, flag, Of(base)));
  }

  lemma TakeInv(s: State, t: Tid, time: int, flag: Flag, base: seq<nat>)
    requires Inv(s, flag, base) && Thread(s, t) && t !in s.waiters
    ensures Inv(Take(s, t, time, flag).0, flag, base)
    ensures Take(s, t, time, flag).1.Full? <==> s.owner == t && s.hold == HOLD_MAX
    ensures Take(s, t, time, flag).1.Done? ==> Take(s, t, time, flag).0.owner == t
  {
    hide Insert;
    if s.owner == NOBODY { WaitingNone(t, s.prio[t], flag, base); }
    WaitingOwner(s, flag, base);
    hide Waiting;
    if t != s.owner && s.owner != NOBODY && time != 0 { BlockInv(s, t, time, flag, base); }
  }

  lemma WaitingNone(owner: int, p: nat, flag: Flag, base: seq<nat>)
    ensures Waiting([], owner, p, flag, base)
  {
  }

  lemma WaitingOwner(s: State, flag: Flag, base: seq<nat>)
    requires Inv(s, flag, base)
    ensures forall w :: w in s.waiters ==> Thread(s, w) && w != s.owner
  {
  }

  /** The next owner: the thread that has waited longest, or with RT_IPC_FLAG_PRIO the first of the
      highest priority, at a priority no lower than that of any thread left waiting. */
  lemma HandOver(s: State, flag: Flag, base: seq<nat>)
    requires Inv(s, flag, base) && s.owner != NOBODY && s.hold == 1 && s.waiters != []
    ensures s.waiters[0] in s.waiters && Thread(s, s.waiters[0]) && Thread(s, s.owner)
    ensures var d := Release(s, s.owner, flag).0;
            && |d.prio| == |s.prio| && d.waiters == s.waiters[1..] && d.value == s.value && d.hold == 1
            && (forall t :: 0 <= t < |s.prio| && t != s.owner && t != s.waiters[0] ==> d.prio[t] == s.prio[t])
            && d.owner == s.waiters[0] && d.original == base[d.owner] && d.prio[s.owner] == base[s.owner]
            && d.prio[d.owner] <= base[d.owner]
            && forall w :: w in s.waiters ==> d.prio[d.owner] <= base[w]
  {
    hide Distinct, Highest;
    var t, next := s.owner, s.waiters[0];
    assert next in s.waiters;
    var restored := s.prio[t := s.original];
    HighestSame(s.waiters, Of(restored), Of(base));
    HighestIs(s.waiters, Of(base));
    if flag == Prio {
      forall w | w in s.waiters ensures base[next] <= base[w] {
        var i :| 0 <= i < |s.waiters| && s.waiters[i] == w;
        if i > 0 { assert Of(base)(s.waiters[0]) <= Of(base)(s.waiters[i]); }
      }
    }
  }

  lemma WaitingRest(l: seq<Tid>, owner: int, p: nat, q: nat, flag: Flag, base: seq<nat>)
    requires Waiting(l, owner, p, flag, base) && l != []
    requires forall w :: w in l ==> w < |base| && q <= base[w]
    ensures Waiting(l[1..], l[0], q, flag, base)
  {
    forall w | w in l[1..] ensures w in l && w != l[0] {
      var i :| 0 <= i < |l[1..]| && l[1..][i] == w;
      assert l[i + 1] == w;
    }
  }

  lemma ReleaseInv(s: State, t: Tid, flag: Flag, base: seq<nat>)
    requires Inv(s, flag, base) && Thread(s, t)
    ensures forall w :: w in s.waiters ==> Thread(s, w)
    ensures Inv(Release(s, t, flag).0, flag, base)
    ensures Release(s, t, flag).1 == if s.owner == t then Done else NotOwner
  {
    WaitingOwner(s, flag, base);
    WaitingNone(NOBODY, 0, flag, base);
    if s.owner == t && s.hold == 1 && s.waiters != [] {
      HandOver(s, flag, base);
      WaitingRest(s.waiters, s.owner, s.prio[s.owner], Release(s, t, flag).0.prio[s.waiters[0]], flag, base);
    }
    hide Waiting;
  }

  /** Every step keeps the invariant, for both kinds of waiting list. */
  lemma StepInv(s: State, a: Action, flag: Flag, base: seq<nat>)
    requires Inv(s, flag, base) && Enabled(s, a)
    ensures Inv(Step(s, a, flag, base).0, flag, base)
  {
    match a
    case TakeIt(t, time) => TakeInv(s, t, time, flag, base);
    case ReleaseIt(t) => ReleaseInv(s, t, flag, base);
    case Expire(t) =>
      RemoveKeeps(s.waiters, t);
      if flag == Prio { RemoveSorted(s.waiters, t, Of(base)); }
  }

  // ---------- whole runs ----------

  ghost predicate Run(ss: seq<State>, acts: seq<Action>, flag: Flag, base: seq<nat>) {
    && |ss| == |acts| + 1 && ss[0] == Initial(base)
    && (forall t :: 0 <= t < |base| ==> base[t] < PRIORITY_MAX)
    && forall k :: 0 <= k < |acts| ==> Follows(ss, acts, flag, base, k)
  }

  ghost predicate Follows(ss: seq<State>, acts: seq<Action>, flag: Flag, base: seq<nat>, k: int)
    requires 0 <= k < |acts| && |ss| == |acts| + 1
  {
    Inv(ss[k], flag, base) ==> Enabled(ss[k], acts[k]) && ss[k + 1] == Step(ss[k], acts[k], flag, base).0
  }

  /** In every run the owner is never outranked by a thread that waits for it, and a thread that does
      not own the mutex has the priority it had before it took it. */
  lemma {:induction false} RunInheritance(ss: seq<State>, acts: seq<Action>, flag: Flag, base: seq<nat>, k: nat)
    requires Run(ss, acts, flag, base) && k <= |acts|
    ensures Inv(ss[k], flag, base)
    ensures forall w :: w in ss[k].waiters ==>
              Thread(ss[k], ss[k].owner) && Thread(ss[k], w) && ss[k].prio[ss[k].owner] <= ss[k].prio[w]
    ensures forall t :: 0 <= t < |base| && t != ss[k].owner ==> ss[k].prio[t] == base[t]
  {
    if k > 0 {
      RunInheritance(ss, acts, flag, base, k - 1);
      assert Follows(ss, acts, flag, base, k - 1);
      StepInv(ss[k - 1], acts[k - 1], flag, base);
    }
  }

  // ---------- how much is inherited ----------

  /** The owner inherits no more than it has to: its priority is the best of its own and the waiters'. */
  ghost predicate Tight(s: State, base: seq<nat>) {
    s.owner != NOBODY && 0 <= s.owner < |base| && |base| == |s.prio| ==>
      s.prio[s.owner] ==
          (if Highest(s.waiters, Of(base)) < base[s.owner] then Highest(s.waiters, Of(base)) else base[s.owner])
  }

  lemma {:induction false} HighestIn(a: seq<Tid>, b: seq<Tid>, f: Tid -> nat)
    requires forall w :: w in a ==> w in b
    ensures Highest(b, f) <= Highest(a, f)
  {
    HighestIs(a, f);
    HighestIs(b, f);
  }

  lemma TakeTight(s: State, t: Tid, time: int, flag: Flag, base: seq<nat>)
    requires Inv(s, flag, base) && Tight(s, base) && Thread(s, t) && t !in s.waiters
    ensures Tight(Take(s, t, time, flag).0, base)
  {
    hide Insert, Place;
    var d := Take(s, t, time, flag).0;
    HighestIs([], Of(base));
    if Take(s, t, time, flag).1.Blocked? {
      InsertRaised(s, t, flag, base);
      InsertKeeps(s.waiters, t, flag, Of(base));
      HighestIs(s.waiters, Of(base));
      HighestIs(d.waiters, Of(base));
      HighestIn(s.waiters, d.waiters, Of(base));
    }
  }

  lemma ReleaseTight(s: State, t: Tid, flag: Flag, base: seq<nat>)
    requires Inv(s, flag, base) && Tight(s, base) && Thread(s, t)
    ensures Tight(Release(s, t, flag).0, base)
  {
    if s.owner == t && s.hold == 1 && s.waiters != [] {
      var d := Release(s, t, flag).0;
      var next := s.waiters[0];
      assert s.waiters == [next] + s.waiters[1..];
      HandOver(s, flag, base);
      HighestSame(s.waiters, Of(s.prio[t := s.original]), Of(base));
      HighestIs(s.waiters, Of(base));
      HighestIs(d.waiters, Of(base));
      HighestIn(d.waiters, s.waiters, Of(base));
      assert forall w :: w in s.waiters ==> w == next || w in d.waiters;
    }
  }

  /** A timeout leaves the owner at the priority that it inherited.  Inheritance stays tight exactly
      when the thread that gives up was not the only reason for the owner's priority. */
  lemma ExpireTight(s: State, t: Tid, flag: Flag, base: seq<nat>)
    requires Inv(s, flag, base) && Tight(s, base) && t in s.waiters
    ensures Tight(s.(waiters := Without(s.waiters, t)), base) <==>
              || s.prio[s.owner] < base[t]
              || s.prio[s.owner] == base[s.owner]
              || exists w :: w in s.waiters && w != t && base[w] == s.prio[s.owner]
  {
    var d := s.(waiters := Without(s.waiters, t));
    RemoveKeeps(s.waiters, t);
    HighestIs(s.waiters, Of(base));
    HighestIs(d.waiters, Of(base));
  }

  /** It does happen that it is not tight: a waiter of priority 1 times out, and the owner, of
      priority 5, keeps priority 1. */
  lemma TimeoutLeavesBoost()
    ensures var base := [5, 1];
            var s0 := Initial(base);
            var s1 := Take(s0, 0, -1, Fifo).0;
            var s2 := Take(s1, 1, 10, Fifo).0;
            var s3 := s2.(waiters := Without(s2.waiters, 1));
            Inv(s0, Fifo, base) && s2.waiters == [1] && s3.waiters == [] && s3.owner == 0 && s3.prio[0] == 1
                && !Tight(s3, base)
  {
    var base := [5, 1];
    var s1 := Take(Initial(base), 0, -1, Fifo).0;
    var s2 := Take(s1, 1, 10, Fifo).0;
    assert s2.waiters == [1];
    assert Without([1], 1) == [];
    assert Highest([], Of(base)) == 31;
  }
}

/** The mutex object; the priorities are the current_priority fields of the thread objects. */
module Mutex {
  import opened Lists
  import opened IpcList
  import opened MutexSpec

  class Mutex {
    var value: nat
    var hold: nat
    var originalPriority: nat
    var owner: int
    var waiters: seq<Tid>
    const flag: Flag
    const prio: array<nat>

    ghost function View(): State
      reads this, prio
    {
      State(value, hold, originalPriority, owner, waiters, prio[..])
    }

    constructor (flag: Flag, prio: array<nat>)
      ensures View() == Initial(prio[..]) && this.flag == flag && this.prio == prio
    {
      value, hold, originalPriority, owner, waiters := 1, 0, NO_PRIORITY, NOBODY, [];
      this.flag, this.prio := flag, prio;
    }

    /** rt_mutex_take, with interrupts off. */
    method TakeSection(t: Tid, time: int, ghost base: seq<nat>) returns (r: Outcome)
      requires Inv(View(), flag, base) && t < prio.Length && t !in waiters
      modifies this, prio
      ensures (View(), r) == Take(old(View()), t, time, flag)
      ensures Inv(View(), flag, base)
    {
      TakeInv(View(), t, time, flag, base);
      if owner == t {
        if hold < HOLD_MAX { hold := hold + 1; } else { return Full; }
      } else if value > 0 {
        value := value - 1;
        owner := t;
        originalPriority := prio[t];
        assert hold < HOLD_MAX;
        hold := hold + 1;
      } else {
        if time == 0 { return Timeout; }
        if prio[t] < prio[owner] { prio[owner] := prio[t]; }
        waiters := Suspend(waiters, t, flag, Of(prio[..]));
        return Blocked;
      }
      return Done;
    }

    /** rt_mutex_release, with interrupts off. */
    method ReleaseSection(t: Tid, ghost base: seq<nat>) returns (r: Outcome)
      requires Inv(View(), flag, base) && t < prio.Length
      modifies this, prio
      ensures (View(), r) == Release(old(View()), t, flag)
      ensures Inv(View(), flag, base)
    {
      hide Waiting, Highest;
      ReleaseInv(View(), t, flag, base);
      ghost var s := View();
      if t != owner { return NotOwner; }
      hold := hold - 1;
      if hold == 0 {
        if originalPriority != prio[owner] { prio[owner] := originalPriority; }
        assert prio[..] == s.prio[t := s.original];
        if waiters != [] {
          var next := waiters[0];
          assert next in waiters;
          owner := next;
          originalPriority := prio[next];
          var most := HighestPriority(waiters, Of(prio[..]));
          ghost var p: seq<nat> := prio[..];
          if flag == Fifo && prio[next] != most {
            prio[next] := most;
            assert prio[..] == p[next := most];
          }
          assert hold < HOLD_MAX;
          hold := hold + 1;
          waiters := waiters[1..];
        } else {
          assert value < VALUE_MAX;
          value := value + 1;
          owner := NOBODY;
          originalPriority := NO_PRIORITY;
        }
      }
      return Done;
    }
  }
}
