/** How taking and releasing the mutex end, and what its recursive count counts over whole runs. */
module MutexOutcomes {
  import opened Lists
  import opened IpcList
  import opened MutexSpec

  /** How a take ends: the owner takes once more unless the count is at its maximum; a mutex nobody owns is
      taken once; any other thread fails when it does not wait, and otherwise joins the list, in the order of
      the priorities that the threads have on their own, and the owner gets its priority if that is higher. */
  lemma TakeOutcome(s: State, t: Tid, time: int, flag: Flag, base: seq<nat>)
    requires Inv(s, flag, base) && Thread(s, t) && t !in s.waiters
    ensures var (d, r) := Take(s, t, time, flag);
            var other := s.owner != t && s.owner != NOBODY;
            && (r.Done? <==> s.owner == NOBODY || (s.owner == t && s.hold < HOLD_MAX))
            && (r.Full? <==> s.owner == t && s.hold == HOLD_MAX)
            && (r.Timeout? <==> other && time == 0)
            && (r.Blocked? <==> other && time != 0)
            && (r.Done? ==> d.owner == t && d.hold == s.hold + 1 && d.waiters == s.waiters && d.prio == s.prio)
            && (r.Full? || r.Timeout? ==> d == s)
            && (r.Blocked? ==>
                  && Joins(s.waiters, d.waiters, t, flag, Of(base)) && |d.prio| == |s.prio|
                  && (forall x :: 0 <= x < |base| ==>
                        d.prio[x] == if x == s.owner && s.prio[t] < s.prio[x] then s.prio[t] else s.prio[x])
                  && d == s.(waiters := d.waiters, prio := d.prio))
  {
    if s.owner != t && s.owner != NOBODY {
      InsertRaised(s, t, flag, base);
      InsertJoins(s.waiters, t, flag, Of(base));
    }
    hide Joins, Insert, Waiting;
  }

  /** How a release ends: only the owner may release; what it took more than once it still holds; the last
      release gives the thread its own priority back, and the mutex to the first waiter or to nobody. */
  lemma ReleaseOutcome(s: State, t: Tid, flag: Flag, base: seq<nat>)
    requires Inv(s, flag, base) && Thread(s, t)
    ensures forall w :: w in s.waiters ==> Thread(s, w)
    ensures var (d, r) := Release(s, t, flag);
            && (r == if s.owner == t then Done else NotOwner)
            && (r.NotOwner? ==> d == s)
            && (r.Done? && s.hold > 1 ==> d == s.(hold := d.hold) && d.hold == s.hold - 1)
            && (r.Done? && s.hold == 1 ==>
                  && |d.prio| == |base| && d.prio[t] == base[t]
                  && (s.waiters != [] ==> s.waiters == [d.owner] + d.waiters && d.hold == 1 && d.value == 0)
                  && (s.waiters == [] ==> d.owner == NOBODY && d.hold == 0 && d.value == 1 && d.waiters == []))
  {
    WaitingOwner(s, flag, base);
    if s.owner == t && s.hold == 1 && s.waiters != [] { HandOver(s, flag, base); }
    hide Waiting;
  }

  /** A release undoes a take: a further take by the owner completely, the first take up to `original`, which
      means nothing while nobody owns the mutex. */
  lemma TakeThenRelease(s: State, t: Tid, time: int, flag: Flag, base: seq<nat>)
    requires Inv(s, flag, base) && Thread(s, t) && t !in s.waiters && Take(s, t, time, flag).1.Done?
    ensures var d := Take(s, t, time, flag).0;
            && Thread(d, t) && (forall w :: w in d.waiters ==> Thread(d, w))
            && Release(d, t, flag).1 == Done
            && Release(d, t, flag).0 == if s.owner == t then s else s.(original := NO_PRIORITY)
  {
    hide Insert;
    WaitingOwner(s, flag, base);
    hide Waiting;
    if s.owner != t { assert s.prio[t := s.prio[t]] == s.prio; }
  }

  // ---------- whole runs ----------

  /** What action `k` adds to the count of thread `t`: a take that succeeds at once, a blocked take that another
      thread's release completes, and a release. */
  ghost function Change(ss: seq<State>, acts: seq<Action>, flag: Flag, base: seq<nat>, t: Tid, k: nat): int
    requires |ss| == |acts| + 1 && k < |acts| && Inv(ss[k], flag, base) && Enabled(ss[k], acts[k])
  {
    var done := Step(ss[k], acts[k], flag, base).1.Done?;
    match acts[k]
    case TakeIt(u, _) => if u == t && done then 1 else 0
    case ReleaseIt(u) => (if u == t && done then -1 else 0) + (if ss[k].owner != t == ss[k + 1].owner then 1 else 0)
    case Expire(_) => 0
  }

  /** The completed takes of thread `t` less its completed releases, in the first `k` actions. */
  ghost function Count(ss: seq<State>, acts: seq<Action>, flag: Flag, base: seq<nat>, t: Tid, k: nat): int
    requires Run(ss, acts, flag, base) && k <= |acts|
  {
    if k == 0 then 0
    else
      RunInheritance(ss, acts, flag, base, k - 1);
      assert Follows(ss, acts, flag, base, k - 1);
      Count(ss, acts, flag, base, t, k - 1) + Change(ss, acts, flag, base, t, k - 1)
  }

  lemma StepCount(ss: seq<State>, acts: seq<Action>, flag: Flag, base: seq<nat>, t: Tid, k: nat)
    requires |ss| == |acts| + 1 && k < |acts| && Inv(ss[k], flag, base) && Enabled(ss[k], acts[k])
    requires ss[k + 1] == Step(ss[k], acts[k], flag, base).0 && t < |base|
    ensures Held(ss[k + 1], t) == Held(ss[k], t) + Change(ss, acts, flag, base, t, k)
  {
    var s := ss[k];
    WaitingOwner(s, flag, base);
    match acts[k] {
      case TakeIt(u, time) => TakeOutcome(s, u, time, flag, base);
      case ReleaseIt(u) =>
        ReleaseOutcome(s, u, flag, base);
        if s.owner == u && s.waiters != [] { assert s.waiters[0] in s.waiters; }
      case Expire(_) =>
    }
    hide Take, Release, Waiting, Joins;
  }

  /** How often thread `t` holds the mutex. */
  function Held(s: State, t: Tid): int {
    if s.owner == t then s.hold else 0
  }

  /** In every run the mutex is held by each thread as often as it has completed takes that it has not released:
      a thread that took it n times owns it until its n-th release, and nobody else does meanwhile. */
  lemma {:induction false} RunCount(ss: seq<State>, acts: seq<Action>, flag: Flag, base: seq<nat>, t: Tid, k: nat)
    requires Run(ss, acts, flag, base) && k <= |acts| && t < |base|
    ensures Count(ss, acts, flag, base, t, k) == Held(ss[k], t)
    ensures Count(ss, acts, flag, base, t, k) > 0 <==> ss[k].owner == t
  {
    RunInheritance(ss, acts, flag, base, k);
    if k > 0 {
      RunCount(ss, acts, flag, base, t, k - 1);
      RunInheritance(ss, acts, flag, base, k - 1);
      assert Follows(ss, acts, flag, base, k - 1);
      StepCount(ss, acts, flag, base, t, k - 1);
    }
  }

  /** A waiting thread goes on waiting until its timer runs out or it is made the owner. */
  lemma StepWaits(s: State, a: Action, flag: Flag, base: seq<nat>, w: Tid)
    requires Inv(s, flag, base) && Enabled(s, a) && w in s.waiters && a != Expire(w)
    ensures var d := Step(s, a, flag, base).0; w in d.waiters || d.owner == w
  {
    WaitingOwner(s, flag, base);
    match a {
      case TakeIt(u, time) =>
        TakeOutcome(s, u, time, flag, base);
        JoinsIn(s.waiters, Take(s, u, time, flag).0.waiters, u, flag, Of(base), w);
      case ReleaseIt(u) => ReleaseOutcome(s, u, flag, base);
      case Expire(u) => RemoveKeeps(s.waiters, u);
    }
    hide Take, Release, Joins;
  }

  /** The same over runs: a thread that blocked is in the list or has become the owner at some later point,
      unless its timer ran out. */
  lemma {:induction false} RunWaits(ss: seq<State>, acts: seq<Action>, flag: Flag, base: seq<nat>, w: Tid, j: nat,
                                    k: nat)
    requires Run(ss, acts, flag, base) && j <= k <= |acts| && w in ss[j].waiters
    requires forall u :: j <= u < k ==> acts[u] != Expire(w)
    ensures w in ss[k].waiters || exists u :: j < u <= k && ss[u].owner == w
    decreases k
  {
    if j < k {
      RunWaits(ss, acts, flag, base, w, j, k - 1);
      if w in ss[k - 1].waiters {
        RunInheritance(ss, acts, flag, base, k - 1);
        assert Follows(ss, acts, flag, base, k - 1);
        StepWaits(ss[k - 1], acts[k - 1], flag, base, w);
      }
    }
  }
}
