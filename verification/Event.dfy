/** The event flags of ipc.c: a set of flags, and threads that wait for all or any of some of them.
    A word of flags is modelled as the set of the numbers of its bits. */
module EventSpec {
  import opened Lists
  import opened IpcList

  type Flags = set<nat>

  /** The options of rt_event_recv: RT_EVENT_FLAG_AND, RT_EVENT_FLAG_OR, RT_EVENT_FLAG_CLEAR. */
  datatype Option = Option(all: bool, any: bool, clear: bool)

  /** The thread fields event_set and event_info. */
  datatype Info = Info(flags: Flags, option: Option)

  datatype State = State(flags: Flags, waiters: seq<Tid>, info: seq<Info>)

  datatype Outcome = Done | Error | Received(flags: Flags) | Timeout | Blocked

  /** The condition a thread waits for; with both options given, RT_EVENT_FLAG_AND decides. */
  predicate Satisfied(i: Info, s: Flags) {
    if i.option.all then s * i.flags == i.flags else i.option.any && s * i.flags != {}
  }

  /** The flags a satisfied waiter receives. */
  function Got(i: Info, s: Flags): Flags {
    if i.option.all then i.flags else i.flags * s
  }

  function Cleared(i: Info, s: Flags): Flags {
    if i.option.clear then s - Got(i, s) else s
  }

  datatype Scan = Scan(flags: Flags, rest: seq<Tid>, woken: seq<Tid>, info: seq<Info>)

  ghost predicate Known(l: seq<Tid>, info: seq<Info>) {
    forall t :: t in l ==> t < |info|
  }

  lemma KnownTail(l: seq<Tid>, info: seq<Info>, i: Info)
    requires Known(l, info) && l != []
    ensures l[0] in l && l[0] < |info| && Known(l[1..], info) && Known(l[1..], info[l[0] := i])
  {
    assert l[0] in l;
    forall t | t in l[1..] ensures t < |info| {
      assert t in l;
    }
  }

  /** The scan of rt_event_send: waiters are tried in list order against the set as earlier waiters
      have left it. */
  ghost function ScanList(s: Flags, l: seq<Tid>, info: seq<Info>): (r: Scan)
    requires Known(l, info)
    ensures |r.info| == |info|
  {
    if l == [] then Scan(s, [], [], info)
    else
      assert l[0] in l;
      var i := info[l[0]];
      KnownTail(l, info, Info(Got(i, s), i.option));
      if Satisfied(i, s) then
        var r := ScanList(Cleared(i, s), l[1..], info[l[0] := Info(Got(i, s), i.option)]);
        Scan(r.flags, r.rest, [l[0]] + r.woken, r.info)
      else
        var r := ScanList(s, l[1..], info);
        Scan(r.flags, [l[0]] + r.rest, r.woken, r.info)
  }

  /** rt_event_send */
  ghost function Send(s: State, flags: Flags): (State, Outcome)
    requires Known(s.waiters, s.info)
  {
    if flags == {} then (s, Error)
    else
      var r := ScanList(s.flags + flags, s.waiters, s.info);
      (State(r.flags, r.rest, r.info), Done)
  }

  /** rt_event_recv up to the point where the thread is suspended or returns. */
  function Recv(s: State, t: Tid, i: Info, timeout: int, flag: Flag, prio: Tid -> nat): (State, Outcome)
    requires t < |s.info|
  {
    if i.flags == {} then (s, Error)
    else if Satisfied(i, s.flags) then
      (State(if i.option.clear then s.flags - i.flags else s.flags, s.waiters,
             s.info[t := Info(s.flags * i.flags, i.option)]),
       Received(s.flags * i.flags))
    else if timeout == 0 then (s, Timeout)
    else (State(s.flags, Insert(s.waiters, t, flag, prio), s.info[t := i]), Blocked)
  }

  /** Each waiter is listed once, and none waits for something that is already there. */
  ghost predicate Inv(s: State) {
    && Distinct(s.waiters)
    && Known(s.waiters, s.info)
    && forall t :: t in s.waiters ==> Waits(s.info[t], s.flags)
  }

  predicate Waits(i: Info, s: Flags) {
    !Satisfied(i, s) && i.flags != {} && (i.option.all || i.option.any)
  }

  // ---------- the scan ----------

  /** Conditions are monotone in the set. */
  lemma Monotone(i: Info, a: Flags, b: Flags)
    requires a <= b && Satisfied(i, a)
    ensures Satisfied(i, b)
  {
    if i.option.all {
      assert forall f :: f in i.flags ==> f in a * i.flags;
    } else {
      var f :| f in a * i.flags;
      assert f in b * i.flags;
    }
  }

  /** During the scan the set only shrinks; nobody who stays in the list is satisfied at its end;
      the list splits into those resumed and those left, and other threads are not touched. */
  lemma {:induction false} ScanLeavesNone(s: Flags, l: seq<Tid>, info: seq<Info>)
    requires Distinct(l) && Known(l, info)
    ensures ScanList(s, l, info).flags <= s
    ensures Split(l, ScanList(s, l, info))
    ensures forall t :: t in ScanList(s, l, info).rest ==>
              t < |info| && ScanList(s, l, info).info[t] == info[t] && !Satisfied(info[t], ScanList(s, l, info).flags)
    ensures forall t :: 0 <= t < |info| && t !in l ==> ScanList(s, l, info).info[t] == info[t]
  {
    if l != [] {
      assert l[0] in l;
      var t0, i := l[0], info[l[0]];
      var i1 := Info(Got(i, s), i.option);
      KnownTail(l, info, i1);
      assert l == [t0] + l[1..] && t0 !in l[1..];
      if Satisfied(i, s) {
        ScanLeavesNone(Cleared(i, s), l[1..], info[t0 := i1]);
      } else {
        ScanLeavesNone(s, l[1..], info);
        var r := ScanList(s, l[1..], info);
        if Satisfied(i, r.flags) { Monotone(i, r.flags, s); }
      }
    }
  }

  ghost predicate Split(l: seq<Tid>, r: Scan) {
    && Distinct(r.rest) && Distinct(r.woken)
    && (forall t :: t in r.rest ==> t in l && t !in r.woken)
    && (forall t :: t in r.woken ==> t in l)
    && (forall t :: t in l ==> t in r.rest || t in r.woken)
  }

  /** What thread `t` gets is at least its condition, and nothing it did not ask for. */
  ghost predicate Served(t: Tid, s: Flags, info: seq<Info>, r: Scan) {
    t < |info| && t < |r.info| && r.info[t].option == info[t].option
    && r.info[t].flags <= s * info[t].flags
    && (if info[t].option.all then r.info[t].flags == info[t].flags else r.info[t].flags != {})
  }

  /** Everyone resumed was in the list, and was served from the set as it was when the scan began. */
  lemma {:induction false} ScanServes(s: Flags, l: seq<Tid>, info: seq<Info>, t: Tid)
    requires Distinct(l) && Known(l, info) && t in ScanList(s, l, info).woken
    ensures Served(t, s, info, ScanList(s, l, info))
  {
    assert l[0] in l;
    var t0, i := l[0], info[l[0]];
    var i1 := Info(Got(i, s), i.option);
    KnownTail(l, info, i1);
    assert l == [t0] + l[1..] && t0 !in l[1..];
    if Satisfied(i, s) {
      ScanLeavesNone(Cleared(i, s), l[1..], info[t0 := i1]);
      if t == t0 {
        assert i.option.all ==> s * i.flags == i.flags;
      } else {
        ScanServes(Cleared(i, s), l[1..], info[t0 := i1], t);
      }
    } else {
      ScanServes(s, l[1..], info, t);
      ScanLeavesNone(s, l[1..], info);
    }
  }

  /** No flag is handed out twice: what a thread with RT_EVENT_FLAG_CLEAR has received is no longer
      in the set, and no thread resumed after it receives any of it. */
  lemma {:induction false} ScanTakesOnce(s: Flags, l: seq<Tid>, info: seq<Info>, a: nat, b: nat)
    requires Distinct(l) && Known(l, info) && a < |ScanList(s, l, info).woken|
    requires Served(ScanList(s, l, info).woken[a], s, info, ScanList(s, l, info))
    requires info[ScanList(s, l, info).woken[a]].option.clear
    ensures var r := ScanList(s, l, info); r.flags !! r.info[r.woken[a]].flags
    ensures var r := ScanList(s, l, info);
            a < b < |r.woken| && r.woken[b] < |r.info| ==> r.info[r.woken[b]].flags !! r.info[r.woken[a]].flags
  {
    assert l[0] in l;
    var t0, i := l[0], info[l[0]];
    var i1 := Info(Got(i, s), i.option);
    KnownTail(l, info, i1);
    assert l == [t0] + l[1..] && t0 !in l[1..];
    var r := ScanList(s, l, info);
    if Satisfied(i, s) {
      var r1 := ScanList(Cleared(i, s), l[1..], info[t0 := i1]);
      ScanLeavesNone(Cleared(i, s), l[1..], info[t0 := i1]);
      if a > 0 {
        assert r1.woken[a - 1] in r1.woken && r.woken[a] == r1.woken[a - 1];
        ScanServes(Cleared(i, s), l[1..], info[t0 := i1], r1.woken[a - 1]);
        assert b > 0 ==> b >= |r.woken| || r.woken[b] == r1.woken[b - 1];
        hide ScanList, Satisfied;
        ScanTakesOnce(Cleared(i, s), l[1..], info[t0 := i1], a - 1, if b > 0 then b - 1 else 0);
      } else if 0 < b < |r.woken| {
        assert r1.woken[b - 1] in r1.woken;
        ScanServes(Cleared(i, s), l[1..], info[t0 := i1], r1.woken[b - 1]);
      }
    } else {
      ScanLeavesNone(s, l[1..], info);
      var r1 := ScanList(s, l[1..], info);
      assert r1.woken[a] in r1.woken;
      ScanServes(s, l[1..], info, r1.woken[a]);
      ScanTakesOnce(s, l[1..], info, a, b);
    }
  }

  /** A flag goes out of the set only because a thread with RT_EVENT_FLAG_CLEAR received it. */
  lemma {:induction false} ScanKeepsRest(s: Flags, l: seq<Tid>, info: seq<Info>, f: nat) returns (t: Tid)
    requires Distinct(l) && Known(l, info) && f in s && f !in ScanList(s, l, info).flags
    ensures var r := ScanList(s, l, info);
            t in r.woken && t < |r.info| && f in r.info[t].flags && r.info[t].option.clear
  {
    assert l[0] in l;
    var t0, i := l[0], info[l[0]];
    var i1 := Info(Got(i, s), i.option);
    KnownTail(l, info, i1);
    assert l == [t0] + l[1..] && t0 !in l[1..];
    if Satisfied(i, s) {
      ScanLeavesNone(Cleared(i, s), l[1..], info[t0 := i1]);
      if f in Cleared(i, s) {
        t := ScanKeepsRest(Cleared(i, s), l[1..], info[t0 := i1], f);
      } else {
        t := t0;
      }
    } else {
      t := ScanKeepsRest(s, l[1..], info, f);
    }
  }

  // ---------- runs ----------

  datatype Action =
    | SendIt(flags: Flags)
    | RecvIt(t: Tid, want: Info, timeout: int)
    | Expire(t: Tid)      // the timer of a waiting thread
    | ResetIt             // RT_IPC_CMD_RESET

  /** A thread that waits runs no other operation, and one of the two conditions has to be chosen. */
  predicate Enabled(s: State, a: Action) {
    match a
    case RecvIt(t, want, _) => t < |s.info| && t !in s.waiters && (want.option.all || want.option.any)
    case Expire(t) => t in s.waiters
    case _ => true
  }

  ghost function Step(s: State, a: Action, flag: Flag, prio: Tid -> nat): (State, Outcome)
    requires Inv(s) && Enabled(s, a)
  {
    match a
    case SendIt(flags) => Send(s, flags)
    case RecvIt(t, want, timeout) => Recv(s, t, want, timeout, flag, prio)
    case Expire(t) => (s.(waiters := Without(s.waiters, t)), Timeout)
    case ResetIt => (State({}, [], s.info), Done)
  }

  lemma SendInv(s: State, flags: Flags)
    requires Inv(s)
    ensures Inv(Send(s, flags).0)
  {
    ScanLeavesNone(s.flags + flags, s.waiters, s.info);
  }

  lemma RecvInv(s: State, t: Tid, i: Info, timeout: int, flag: Flag, prio: Tid -> nat)
    requires Inv(s) && t < |s.info| && t !in s.waiters && (i.option.all || i.option.any)
    ensures Inv(Recv(s, t, i, timeout, flag, prio).0)
    ensures Recv(s, t, i, timeout, flag, prio).1.Received? <==> i.flags != {} && Satisfied(i, s.flags)
  {
    hide Insert;
    InsertKeeps(s.waiters, t, flag, prio);
    var d := Recv(s, t, i, timeout, flag, prio).0;
    forall u | u in s.waiters ensures !Satisfied(s.info[u], d.flags) {
      if Satisfied(s.info[u], d.flags) { Monotone(s.info[u], d.flags, s.flags); }
    }
  }

  /** What a receive that does not wait hands out, and what it leaves: with RT_EVENT_FLAG_CLEAR exactly
      the flags received are gone, otherwise none. */
  lemma RecvServes(s: State, t: Tid, i: Info, timeout: int, flag: Flag, prio: Tid -> nat)
    requires t < |s.info| && Recv(s, t, i, timeout, flag, prio).1.Received?
    ensures var (d, r) := Recv(s, t, i, timeout, flag, prio);
            && r.flags <= i.flags && r.flags <= s.flags && r.flags != {} && (i.option.all ==> r.flags == i.flags)
            && d.flags == (if i.option.clear then s.flags - r.flags else s.flags) && d.waiters == s.waiters
  {
    assert s.flags - i.flags == s.flags - s.flags * i.flags;
  }

  /** Every step leaves only threads waiting whose condition does not hold. */
  lemma StepInv(s: State, a: Action, flag: Flag, prio: Tid -> nat)
    requires Inv(s) && Enabled(s, a)
    ensures Inv(Step(s, a, flag, prio).0)
  {
    match a
    case SendIt(flags) => SendInv(s, flags);
    case RecvIt(t, want, timeout) => RecvInv(s, t, want, timeout, flag, prio);
    case Expire(t) => RemoveKeeps(s.waiters, t);
    case ResetIt =>
  }

  ghost predicate Run(ss: seq<State>, acts: seq<Action>, flag: Flag, prio: Tid -> nat) {
    && |ss| == |acts| + 1 && ss[0].flags == {} && ss[0].waiters == []
    && forall k :: 0 <= k < |acts| ==> Follows(ss, acts, flag, prio, k)
  }

  ghost predicate Follows(ss: seq<State>, acts: seq<Action>, flag: Flag, prio: Tid -> nat, k: int)
    requires 0 <= k < |acts| && |ss| == |acts| + 1
  {
    Inv(ss[k]) ==> Enabled(ss[k], acts[k]) && ss[k + 1] == Step(ss[k], acts[k], flag, prio).0
  }

  /** In every run, at every point, nobody waits for flags that are there. */
  lemma {:induction false} RunNobodyMissed(ss: seq<State>, acts: seq<Action>, flag: Flag, prio: Tid -> nat, k: nat)
    requires Run(ss, acts, flag, prio) && k <= |acts|
    ensures Inv(ss[k])
    ensures forall t :: t in ss[k].waiters ==> t < |ss[k].info| && !Satisfied(ss[k].info[t], ss[k].flags)
  {
    if k > 0 {
      RunNobodyMissed(ss, acts, flag, prio, k - 1);
      assert Follows(ss, acts, flag, prio, k - 1);
      StepInv(ss[k - 1], acts[k - 1], flag, prio);
    }
  }
}

/** The event object; `info` holds the fields event_set and event_info of the thread objects. */
module Event {
  import opened Lists
  import opened IpcList
  import opened EventSpec

  /** Every thread of the list has chosen one of the two conditions. */
  ghost predicate Chosen(l: seq<Tid>, info: seq<Info>)
    requires Known(l, info)
  {
    forall t :: t in l ==> info[t].option.all || info[t].option.any
  }

  /** How far the scan has got: the whole scan is what it has done up to place `n` of the list,
      followed by a scan of the rest. */
  ghost predicate Progress(whole: Scan, s: State, n: nat, resumed: seq<Tid>) {
    && n <= |s.waiters| && Known(s.waiters[n..], s.info) && Chosen(s.waiters[n..], s.info)
    && var r := ScanList(s.flags, s.waiters[n..], s.info);
       whole == Scan(r.flags, s.waiters[..n] + r.rest, resumed + r.woken, r.info)
  }

  /** The state after the thread at place `n` has been served and unlinked. */
  ghost function Resumed(s: State, n: nat): State
    requires n < |s.waiters| && s.waiters[n] < |s.info|
  {
    var t := s.waiters[n];
    var i := s.info[t];
    State(Cleared(i, s.flags), s.waiters[..n] + s.waiters[n + 1..], s.info[t := Info(Got(i, s.flags), i.option)])
  }

  lemma SatisfiedIs(i: Info, f: Flags)
    ensures Satisfied(i, f) == if i.option.all then i.flags * f == i.flags else i.option.any && i.flags * f != {}
    ensures Got(i, f) == if i.option.all then i.flags else i.flags * f
  {
    assert i.flags * f == f * i.flags;
  }

  ghost function ScanFrom(s: State, want: Flags): (whole: Scan)
    requires Inv(s)
    ensures Progress(whole, State(s.flags + want, s.waiters, s.info), 0, [])
    ensures want != {} ==> Send(s, want) == (State(whole.flags, whole.rest, whole.info), Done)
    ensures whole == ScanList(s.flags + want, s.waiters, s.info)
  {
    assert s.waiters[0..] == s.waiters;
    ScanList(s.flags + want, s.waiters, s.info)
  }

  lemma ScanNext(whole: Scan, s: State, n: nat, resumed: seq<Tid>)
    requires Progress(whole, s, n, resumed) && n < |s.waiters|
    ensures s.waiters[n] < |s.info| && (s.info[s.waiters[n]].option.all || s.info[s.waiters[n]].option.any)
    ensures if Satisfied(s.info[s.waiters[n]], s.flags) then Progress(whole, Resumed(s, n), n, resumed + [s.waiters[n]])
            else Progress(whole, s, n + 1, resumed)
  {
    var l := s.waiters[n..];
    assert l[0] == s.waiters[n] && l[0] in l && l[1..] == s.waiters[n + 1..];
    var t := l[0];
    var i := s.info[t];
    KnownTail(l, s.info, Info(Got(i, s.flags), i.option));
    forall u | u in l[1..] ensures u in l {}
    if Satisfied(i, s.flags) {
      var d := Resumed(s, n);
      assert d.waiters[n..] == l[1..] && d.waiters[..n] == s.waiters[..n];
      var r := ScanList(d.flags, l[1..], d.info);
      assert resumed + ([t] + r.woken) == resumed + [t] + r.woken;
    } else {
      var r := ScanList(s.flags, l[1..], s.info);
      assert s.waiters[..n + 1] == s.waiters[..n] + [t];
      assert s.waiters[..n] + ([t] + r.rest) == s.waiters[..n + 1] + r.rest;
    }
  }

  lemma ScanEnds(whole: Scan, s: State, n: nat, resumed: seq<Tid>)
    requires Progress(whole, s, n, resumed) && n >= |s.waiters|
    ensures whole == Scan(s.flags, s.waiters, resumed, s.info)
  {
    assert s.waiters[..n] + [] == s.waiters;
  }

  class Event {
    var flags: Flags
    var waiters: seq<Tid>
    const info: array<Info>
    const flag: Flag

    ghost function View(): State
      reads this, info
    {
      State(flags, waiters, info[..])
    }

    /** rt_event_init */
    constructor (flag: Flag, info: array<Info>)
      ensures View() == State({}, [], info[..]) && this.flag == flag && this.info == info
      ensures Inv(View())
    {
      flags, waiters := {}, [];
      this.flag, this.info := flag, info;
    }

    /** rt_event_send; `resumed` are the threads it resumes. */
    method SendSection(want: Flags) returns (r: Outcome, resumed: seq<Tid>)
      requires Inv(View())
      modifies this, info
      ensures (View(), r) == Send(old(View()), want)
      ensures resumed == if want == {} then [] else ScanList(old(flags) + want, old(waiters), old(info[..])).woken
      ensures Inv(View())
    {
      hide ScanList, Known, Chosen, Progress, Satisfied, Got, Inv;
      resumed := [];
      if want == {} { return Error, []; }
      SendInv(View(), want);
      ghost var whole := ScanFrom(View(), want);
      flags := flags + want;
      var n := 0;
      while n < |waiters|
        invariant Progress(whole, View(), n, resumed)
        decreases |waiters| - n
      {
        var t := waiters[n];
        ghost var s := View();
        ScanNext(whole, s, n, resumed);
        SatisfiedIs(s.info[t], s.flags);
        var ok := false;
        if info[t].option.all {
          ok := info[t].flags * flags == info[t].flags;
        } else {
          assert info[t].option.any;
          if info[t].flags * flags != {} {
            info[t] := Info(info[t].flags * flags, info[t].option);
            ok := true;
          }
        }
        if ok {
          if info[t].option.clear { flags := flags - info[t].flags; }
          waiters := waiters[..n] + waiters[n + 1..];
          resumed := resumed + [t];
          assert View() == Resumed(s, n);
        } else {
          n := n + 1;
        }
      }
      ScanEnds(whole, View(), n, resumed);
      return Done, resumed;
    }

    /** rt_event_recv with interrupts off. */
    method RecvSection(t: Tid, i: Info, timeout: int, prio: Tid -> nat) returns (r: Outcome)
      requires Inv(View()) && t < info.Length && t !in waiters && (i.option.all || i.option.any)
      modifies this, info
      ensures (View(), r) == Recv(old(View()), t, i, timeout, flag, prio)
      ensures Inv(View())
    {
      RecvInv(View(), t, i, timeout, flag, prio);
      if i.flags == {} { return Error; }
      var ok := if i.option.all then flags * i.flags == i.flags else flags * i.flags != {};
      if ok {
        var got := flags * i.flags;
        info[t] := Info(got, i.option);
        if i.option.clear { flags := flags - i.flags; }
        return Received(got);
      } else if timeout == 0 {
        return Timeout;
      } else {
        info[t] := i;
        waiters := Suspend(waiters, t, flag, prio);
        return Blocked;
      }
    }
  }
}
