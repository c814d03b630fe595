/** Lists of suspended threads: rt_ipc_list_suspend and rt_ipc_list_resume. */
module IpcList {
  import opened Lists

  type Tid = nat

  /** RT_IPC_FLAG_FIFO, RT_IPC_FLAG_PRIO */
  datatype Flag = Fifo | Prio

  /** Where a thread of priority `p` goes in priority order: before the first thread whose number
      is larger, that is, whose priority is lower. */
  function Place(list: seq<Tid>, p: nat, prio: Tid -> nat): (k: nat)
    ensures k <= |list|
    ensures forall j :: 0 <= j < k ==> prio(list[j]) <= p
    ensures k < |list| ==> p < prio(list[k])
  {
    if list == [] || p < prio(list[0]) then 0 else 1 + Place(list[1..], p, prio)
  }

  function InsertAt(list: seq<Tid>, k: nat, t: Tid): seq<Tid>
    requires k <= |list|
  {
    list[..k] + [t] + list[k..]
  }

  function Position(list: seq<Tid>, t: Tid, flag: Flag, prio: Tid -> nat): (k: nat)
    ensures k <= |list|
  {
    match flag
    case Fifo => |list|
    case Prio => Place(list, prio(t), prio)
  }

  function Insert(list: seq<Tid>, t: Tid, flag: Flag, prio: Tid -> nat): seq<Tid> {
    InsertAt(list, Position(list, t, flag, prio), t)
  }

  predicate Sorted(list: seq<Tid>, prio: Tid -> nat) {
    forall i, j :: 0 <= i < j < |list| ==> prio(list[i]) <= prio(list[j])
  }

  lemma InsertAtIndex(list: seq<Tid>, k: nat, t: Tid, i: nat)
    requires k <= |list| && i <= |list|
    ensures |InsertAt(list, k, t)| == |list| + 1
    ensures InsertAt(list, k, t)[i] == if i < k then list[i] else if i == k then t else list[i - 1]
  {
  }

  lemma InsertAtKeeps(list: seq<Tid>, k: nat, t: Tid)
    requires k <= |list| && Distinct(list) && t !in list
    ensures Distinct(InsertAt(list, k, t))
    ensures Without(InsertAt(list, k, t), t) == list
  {
    var l := InsertAt(list, k, t);
    assert l[..k] == list[..k] && l[k + 1..] == list[k..];
    hide InsertAt;
    InsertAtIndex(list, k, t, k);
    forall i, j | 0 <= i < j < |l| ensures l[i] != l[j] {
      InsertAtIndex(list, k, t, i);
      InsertAtIndex(list, k, t, j);
    }
    assert list[..k] + list[k..] == list;
    WithoutAt(l, t, k);
  }

  /** Suspending adds the thread once and keeps the others in their order. */
  lemma InsertKeeps(list: seq<Tid>, t: Tid, flag: Flag, prio: Tid -> nat)
    requires Distinct(list) && t !in list
    ensures Distinct(Insert(list, t, flag, prio))
    ensures forall x :: x in Insert(list, t, flag, prio) <==> x == t || x in list
    ensures |Insert(list, t, flag, prio)| == |list| + 1
    ensures Without(Insert(list, t, flag, prio), t) == list
  {
    hide InsertAt, Distinct;
    var k := Position(list, t, flag, prio);
    InsertAtKeeps(list, k, t);
    InsertAtIndex(list, k, t, k);
    forall x ensures x in Insert(list, t, flag, prio) <==> x == t || x in list {
      InsertAtIn(list, k, t, x);
    }
  }

  lemma InsertAtIn(list: seq<Tid>, k: nat, t: Tid, x: Tid)
    requires k <= |list|
    ensures x in InsertAt(list, k, t) <==> x == t || x in list
  {
    assert list == list[..k] + list[k..];
  }

  /** In priority order the list stays sorted, so its first thread has the highest priority, and
      threads of equal priority stay in the order in which they came. */
  lemma InsertSorted(list: seq<Tid>, t: Tid, prio: Tid -> nat)
    requires Sorted(list, prio)
    ensures Sorted(Insert(list, t, Prio, prio), prio)
    ensures var k := Place(list, prio(t), prio);
            && k < |Insert(list, t, Prio, prio)| && Insert(list, t, Prio, prio)[k] == t
            && forall j :: 0 <= j < |list| && prio(list[j]) == prio(t) ==> j < k
  {
    hide InsertAt;
    var k := Place(list, prio(t), prio);
    var l := InsertAt(list, k, t);
    InsertAtIndex(list, k, t, k);
    forall i, j | 0 <= i < j < |l| ensures prio(l[i]) <= prio(l[j]) {
      InsertAtIndex(list, k, t, i);
      InsertAtIndex(list, k, t, j);
      if k < j - 1 { assert prio(list[k]) <= prio(list[j - 1]); }
    }
    forall j | k <= j < |list| ensures prio(t) < prio(list[j]) {
      assert k < j ==> prio(list[k]) <= prio(list[j]);
    }
  }

  /** Thread `t` has come to place `k`: at the end, or in priority order behind the threads that are no
      lower than itself and in front of the first that is lower. */
  predicate JoinsAt(list: seq<Tid>, after: seq<Tid>, t: Tid, flag: Flag, prio: Tid -> nat, k: int) {
    && 0 <= k <= |list| && after == list[..k] + [t] + list[k..]
    && match flag
       case Fifo => k == |list|
       case Prio =>
         && (forall j :: 0 <= j < k ==> prio(list[j]) <= prio(t))
         && (k < |list| ==> prio(t) < prio(list[k]))
         && (Sorted(list, prio) ==> forall j :: k <= j < |list| ==> prio(t) < prio(list[j]))
  }

  ghost predicate Joins(list: seq<Tid>, after: seq<Tid>, t: Tid, flag: Flag, prio: Tid -> nat) {
    exists k :: JoinsAt(list, after, t, flag, prio, k)
  }

  lemma InsertJoins(list: seq<Tid>, t: Tid, flag: Flag, prio: Tid -> nat)
    ensures Joins(list, Insert(list, t, flag, prio), t, flag, prio)
  {
    assert list[..|list|] == list && list[|list|..] == [];
    assert JoinsAt(list, Insert(list, t, flag, prio), t, flag, prio, Position(list, t, flag, prio));
  }

  /** Whoever waited still waits after another thread has joined. */
  lemma JoinsIn(list: seq<Tid>, after: seq<Tid>, t: Tid, flag: Flag, prio: Tid -> nat, x: Tid)
    ensures Joins(list, after, t, flag, prio) ==> (x in after <==> x == t || x in list)
  {
    if Joins(list, after, t, flag, prio) {
      var k :| JoinsAt(list, after, t, flag, prio, k);
      assert list == list[..k] + list[k..];
    }
  }

  /** The first thread of a list has been resumed; with nobody waiting nothing happens. */
  predicate Resumes(list: seq<Tid>, after: seq<Tid>, woken: set<Tid>, wokenAfter: set<Tid>) {
    if list == [] then after == [] && wokenAfter == woken
    else list == [list[0]] + after && wokenAfter == woken + {list[0]}
  }

  /** What a step may do to a list: nothing, let thread `t` join or leave, resume the first, drop them all. */
  predicate Changes(list: seq<Tid>, after: seq<Tid>, t: Tid, flag: Flag, prio: Tid -> nat) {
    || after == list || after == []
    || after == Insert(list, t, flag, prio)
    || (list != [] && after == list[1..])
    || (t in list && after == Without(list, t))
  }

  lemma ChangesSorted(list: seq<Tid>, after: seq<Tid>, t: Tid, prio: Tid -> nat)
    requires Sorted(list, prio) && Changes(list, after, t, Prio, prio)
    ensures Sorted(after, prio)
  {
    hide Insert;
    InsertSorted(list, t, prio);
    if t in list { RemoveSorted(list, t, prio); }
  }

  lemma {:induction false} RemoveKeeps(list: seq<Tid>, t: Tid)
    requires Distinct(list) && t in list
    ensures Distinct(Without(list, t)) && |Without(list, t)| == |list| - 1
    ensures forall x :: x in Without(list, t) <==> x in list && x != t
  {
    var k :| 0 <= k < |list| && list[k] == t;
    WithoutAt(list, t, k);
    var l := list[..k] + list[k + 1..];
    forall x | x in list && x != t ensures x in l {
      var i :| 0 <= i < |list| && list[i] == x;
      assert l[if i < k then i else i - 1] == x;
    }
  }

  lemma {:induction false} RemoveSorted(list: seq<Tid>, t: Tid, prio: Tid -> nat)
    requires t in list && Sorted(list, prio)
    ensures Sorted(Without(list, t), prio)
    ensures forall x :: x in Without(list, t) ==> x in list
  {
    if list[0] != t {
      RemoveSorted(list[1..], t, prio);
      assert forall x :: x in list[1..] ==> prio(list[0]) <= prio(x);
    }
  }

  /** rt_ipc_list_suspend: the search loop for the position in priority order. */
  method Suspend(list: seq<Tid>, t: Tid, flag: Flag, prio: Tid -> nat) returns (r: seq<Tid>)
    ensures r == Insert(list, t, flag, prio)
  {
    match flag
    case Fifo => r := list + [t];
    case Prio =>
      var n := 0;
      while n < |list| && !(prio(t) < prio(list[n]))
        invariant n <= |list|
        invariant Place(list, prio(t), prio) == n + Place(list[n..], prio(t), prio)
      {
        assert list[n..][1..] == list[n + 1..];
        n := n + 1;
      }
      r := list[..n] + [t] + list[n..];
  }

  /** rt_ipc_get_highest_priority: the smallest priority number among the threads, but at most
      RT_THREAD_PRIORITY_MAX - 1. */
  method HighestPriority(list: seq<Tid>, prio: Tid -> nat) returns (p: nat)
    ensures p == Highest(list, prio)
  {
    p := PRIORITY_MAX - 1;
    for n := 0 to |list|
      invariant p == Highest(list[..n], prio)
    {
      assert list[..n + 1][..n] == list[..n];
      p := if p < prio(list[n]) then p else prio(list[n]);
    }
    assert list[..|list|] == list;
  }

  /** RT_THREAD_PRIORITY_MAX */
  const PRIORITY_MAX: nat := 32

  function Highest(list: seq<Tid>, prio: Tid -> nat): nat {
    if list == [] then PRIORITY_MAX - 1
    else
      var p := Highest(list[..|list| - 1], prio);
      var q := prio(list[|list| - 1]);
      if p < q then p else q
  }

  lemma {:induction false} HighestIs(list: seq<Tid>, prio: Tid -> nat)
    ensures Highest(list, prio) <= PRIORITY_MAX - 1
    ensures forall t :: t in list ==> Highest(list, prio) <= prio(t)
    ensures Highest(list, prio) == PRIORITY_MAX - 1 || exists t :: t in list && Highest(list, prio) == prio(t)
  {
    if list != [] {
      var n := |list| - 1;
      HighestIs(list[..n], prio);
      assert list == list[..n] + [list[n]];
      assert list[n] in list;
    }
  }

  /** What is left of a timeout after `elapsed` ticks; a negative timeout waits forever. */
  function Left(timeout: int, elapsed: nat): int {
    if timeout <= 0 then timeout else if timeout > elapsed then timeout - elapsed else 0
  }
}
