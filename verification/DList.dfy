/** Circular doubly linked lists of nodes that are named by numbers, kept as two arrays of links.
    `rt_list_t`, the block ring and the free list of memheap all have this shape. */
module DList {
  import opened Lists

  /** The node after position `t`, going around. */
  function Succ(l: seq<nat>, t: nat): nat
    requires t < |l|
  {
    if t + 1 < |l| then l[t + 1] else l[0]
  }

  /** Following `next` from l[0] visits exactly `l` and comes back; `prev` is its inverse. */
  ghost predicate Ring(l: seq<nat>, next: seq<nat>, prev: seq<nat>) {
    && |l| > 0 && |next| == |prev| && Distinct(l)
    && (forall t :: 0 <= t < |l| ==> l[t] < |next|)
    && (forall t {:trigger Succ(l, t)} :: 0 <= t < |l| ==> next[l[t]] == Succ(l, t) && prev[Succ(l, t)] == l[t])
  }

  function Removed(l: seq<nat>, t: nat): seq<nat>
    requires t < |l|
  {
    l[..t] + l[t + 1..]
  }

  /** `x` goes behind position `t`. */
  function InsertedAfter(l: seq<nat>, t: nat, x: nat): seq<nat>
    requires t < |l|
  {
    l[..t + 1] + [x] + l[t + 1..]
  }

  lemma ReadLinks(l: seq<nat>, next: seq<nat>, prev: seq<nat>, t: nat)
    requires Ring(l, next, prev) && t < |l|
    ensures l[t] < |next| && next[l[t]] == Succ(l, t) && Succ(l, t) < |next|
    ensures prev[l[t]] == if t > 0 then l[t - 1] else l[|l| - 1]
    ensures |l| > 1 ==> Succ(l, t) != l[t]
  {
    var s := if t > 0 then t - 1 else |l| - 1;
    assert Succ(l, s) == l[t];
  }

  lemma RemovedRing(l: seq<nat>, next: seq<nat>, prev: seq<nat>, t: nat)
    requires Ring(l, next, prev) && 0 < t < |l|
    ensures l[t - 1] < |next| && Succ(l, t) < |prev|
    ensures Ring(Removed(l, t), next[l[t - 1] := Succ(l, t)], prev[Succ(l, t) := l[t - 1]])
  {
    ReadLinks(l, next, prev, t);
    var m, n, p := Removed(l, t), next[l[t - 1] := Succ(l, t)], prev[Succ(l, t) := l[t - 1]];
    forall i | 0 <= i < |m| ensures n[m[i]] == Succ(m, i) && p[Succ(m, i)] == m[i] {
      if i < t - 1 {
        assert m[i] == l[i] && Succ(m, i) == Succ(l, i);
      } else if i == t - 1 {
        assert m[i] == l[t - 1] && Succ(m, i) == Succ(l, t);
      } else {
        assert m[i] == l[i + 1] && Succ(m, i) == Succ(l, i + 1);
      }
    }
  }

  lemma InsertedSucc(l: seq<nat>, t: nat, x: nat, i: nat)
    requires t < |l| && i <= |l|
    ensures |InsertedAfter(l, t, x)| == |l| + 1
    ensures i < t ==> InsertedAfter(l, t, x)[i] == l[i] && Succ(InsertedAfter(l, t, x), i) == Succ(l, i)
    ensures i == t ==> InsertedAfter(l, t, x)[i] == l[t] && Succ(InsertedAfter(l, t, x), i) == x
    ensures i == t + 1 ==> InsertedAfter(l, t, x)[i] == x && Succ(InsertedAfter(l, t, x), i) == Succ(l, t)
    ensures i > t + 1 ==> InsertedAfter(l, t, x)[i] == l[i - 1] && Succ(InsertedAfter(l, t, x), i) == Succ(l, i - 1)
  {
  }

  lemma InsertedDistinct(l: seq<nat>, t: nat, x: nat)
    requires t < |l| && Distinct(l) && x !in l
    ensures Distinct(InsertedAfter(l, t, x))
  {
  }

  lemma InsertedIn(l: seq<nat>, t: nat, x: nat)
    requires t < |l|
    ensures forall y :: y in InsertedAfter(l, t, x) <==> y in l || y == x
  {
    assert l == l[..t + 1] + l[t + 1..];
  }

  lemma SuccDistinct(l: seq<nat>, i: nat, j: nat)
    requires i < |l| && j < |l| && i != j && Distinct(l)
    ensures Succ(l, i) != Succ(l, j) && l[i] != l[j] && Succ(l, i) in l
  {
  }

  lemma InsertedRing(l: seq<nat>, next: seq<nat>, prev: seq<nat>, t: nat, x: nat)
    requires Ring(l, next, prev) && t < |l| && x !in l && x < |next|
    ensures l[t] < |next| && Succ(l, t) < |prev|
    ensures Ring(InsertedAfter(l, t, x), next[x := Succ(l, t)][l[t] := x], prev[x := l[t]][Succ(l, t) := x])
  {
    hide Distinct, InsertedAfter;
    ReadLinks(l, next, prev, t);
    InsertedDistinct(l, t, x);
    InsertedSucc(l, t, x, 0);
    var m, n, p := InsertedAfter(l, t, x), next[x := Succ(l, t)][l[t] := x], prev[x := l[t]][Succ(l, t) := x];
    forall i | 0 <= i < |l| + 1 ensures m[i] < |n| {
      InsertedSucc(l, t, x, i);
    }
    forall i {:trigger Succ(m, i)} | 0 <= i < |l| + 1
      ensures i < |m| && m[i] < |n| && n[m[i]] == Succ(m, i)
      ensures Succ(m, i) < |p| && p[Succ(m, i)] == m[i]
    {
      hide Succ;
      InsertedSucc(l, t, x, i);
      if i < t {
        SuccDistinct(l, i, t);
      } else if i > t + 1 {
        SuccDistinct(l, i - 1, t);
      } else {
        assert Succ(l, t) in l;
      }
    }
  }

  /** A field of a node outside the ring does not matter. */
  lemma RingFrame(l: seq<nat>, next: seq<nat>, prev: seq<nat>, x: nat, y: nat, z: nat)
    requires Ring(l, next, prev) && x !in l && x < |next|
    ensures Ring(l, next[x := y], prev[x := z])
  {
    forall t {:trigger Succ(l, t)} | 0 <= t < |l|
      ensures next[x := y][l[t]] == Succ(l, t) && prev[x := z][Succ(l, t)] == l[t]
    {
      assert l[t] in l && Succ(l, t) in l;
    }
  }

  /** The two writes by which `x` leaves the ring it is in. */
  method Unlink(next: array<nat>, prev: array<nat>, x: nat, ghost l: seq<nat>, ghost t: nat)
    requires next != prev && Ring(l, next[..], prev[..])
    requires 0 < t < |l| && l[t] == x
    modifies next, prev
    ensures Ring(Removed(l, t), next[..], prev[..])
    ensures next[..] == old(next[..])[l[t - 1] := Succ(l, t)]
    ensures prev[..] == old(prev[..])[Succ(l, t) := l[t - 1]]
  {
    ReadLinks(l, next[..], prev[..], t);
    RemovedRing(l, next[..], prev[..], t);
    prev[next[x]] := prev[x];
    next[prev[x]] := next[x];
  }

  /** rt_list_insert_after: `x` enters the ring right behind `at`. */
  method LinkAfter(next: array<nat>, prev: array<nat>, at: nat, x: nat, ghost l: seq<nat>, ghost t: nat)
    requires next != prev && Ring(l, next[..], prev[..])
    requires t < |l| && l[t] == at && x !in l && x < next.Length
    modifies next, prev
    ensures Ring(InsertedAfter(l, t, x), next[..], prev[..])
    ensures at < next.Length && Succ(l, t) < next.Length
    ensures next[..] == old(next[..])[x := Succ(l, t)][at := x] && prev[..] == old(prev[..])[x := at][Succ(l, t) := x]
  {
    ReadLinks(l, next[..], prev[..], t);
    InsertedRing(l, next[..], prev[..], t, x);
    ghost var n: seq<nat>, p: seq<nat> := next[..], prev[..];
    prev[next[at]] := x;
    next[x] := next[at];
    next[at] := x;
    prev[x] := at;
    assert next[..] == n[x := Succ(l, t)][at := x];
    assert prev[..] == p[x := at][Succ(l, t) := x];
  }

  /** rt_list_insert_before: `x` enters the ring right in front of `at`; in front of the head of a list
      that is at its end. */
  method LinkBefore(next: array<nat>, prev: array<nat>, at: nat, x: nat, ghost l: seq<nat>, ghost t: nat)
    requires next != prev && Ring(l, next[..], prev[..])
    requires t < |l| && l[t] == at && x !in l && x < next.Length
    modifies next, prev
    ensures Ring(InsertedAfter(l, if t > 0 then t - 1 else |l| - 1, x), next[..], prev[..])
  {
    ghost var s := if t > 0 then t - 1 else |l| - 1;
    ReadLinks(l, next[..], prev[..], t);
    ReadLinks(l, next[..], prev[..], s);
    InsertedRing(l, next[..], prev[..], s, x);
    ghost var n: seq<nat>, p: seq<nat> := next[..], prev[..];
    next[prev[at]] := x;
    prev[x] := prev[at];
    prev[at] := x;
    next[x] := at;
    assert next[..] == n[x := at][l[s] := x];
    assert prev[..] == p[x := l[s]][at := x];
  }

  /** rt_list_remove: `x` leaves its list and is a list of its own. */
  method Remove(next: array<nat>, prev: array<nat>, x: nat, ghost l: seq<nat>, ghost t: nat)
    requires next != prev && Ring(l, next[..], prev[..])
    requires 0 < t < |l| && l[t] == x
    modifies next, prev
    ensures Ring(Removed(l, t), next[..], prev[..]) && Ring([x], next[..], prev[..])
  {
    Unlink(next, prev, x, l, t);
    ghost var n: seq<nat>, p: seq<nat> := next[..], prev[..];
    NotInRemoved(l, t);
    RingFrame(Removed(l, t), n, p, x, x, x);
    next[x] := x;
    prev[x] := x;
    assert next[..] == n[x := x] && prev[..] == p[x := x];
  }

  lemma NotInRemoved(l: seq<nat>, t: nat)
    requires Distinct(l) && t < |l|
    ensures l[t] !in Removed(l, t)
  {
  }

  /** rt_list_len: the nodes of the list without its head. */
  method Length(next: array<nat>, prev: array<nat>, head: nat, ghost l: seq<nat>) returns (len: nat)
    requires Ring(l, next[..], prev[..]) && l[0] == head
    ensures len == |l| - 1
  {
    len := 0;
    var p := head;
    while next[p] != head
      invariant len < |l| && p == l[len]
      decreases |l| - len
    {
      ReadLinks(l, next[..], prev[..], len);
      p := next[p];
      len := len + 1;
    }
    ReadLinks(l, next[..], prev[..], len);
  }
}
