/** Singly linked lists of pool nodes, as the free list and the queue of a message queue are. */
module NodeList {
  import opened Lists

  /** RT_NULL */
  const NIL: int := -1

  function First(l: seq<nat>): int {
    if l == [] then NIL else l[0]
  }

  function Last(l: seq<nat>): int {
    if l == [] then NIL else l[|l| - 1]
  }

  function After(l: seq<nat>, i: nat): int
    requires i < |l|
  {
    if i + 1 < |l| then l[i + 1] else NIL
  }

  /** Following `next` from `head` visits exactly the nodes `l`. */
  ghost predicate ListOf(next: seq<int>, head: int, l: seq<nat>) {
    && head == First(l)
    && (forall i :: 0 <= i < |l| ==> l[i] < |next|)
    && (forall i {:trigger After(l, i)} :: 0 <= i < |l| ==> next[l[i]] == After(l, i))
  }

  lemma Pop(next: seq<int>, head: int, l: seq<nat>)
    requires ListOf(next, head, l) && l != []
    ensures head == l[0] < |next| && ListOf(next, next[head], l[1..])
  {
    assert next[l[0]] == After(l, 0);
    forall i {:trigger After(l[1..], i)} | 0 <= i < |l| - 1 ensures next[l[1..][i]] == After(l[1..], i) {
      assert After(l, i + 1) == After(l[1..], i);
    }
  }

  lemma Push(next: seq<int>, head: int, l: seq<nat>, x: nat)
    requires ListOf(next, head, l) && x !in l && x < |next|
    ensures ListOf(next[x := head], x, [x] + l)
  {
    var m := [x] + l;
    forall i {:trigger After(m, i)} | 0 <= i < |m| ensures next[x := head][m[i]] == After(m, i) {
      if i > 0 {
        assert m[i] == l[i - 1] && m[i] in l;
        assert After(m, i) == After(l, i - 1);
      }
    }
  }

  lemma Append(next: seq<int>, head: int, l: seq<nat>, x: nat)
    requires ListOf(next, head, l) && l != [] && Distinct(l) && x !in l && x < |next| && next[x] == NIL
    ensures l[|l| - 1] < |next| && ListOf(next[l[|l| - 1] := x], head, l + [x])
  {
    var m := l + [x];
    forall i {:trigger After(m, i)} | 0 <= i < |m| ensures next[l[|l| - 1] := x][m[i]] == After(m, i) {
      if i < |l| - 1 {
        assert m[i] == l[i] && l[i] != l[|l| - 1];
        assert After(m, i) == After(l, i);
      } else if i == |l| {
        assert m[i] == x && x != l[|l| - 1];
      }
    }
  }

  lemma Frame(next: seq<int>, head: int, l: seq<nat>, x: nat, y: int)
    requires ListOf(next, head, l) && x !in l && x < |next|
    ensures ListOf(next[x := y], head, l)
  {
    forall i {:trigger After(l, i)} | 0 <= i < |l| ensures next[x := y][l[i]] == After(l, i) {
      assert l[i] in l;
    }
  }
}
