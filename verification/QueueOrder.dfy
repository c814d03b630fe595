/** The order of a queue to which ordinary messages are added at the end and urgent ones at the front.
    Operation number `k` that adds a message gives it a label: k + 1 at the end, -(k + 1) at the front.  */
module QueueOrder {

  datatype Op<T> = Behind(value: T) | InFront(value: T) | Take | Clear | Keep

  predicate Adds<T>(op: Op<T>) {
    op.Behind? || op.InFront?
  }

  function Apply<T>(q: seq<T>, op: Op<T>): seq<T> {
    match op
    case Behind(v) => q + [v]
    case InFront(v) => [v] + q
    case Take => if q == [] then q else q[1..]
    case Clear => []
    case Keep => q
  }

  /** The same operation on labels. */
  function Labelled<T>(op: Op<T>, k: nat): Op<int> {
    match op
    case Behind(_) => Behind(k + 1)
    case InFront(_) => InFront(-(k + 1))
    case Take => Take
    case Clear => Clear
    case Keep => Keep
  }

  /** What is in the queue after all of `ops`, which messages were taken from its front, and which
      were thrown away. */
  function Queued<T>(ops: seq<Op<T>>): seq<T> {
    if ops == [] then [] else Apply(Queued(ops[..|ops| - 1]), ops[|ops| - 1])
  }

  function TakenOut<T>(ops: seq<Op<T>>): seq<T> {
    if ops == [] then []
    else
      var n := |ops| - 1;
      var q := Queued(ops[..n]);
      TakenOut(ops[..n]) + if ops[n].Take? && q != [] then [q[0]] else []
  }

  function Dropped<T>(ops: seq<Op<T>>): seq<T> {
    if ops == [] then []
    else
      var n := |ops| - 1;
      Dropped(ops[..n]) + if ops[n].Clear? then Queued(ops[..n]) else []
  }

  function Added<T>(ops: seq<Op<T>>): seq<T> {
    if ops == [] then []
    else
      var n := |ops| - 1;
      Added(ops[..n]) + if Adds(ops[n]) then [ops[n].value] else []
  }

  function Labels<T>(ops: seq<Op<T>>): (r: seq<Op<int>>)
    ensures |r| == |ops|
  {
    seq(|ops|, k requires 0 <= k < |ops| => Labelled(ops[k], k))
  }

  lemma LabelsNext<T>(ops: seq<Op<T>>)
    requires ops != []
    ensures Labels(ops)[..|ops| - 1] == Labels(ops[..|ops| - 1])
    ensures Labels(ops)[|ops| - 1] == Labelled(ops[|ops| - 1], |ops| - 1)
  {
  }

  /** The label `l` was given by one of `ops`. */
  predicate Given<T>(ops: seq<Op<T>>, l: int) {
    if l > 0 then l <= |ops| && ops[l - 1].Behind? else l < 0 && -l <= |ops| && ops[-l - 1].InFront?
  }

  /** The message with label `l`. */
  function Value<T>(ops: seq<Op<T>>, l: int): T
    requires Given(ops, l)
  {
    ops[if l > 0 then l - 1 else -l - 1].value
  }

  /** Each place of `q` holds the message of the label at that place of `ls`. */
  ghost predicate Matches<T>(ops: seq<Op<T>>, q: seq<T>, ls: seq<int>) {
    |q| == |ls| && forall i :: 0 <= i < |ls| ==> Given(ops, ls[i]) && q[i] == Value(ops, ls[i])
  }

  predicate Increasing(ls: seq<int>) {
    forall i, j :: 0 <= i < j < |ls| ==> ls[i] < ls[j]
  }

  /** The ordinary labels, those above zero, are in increasing order. */
  predicate Fifo(ls: seq<int>) {
    forall i, j :: 0 <= i < j < |ls| && ls[i] > 0 && ls[j] > 0 ==> ls[i] < ls[j]
  }

  // ---------- the queue and its labels ----------

  lemma GivenStays<T>(ops: seq<Op<T>>, l: int)
    requires ops != [] && Given(ops[..|ops| - 1], l)
    ensures Given(ops, l) && Value(ops, l) == Value(ops[..|ops| - 1], l) && -|ops| < l < |ops|
  {
  }

  lemma MatchesStays<T>(ops: seq<Op<T>>, q: seq<T>, ls: seq<int>)
    requires ops != [] && Matches(ops[..|ops| - 1], q, ls)
    ensures Matches(ops, q, ls) && forall i :: 0 <= i < |ls| ==> -|ops| < ls[i] < |ops|
  {
    forall i | 0 <= i < |ls| ensures Given(ops, ls[i]) && q[i] == Value(ops, ls[i]) && -|ops| < ls[i] < |ops| {
      GivenStays(ops, ls[i]);
    }
  }

  lemma ApplyMatches<T>(ops: seq<Op<T>>, q: seq<T>, ls: seq<int>)
    requires ops != [] && Matches(ops, q, ls)
    ensures Matches(ops, Apply(q, ops[|ops| - 1]), Apply(ls, Labelled(ops[|ops| - 1], |ops| - 1)))
  {
    hide Given;
    var n := |ops| - 1;
    if Adds(ops[n]) { ValueOfLast(ops); }
  }

  lemma ValueOfLast<T>(ops: seq<Op<T>>)
    requires ops != [] && Adds(ops[|ops| - 1])
    ensures var n := |ops| - 1; var l := Labelled(ops[n], n).value; Given(ops, l) && Value(ops, l) == ops[n].value
  {
  }

  lemma ApplyIncreasing<T>(ls: seq<int>, op: Op<T>, n: nat)
    requires Increasing(ls) && forall i :: 0 <= i < |ls| ==> -(n + 1) < ls[i] < n + 1
    ensures Increasing(Apply(ls, Labelled(op, n)))
  {
  }

  lemma MultisetHead<T>(q: seq<T>)
    requires q != []
    ensures multiset(q) == multiset{q[0]} + multiset(q[1..])
  {
    assert q == [q[0]] + q[1..];
  }

  /** After any operations the queue is in the order of its labels: urgent messages in front, the latest
      first, then ordinary ones, the earliest first; and each place holds the message of its label. */
  lemma {:induction false} InOrder<T>(ops: seq<Op<T>>)
    ensures Increasing(Queued(Labels(ops))) && Matches(ops, Queued(ops), Queued(Labels(ops)))
  {
    if ops != [] {
      InOrder(ops[..|ops| - 1]);
      LabelsNext(ops);
      var n, q, ls := |ops| - 1, Queued(ops[..|ops| - 1]), Queued(Labels(ops[..|ops| - 1]));
      MatchesStays(ops, q, ls);
      ApplyMatches(ops, q, ls);
      ApplyIncreasing(ls, ops[n], n);
    }
  }

  /** The messages taken are those of the labels taken. */
  lemma {:induction false} TakenMatch<T>(ops: seq<Op<T>>)
    ensures Matches(ops, TakenOut(ops), TakenOut(Labels(ops)))
  {
    if ops != [] {
      var n := |ops| - 1;
      TakenMatch(ops[..n]);
      InOrder(ops[..n]);
      LabelsNext(ops);
      MatchesStays(ops, TakenOut(ops[..n]), TakenOut(Labels(ops[..n])));
      MatchesStays(ops, Queued(ops[..n]), Queued(Labels(ops[..n])));
    }
  }

  lemma ApplyAccounts<T>(op: Op<T>, taken: seq<T>, dropped: seq<T>, q: seq<T>, added: seq<T>)
    requires multiset(taken) + multiset(dropped) + multiset(q) == multiset(added)
    ensures multiset(taken + if op.Take? && q != [] then [q[0]] else [])
            + multiset(dropped + if op.Clear? then q else [])
            + multiset(Apply(q, op)) == multiset(added + if Adds(op) then [op.value] else [])
  {
    if op.Take? && q != [] { MultisetHead(q); }
  }

  /** Everything that was added is in the queue, was taken or was thrown away: no message is lost and
      none is there twice. */
  lemma {:induction false} Accounted<T>(ops: seq<Op<T>>)
    ensures multiset(TakenOut(ops)) + multiset(Dropped(ops)) + multiset(Queued(ops)) == multiset(Added(ops))
  {
    if ops != [] {
      var n := |ops| - 1;
      Accounted(ops[..n]);
      ApplyAccounts(ops[n], TakenOut(ops[..n]), Dropped(ops[..n]), Queued(ops[..n]), Added(ops[..n]));
    }
  }

  lemma ApplyFifo<T>(op: Op<T>, n: nat, t: seq<int>, q: seq<int>)
    requires Fifo(t + q) && forall i :: 0 <= i < |t + q| ==> (t + q)[i] < n + 1
    ensures Fifo(t + (if op.Take? && q != [] then [q[0]] else []) + Apply(q, Labelled(op, n)))
  {
    var e: seq<int> := [];
    match op
    case Take => assert t + (if q != [] then [q[0]] else e) + (if q == [] then q else q[1..]) == t + q;
    case Clear =>
      assert t + e + e == t;
      assert forall i :: 0 <= i < |t| ==> t[i] == (t + q)[i];
    case Behind(_) => assert t + e + (q + [n + 1]) == t + q + [n + 1];
    case InFront(_) =>
      var w := t + e + ([-(n + 1)] + q);
      forall i, j | 0 <= i < j < |w| && w[i] > 0 && w[j] > 0 ensures w[i] < w[j] {
        assert w[i] == (t + q)[if i < |t| then i else i - 1];
        assert w[j] == (t + q)[if j < |t| then j else j - 1];
      }
    case Keep => assert t + e + q == t + q;
  }

  /** Ordinary messages never overtake each other, whatever urgent messages go past them: those taken
      so far, and then those in the queue, are in the order in which they were added. */
  lemma {:induction false} OrdinaryFifo<T>(ops: seq<Op<T>>)
    ensures Fifo(TakenOut(Labels(ops)) + Queued(Labels(ops)))
  {
    if ops != [] {
      var n := |ops| - 1;
      OrdinaryFifo(ops[..n]);
      InOrder(ops[..n]);
      TakenMatch(ops[..n]);
      LabelsNext(ops);
      var t, q := TakenOut(Labels(ops[..n])), Queued(Labels(ops[..n]));
      MatchesStays(ops, Queued(ops[..n]), q);
      MatchesStays(ops, TakenOut(ops[..n]), t);
      ApplyFifo(ops[n], n, t, q);
    }
  }

  /** Without urgent messages and clearing, the queue is first in, first out. */
  lemma {:induction false} PlainFifo<T>(ops: seq<Op<T>>)
    requires forall i :: 0 <= i < |ops| ==> !ops[i].InFront? && !ops[i].Clear?
    ensures TakenOut(ops) + Queued(ops) == Added(ops)
  {
    if ops != [] {
      var n := |ops| - 1;
      PlainFifo(ops[..n]);
      var t, q := TakenOut(ops[..n]), Queued(ops[..n]);
      if ops[n].Take? && q != [] {
        assert t + [q[0]] + q[1..] == t + q;
      } else if ops[n].Behind? {
        assert t + (q + [ops[n].value]) == t + q + [ops[n].value];
      }
    }
  }

  lemma {:induction false} NoneDropped<T>(ops: seq<Op<T>>)
    requires forall i :: 0 <= i < |ops| ==> !ops[i].Clear?
    ensures Dropped(ops) == []
  {
    if ops != [] { NoneDropped(ops[..|ops| - 1]); }
  }

  /** What the queue holds and what has come out of it after `ops`: the queue is in the order of its
      labels, ordinary messages never overtake each other, what came out is what was added under the
      labels that came out, and everything added is accounted for. */
  ghost predicate Orderly<T>(ops: seq<Op<T>>, queue: seq<T>, out: seq<T>) {
    var waiting, gone := Queued(Labels(ops)), TakenOut(Labels(ops));
    && Increasing(waiting) && Matches(ops, queue, waiting)
    && Fifo(gone + waiting) && Matches(ops, out, gone)
    && multiset(out) + multiset(Dropped(ops)) + multiset(queue) == multiset(Added(ops))
  }

  lemma AlwaysOrderly<T>(ops: seq<Op<T>>)
    ensures Orderly(ops, Queued(ops), TakenOut(ops))
    ensures (forall i :: 0 <= i < |ops| ==> !ops[i].Clear?) ==> Dropped(ops) == []
    ensures (forall i :: 0 <= i < |ops| ==> !ops[i].Clear? && !ops[i].InFront?) ==>
            TakenOut(ops) + Queued(ops) == Added(ops)
  {
    if forall i :: 0 <= i < |ops| ==> !ops[i].Clear? { NoneDropped(ops); }
    if forall i :: 0 <= i < |ops| ==> !ops[i].Clear? && !ops[i].InFront? { PlainFifo(ops); }
    hide Queued, TakenOut, Dropped, Added;
    InOrder(ops);
    OrdinaryFifo(ops);
    TakenMatch(ops);
    Accounted(ops);
  }

  /** Each label is given once. */
  lemma {:induction false} LabelsOnce<T>(ops: seq<Op<T>>, l: int)
    ensures multiset(Added(Labels(ops)))[l] == if Given(ops, l) then 1 else 0
  {
    if ops != [] {
      var n := |ops| - 1;
      LabelsOnce(ops[..n], l);
      LabelsNext(ops);
      var a, x := Added(Labels(ops[..n])), Labelled(ops[n], n);
      assert multiset(a + if Adds(x) then [x.value] else []) == multiset(a)
             + multiset(if Adds(x) then [x.value] else []);
      assert Given(ops, l) <==> Given(ops[..n], l) || (Adds(x) && l == x.value);
    }
  }
}
