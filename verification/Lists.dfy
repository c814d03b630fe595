/** Lists without repetition. */
module Lists {

  predicate Distinct<T(==)>(l: seq<T>) {
    forall i, j :: 0 <= i < j < |l| ==> l[i] != l[j]
  }

  /** The list without the first `x` in it. */
  function Without<T(==)>(l: seq<T>, x: T): (r: seq<T>)
    ensures |r| <= |l|
  {
    if l == [] then [] else if l[0] == x then l[1..] else [l[0]] + Without(l[1..], x)
  }

  lemma TailIs<T>(l: seq<T>)
    requires Distinct(l) && l != []
    ensures Distinct(l[1..]) && forall y :: y in l[1..] <==> y in l && y != l[0]
  {
    assert l == [l[0]] + l[1..];
  }

  lemma {:induction false} WithoutIs<T>(l: seq<T>, x: T)
    requires Distinct(l)
    ensures Distinct(Without(l, x))
    ensures forall y :: y in Without(l, x) <==> y in l && y != x
  {
    if l != [] {
      TailIs(l);
      WithoutIs(l[1..], x);
      assert l[0] !in Without(l[1..], x);
    }
  }

  lemma {:induction false} WithoutAt<T>(l: seq<T>, x: T, k: nat)
    requires k < |l| && l[k] == x && forall i :: 0 <= i < k ==> l[i] != x
    ensures Without(l, x) == l[..k] + l[k + 1..]
  {
    if k > 0 {
      WithoutAt(l[1..], x, k - 1);
      assert l[..k] == [l[0]] + l[1..][..k - 1];
    }
  }

  lemma {:induction false} WithoutAbsent<T>(l: seq<T>, x: T)
    requires x !in l
    ensures Without(l, x) == l
  {
    if l != [] {
      assert l[0] in l && forall y :: y in l[1..] ==> y in l;
      WithoutAbsent(l[1..], x);
    }
  }

  /** Leaving out every `x` is leaving out the one that is there. */
  lemma WithoutNext<T>(l: seq<T>, x: T, k: nat)
    requires Distinct(l) && k < |l|
    ensures Without(l[k..], x) == (if l[k] == x then [] else [l[k]]) + Without(l[k + 1..], x)
  {
    assert l[k..] == [l[k]] + l[k + 1..];
    if l[k] == x { WithoutAbsent(l[k + 1..], x); }
  }
}
