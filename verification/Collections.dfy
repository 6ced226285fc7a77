/** Facts about sets, multisets and sequences that several components use. */
module Collections {

  /** The last n elements, or all of them: `s.slice(-n)` for n > 0. */
  function LastN<T>(s: seq<T>, n: nat): (r: seq<T>)
    ensures |r| == if |s| <= n then |s| else n
  {
    if |s| <= n then s else s[|s| - n..]
  }

  /** Appending to a window of the last n elements and trimming it keeps the last n elements. */
  lemma LastNAppend<T>(s: seq<T>, x: T, n: nat)
    ensures LastN(LastN(s, n) + [x], n) == LastN(s + [x], n)
  {
  }

  lemma Cancel<T>(x: T, a: multiset<T>, b: multiset<T>)
    requires multiset{x} + a == multiset{x} + b
    ensures a == b
  {
    assert a == (multiset{x} + a) - multiset{x} && b == (multiset{x} + b) - multiset{x};
  }

  lemma CancelInclusion<T>(x: T, a: multiset<T>, b: multiset<T>)
    requires multiset{x} + a <= multiset{x} + b
    ensures a <= b
  {
    assert forall y :: a[y] == (multiset{x} + a)[y] - multiset{x}[y];
    assert forall y :: b[y] == (multiset{x} + b)[y] - multiset{x}[y];
  }

  lemma RemoveOne<T>(s: set<T>, x: T)
    requires x in s
    ensures multiset(s) == multiset{x} + multiset(s - {x})
  {
  }

  lemma AddOne<T>(s: set<T>, x: T)
    requires x !in s
    ensures multiset(s + {x}) == multiset(s) + multiset{x}
  {
  }

  lemma SubsetSize<T>(a: set<T>, b: set<T>)
    requires a <= b
    ensures |a| <= |b|
  {
    assert b == a + (b - a);
  }
}
