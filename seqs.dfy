/** Sequence helpers shared by the store and the GitHub client: the order-keeping
    filter that both use (JavaScript's Array.prototype.filter) and the
    "is a subsequence of" relation that states what keeping order means. */
module Seqs {

  /** The elements of `s` that satisfy `keep`, in their original order: every
      occurrence of an element that passes is kept (FilterCounts), none that
      fails. */
  function Filter<T>(s: seq<T>, keep: T -> bool): (r: seq<T>)
    ensures |r| <= |s|
    ensures forall i :: 0 <= i < |r| ==> r[i] in s && keep(r[i])
    ensures forall i :: 0 <= i < |s| && keep(s[i]) ==> s[i] in r
    decreases |s|
  {
    if s == [] then []
    else (if keep(s[0]) then [s[0]] else []) + Filter(s[1..], keep)
  }

  /** The filter keeps each passing element as many times as it occurs, and
      no failing one. */
  lemma {:induction false} FilterCounts<T(!new)>(s: seq<T>, keep: T -> bool)
    ensures forall x :: multiset(Filter(s, keep))[x] == (if keep(x) then multiset(s)[x] else 0)
    decreases |s|
  {
    if s != [] {
      FilterCounts(s[1..], keep);
      assert s == [s[0]] + s[1..];
    }
  }

  /** `a` can be obtained from `b` by deleting elements; the rest keep their order. */
  predicate IsSubsequence<T(==)>(a: seq<T>, b: seq<T>)
    decreases |b|
  {
    if a == [] then true
    else if b == [] then false
    else if a[0] == b[0] then IsSubsequence(a[1..], b[1..])
    else IsSubsequence(a, b[1..])
  }

  lemma {:induction false} FilterIsSubsequence<T>(s: seq<T>, keep: T -> bool)
    ensures IsSubsequence(Filter(s, keep), s)
    decreases |s|
  {
    if s != [] {
      FilterIsSubsequence(s[1..], keep);
      if keep(s[0]) {
        assert Filter(s, keep) == [s[0]] + Filter(s[1..], keep);
        assert Filter(s, keep)[1..] == Filter(s[1..], keep);
      } else {
        assert Filter(s, keep) == Filter(s[1..], keep);
        IsSubsequenceOfTail(Filter(s[1..], keep), s);
      }
    }
  }

  /** Dropping the first element of `b` cannot hurt. */
  lemma {:induction false} IsSubsequenceOfTail<T>(a: seq<T>, b: seq<T>)
    requires b != []
    requires IsSubsequence(a, b[1..])
    ensures IsSubsequence(a, b)
    decreases |a| + |b|
  {
    if a != [] && a[0] == b[0] {
      // a[1..] is a subsequence of b[1..] because a is.
      IsSubsequenceDropHead(a, b[1..]);
    }
  }

  lemma {:induction false} IsSubsequenceDropHead<T>(a: seq<T>, b: seq<T>)
    requires a != []
    requires IsSubsequence(a, b)
    ensures IsSubsequence(a[1..], b)
    decreases |a| + |b|
  {
    assert b != [];
    if a[0] == b[0] {
      IsSubsequenceOfTail(a[1..], b);
    } else {
      IsSubsequenceDropHead(a, b[1..]);
      IsSubsequenceOfTail(a[1..], b);
    }
  }

  lemma {:induction false} FilterConcat<T>(a: seq<T>, b: seq<T>, keep: T -> bool)
    ensures Filter(a + b, keep) == Filter(a, keep) + Filter(b, keep)
    decreases |a|
  {
    if a != [] {
      assert (a + b)[0] == a[0] && (a + b)[1..] == a[1..] + b;
      FilterConcat(a[1..], b, keep);
      var head := if keep(a[0]) then [a[0]] else [];
      assert Filter(a + b, keep) == head + (Filter(a[1..], keep) + Filter(b, keep));
    } else {
      assert a + b == b;
    }
  }
}
