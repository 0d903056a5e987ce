/** Ranking for the vector store's search: a stable sort by descending score
    (what `results.sort((a, b) => b.score - a.score)` does, Array.prototype.sort
    being stable) and the prefix `slice(0, limit)` takes. Generic in the
    element type; the score of an element is given by `key`. */
module Ranking {

  /** Scores never increase from left to right. */
  predicate NonIncreasing<T>(s: seq<T>, key: T -> real) {
    forall i, j :: 0 <= i < j < |s| ==> key(s[i]) >= key(s[j])
  }

  /** The elements of `s` whose score is `v`, in their order in `s`. */
  function WithKey<T>(s: seq<T>, key: T -> real, v: real): (r: seq<T>)
    decreases |s|
  {
    if s == [] then []
    else (if key(s[0]) == v then [s[0]] else []) + WithKey(s[1..], key, v)
  }

  /** `r` is `s` stably sorted by descending score: the scores do not increase,
      and the elements of each score keep the order they have in `s`. */
  ghost predicate IsStableSortOf<T>(r: seq<T>, s: seq<T>, key: T -> real) {
    NonIncreasing(r, key) && forall v :: WithKey(r, key, v) == WithKey(s, key, v)
  }

  /** Puts `x` in front of the first element that does not score more than it. */
  function Insert<T>(x: T, s: seq<T>, key: T -> real): (r: seq<T>)
    ensures multiset(r) == multiset(s) + multiset{x}
    decreases |s|
  {
    if s == [] || key(s[0]) <= key(x) then [x] + s
    else
      assert s == [s[0]] + s[1..];
      [s[0]] + Insert(x, s[1..], key)
  }

  /** Insertion sort by descending score; each element goes in front of the
      later elements of equal score, which keeps the sort stable. */
  function SortDescending<T>(s: seq<T>, key: T -> real): (r: seq<T>)
    ensures multiset(r) == multiset(s)
    ensures NonIncreasing(r, key)
    decreases |s|
  {
    if s == [] then []
    else
      assert s == [s[0]] + s[1..];
      InsertKeepsOrder(s[0], SortDescending(s[1..], key), key);
      Insert(s[0], SortDescending(s[1..], key), key)
  }

  /** An element scoring at least the head goes in front. */
  lemma InsertAtFront<T>(x: T, s: seq<T>, key: T -> real)
    requires s == [] || key(s[0]) <= key(x)
    ensures Insert(x, s, key) == [x] + s
  {
  }

  /** An element scoring less than the head goes after it. */
  lemma InsertAfterHead<T>(x: T, s: seq<T>, key: T -> real)
    requires s != [] && key(s[0]) > key(x)
    ensures Insert(x, s, key) == [s[0]] + Insert(x, s[1..], key)
  {
  }

  /** A single element is sorted. */
  lemma SortOne<T>(z: T, key: T -> real)
    ensures SortDescending([z], key) == [z]
  {
    assert [z][1..] == [];
  }

  /** Two elements in ascending order of score are swapped. */
  lemma SortTwo<T>(y: T, z: T, key: T -> real)
    requires key(z) > key(y)
    ensures SortDescending([y, z], key) == [z, y]
  {
    assert [y, z][1..] == [z];
    SortOne(z, key);
    assert Insert(y, [], key) == [y];
    assert Insert(y, [z], key) == [z] + Insert(y, [], key);
  }

  /** Sorting `[x, y, z]` when `x` scores most and `y` least. */
  lemma SortThree<T>(x: T, y: T, z: T, key: T -> real)
    requires key(x) > key(z) > key(y)
    ensures SortDescending([x, y, z], key) == [x, z, y]
  {
    assert [x, y, z][1..] == [y, z];
    SortTwo(y, z, key);
    assert Insert(x, [z, y], key) == [x] + [z, y];
  }

  /** Inserting into a descending sequence keeps it descending. */
  lemma {:induction false} InsertKeepsOrder<T>(x: T, s: seq<T>, key: T -> real)
    requires NonIncreasing(s, key)
    ensures NonIncreasing(Insert(x, s, key), key)
    decreases |s|
  {
    if s != [] && key(s[0]) > key(x) {
      var rest := Insert(x, s[1..], key);
      InsertKeepsOrder(x, s[1..], key);
      InsertBounded(x, s[1..], key, key(s[0]));
      assert Insert(x, s, key) == [s[0]] + rest;
    }
  }

  /** Inserting an element that scores at most `b` into a sequence that
      scores at most `b` gives a sequence that scores at most `b`. */
  lemma {:induction false} InsertBounded<T>(x: T, s: seq<T>, key: T -> real, b: real)
    requires key(x) <= b
    requires forall i :: 0 <= i < |s| ==> key(s[i]) <= b
    ensures forall i :: 0 <= i < |Insert(x, s, key)| ==> key(Insert(x, s, key)[i]) <= b
    decreases |s|
  {
    if s != [] && key(s[0]) > key(x) {
      InsertBounded(x, s[1..], key, b);
      assert Insert(x, s, key) == [s[0]] + Insert(x, s[1..], key);
    }
  }

  lemma WithKeyCons<T>(s: seq<T>, key: T -> real, v: real)
    requires s != []
    ensures WithKey(s, key, v) == (if key(s[0]) == v then [s[0]] else []) + WithKey(s[1..], key, v)
  {
  }

  /** What WithKey keeps has the score asked for and comes from `s`. */
  lemma {:induction false} WithKeyMembers<T>(s: seq<T>, key: T -> real, v: real)
    ensures forall i :: 0 <= i < |WithKey(s, key, v)| ==>
              key(WithKey(s, key, v)[i]) == v && WithKey(s, key, v)[i] in multiset(s)
    decreases |s|
  {
    if s != [] {
      WithKeyMembers(s[1..], key, v);
      assert s == [s[0]] + s[1..];
    }
  }

  /** A non-empty sequence has elements of its first element's score. */
  lemma WithKeyOfHead<T>(s: seq<T>, key: T -> real)
    ensures s != [] ==> WithKey(s, key, key(s[0])) == [s[0]] + WithKey(s[1..], key, key(s[0]))
  {
  }

  /** Inserting `x` adds it in front of the elements of its own score and
      leaves the other scores alone. */
  lemma {:induction false} WithKeyInsert<T>(x: T, s: seq<T>, key: T -> real, v: real)
    ensures WithKey(Insert(x, s, key), key, v) == (if key(x) == v then [x] else []) + WithKey(s, key, v)
    decreases |s|
  {
    if s == [] || key(s[0]) <= key(x) {
      InsertAtFront(x, s, key);
      WithKeyCons([x] + s, key, v);
      assert ([x] + s)[1..] == s;
    } else {
      var rest := Insert(x, s[1..], key);
      InsertAfterHead(x, s, key);
      WithKeyInsert(x, s[1..], key, v);
      WithKeyCons([s[0]] + rest, key, v);
      assert ([s[0]] + rest)[1..] == rest;
      WithKeyCons(s, key, v);
    }
  }

  /** SortDescending is stable. */
  lemma {:induction false} SortDescendingIsStable<T>(s: seq<T>, key: T -> real)
    ensures IsStableSortOf(SortDescending(s, key), s, key)
    decreases |s|
  {
    if s != [] {
      SortDescendingIsStable(s[1..], key);
      forall v ensures WithKey(SortDescending(s, key), key, v) == WithKey(s, key, v) {
        WithKeyInsert(s[0], SortDescending(s[1..], key), key, v);
        WithKeyCons(s, key, v);
      }
    }
  }

  /** Two descending arrangements with the same elements of every score start
      with the same element: the first element of the highest score. */
  lemma SameHead<T>(a: seq<T>, b: seq<T>, key: T -> real)
    requires NonIncreasing(a, key) && NonIncreasing(b, key)
    requires forall v :: WithKey(a, key, v) == WithKey(b, key, v)
    requires a != [] && b != []
    ensures a[0] == b[0]
  {
    var m, n := key(a[0]), key(b[0]);
    WithKeyOfHead(a, key);
    WithKeyOfHead(b, key);
    WithKeyMembers(b, key, m);
    WithKeyMembers(a, key, n);
    // Some element of b scores m, so m <= n; symmetrically n <= m.
    assert WithKey(b, key, m)[0] in multiset(b);
    assert WithKey(a, key, n)[0] in multiset(a);
    assert m == n;
    assert WithKey(a, key, m)[0] == a[0] && WithKey(b, key, m)[0] == b[0];
  }

  /** With equal heads, the tails have the same elements of every score. */
  lemma SameTails<T>(a: seq<T>, b: seq<T>, key: T -> real)
    requires a != [] && b != [] && a[0] == b[0]
    requires forall v :: WithKey(a, key, v) == WithKey(b, key, v)
    ensures forall v :: WithKey(a[1..], key, v) == WithKey(b[1..], key, v)
  {
    forall v ensures WithKey(a[1..], key, v) == WithKey(b[1..], key, v) {
      WithKeyCons(a, key, v);
      WithKeyCons(b, key, v);
      var h := if key(a[0]) == v then [a[0]] else [];
      assert WithKey(a[1..], key, v) == WithKey(a, key, v)[|h|..];
      assert WithKey(b[1..], key, v) == WithKey(b, key, v)[|h|..];
    }
  }

  /** If one of two sequences with the same elements of every score is empty,
      so is the other. */
  lemma BothEmpty<T>(a: seq<T>, b: seq<T>, key: T -> real)
    requires forall v :: WithKey(a, key, v) == WithKey(b, key, v)
    ensures a == [] || b == [] ==> a == b
  {
    WithKeyOfHead(a, key);
    WithKeyOfHead(b, key);
  }

  /** A stable descending sort has only one possible outcome, so every stable
      sort (whatever algorithm the engine's Array.prototype.sort uses) agrees
      with SortDescending. */
  lemma {:induction false} StableSortIsUnique<T>(a: seq<T>, b: seq<T>, key: T -> real)
    requires NonIncreasing(a, key) && NonIncreasing(b, key)
    requires forall v :: WithKey(a, key, v) == WithKey(b, key, v)
    ensures a == b
    decreases |a| + |b|
  {
    if a == [] || b == [] {
      BothEmpty(a, b, key);
    } else {
      SameHead(a, b, key);
      SameTails(a, b, key);
      StableSortIsUnique(a[1..], b[1..], key);
      assert a == [a[0]] + a[1..] && b == [b[0]] + b[1..];
    }
  }

  /** `s.slice(0, limit)`: the first `limit` elements (all of them when there
      are fewer), or, for a negative limit, everything but the last `-limit`
      elements (nothing when there are no more than that). */
  function Prefix<T>(s: seq<T>, limit: int): (r: seq<T>)
    ensures |r| <= |s| && r == s[..|r|]
    ensures limit >= 0 ==> |r| == (if limit < |s| then limit else |s|)
    ensures limit < 0 ==> |s| - |r| == (if -limit < |s| then -limit else |s|)
  {
    if limit < 0 then (if |s| + limit > 0 then s[..|s| + limit] else [])
    else if limit < |s| then s[..limit] else s
  }

  /** Every element a prefix of a descending ranking keeps scores at least as
      much as every element it leaves out. */
  lemma PrefixIsTop<T>(s: seq<T>, key: T -> real, limit: int)
    requires NonIncreasing(s, key)
    ensures NonIncreasing(Prefix(s, limit), key)
    ensures forall i, j :: 0 <= i < |Prefix(s, limit)| <= j < |s| ==> key(Prefix(s, limit)[i]) >= key(s[j])
  {
  }
}
