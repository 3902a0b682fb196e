/**
 Python's `sorted(xs, key=...)`: the stable ascending sort, written as insertion sort.
 `reverse=True` keeps the input order of equal keys too, so it is the sort on negated keys.
 */
module Sorting {

  function Insert<T>(x: T, xs: seq<T>, key: T -> real): (r: seq<T>)
    ensures |r| == |xs| + 1
  {
    if xs == [] || key(x) <= key(xs[0]) then [x] + xs else [xs[0]] + Insert(x, xs[1..], key)
  }

  function SortBy<T>(xs: seq<T>, key: T -> real): (r: seq<T>)
    ensures |r| == |xs|
  {
    if xs == [] then [] else Insert(xs[0], SortBy(xs[1..], key), key)
  }

  ghost predicate Ordered<T>(xs: seq<T>, key: T -> real) {
    forall i, j :: 0 <= i < j < |xs| ==> key(xs[i]) <= key(xs[j])
  }

  // The elements with key v, in the order they occur.
  ghost function Having<T>(xs: seq<T>, key: T -> real, v: real): seq<T> {
    if xs == [] then []
    else (if key(xs[0]) == v then [xs[0]] else []) + Having(xs[1..], key, v)
  }

  lemma {:induction false} InsertPermutes<T>(x: T, xs: seq<T>, key: T -> real)
    ensures multiset(Insert(x, xs, key)) == multiset{x} + multiset(xs)
  {
    if xs != [] && key(xs[0]) < key(x) {
      InsertPermutes(x, xs[1..], key);
      assert xs == [xs[0]] + xs[1..];
    }
  }

  lemma {:induction false} InsertOrdered<T>(x: T, xs: seq<T>, key: T -> real)
    requires Ordered(xs, key)
    ensures Ordered(Insert(x, xs, key), key)
  {
    if xs != [] && key(xs[0]) < key(x) {
      var rest := Insert(x, xs[1..], key);
      InsertOrdered(x, xs[1..], key);
      InsertPermutes(x, xs[1..], key);
      forall j | 0 <= j < |rest| ensures key(xs[0]) <= key(rest[j]) {
        assert rest[j] in multiset(rest);
        assert rest[j] == x || rest[j] in xs[1..];
      }
    }
  }

  // The result is ordered and is a permutation of the input.
  lemma {:induction false} SortOrdered<T>(xs: seq<T>, key: T -> real)
    ensures Ordered(SortBy(xs, key), key)
    ensures multiset(SortBy(xs, key)) == multiset(xs)
  {
    if xs != [] {
      SortOrdered(xs[1..], key);
      InsertOrdered(xs[0], SortBy(xs[1..], key), key);
      InsertPermutes(xs[0], SortBy(xs[1..], key), key);
      assert xs == [xs[0]] + xs[1..];
    }
  }

  lemma {:induction false} InsertStable<T>(x: T, xs: seq<T>, key: T -> real, v: real)
    ensures Having(Insert(x, xs, key), key, v) == Having([x] + xs, key, v)
  {
    assert ([x] + xs)[1..] == xs;
    if xs != [] && key(xs[0]) < key(x) {
      InsertStable(x, xs[1..], key, v);
      assert ([x] + xs[1..])[1..] == xs[1..];
      assert ([xs[0]] + Insert(x, xs[1..], key))[1..] == Insert(x, xs[1..], key);
    }
  }

  // Equal keys keep their input order.
  lemma {:induction false} SortStable<T>(xs: seq<T>, key: T -> real, v: real)
    ensures Having(SortBy(xs, key), key, v) == Having(xs, key, v)
  {
    if xs != [] {
      SortStable(xs[1..], key, v);
      var rest := SortBy(xs[1..], key);
      InsertStable(xs[0], rest, key, v);
      assert ([xs[0]] + rest)[1..] == rest;
    }
  }

  // The head of the sorted list is the first input element of least key.
  lemma {:induction false} SortHead<T>(xs: seq<T>, key: T -> real) returns (i: nat)
    requires xs != []
    ensures i < |xs| && SortBy(xs, key)[0] == xs[i]
    ensures forall j :: 0 <= j < |xs| ==> key(xs[i]) <= key(xs[j])
    ensures forall j :: 0 <= j < i ==> key(xs[i]) < key(xs[j])
  {
    i := 0;
    if |xs| > 1 {
      var k := SortHead(xs[1..], key);
      if key(xs[1 + k]) < key(xs[0]) {
        i := k + 1;
      }
    }
  }

  // Every member of the sorted list comes from the input, and conversely.
  lemma SortMembers<T>(xs: seq<T>, key: T -> real)
    ensures forall x :: x in SortBy(xs, key) <==> x in xs
  {
    SortOrdered(xs, key);
    assert forall x :: x in SortBy(xs, key) <==> x in multiset(SortBy(xs, key));
  }

  /******* Permutations, one element at a time *******/

  function Without<T>(b: seq<T>, i: nat): (r: seq<T>)
    requires i < |b|
    ensures |r| == |b| - 1
  {
    b[..i] + b[i + 1..]
  }

  lemma MultisetWithout<T>(b: seq<T>, i: nat)
    requires i < |b|
    ensures multiset(b) == multiset{b[i]} + multiset(Without(b, i))
  {
    assert b == b[..i] + ([b[i]] + b[i + 1..]);
  }

  lemma CancelOne<T>(x: T, a: multiset<T>, b: multiset<T>)
    requires multiset{x} + a == multiset{x} + b
    ensures a == b
  {
    assert a == multiset{x} + a - multiset{x};
  }

  // The position in b of a's first element, without which the rests are permutations too.
  lemma MatchFirst<T>(a: seq<T>, b: seq<T>) returns (i: nat)
    requires a != [] && multiset(a) == multiset(b)
    ensures i < |b| && b[i] == a[0] && multiset(a[1..]) == multiset(Without(b, i))
  {
    assert a[0] in multiset(b);
    i :| 0 <= i < |b| && b[i] == a[0];
    assert a == [a[0]] + a[1..];
    MultisetWithout(b, i);
    CancelOne(a[0], multiset(a[1..]), multiset(Without(b, i)));
  }
}
