/**
 * Removing every occurrence of one element from a sequence, keeping the
 * others in order: the `Where(x => x != item)` filter that deletes a light.
 * On a sequence of objects, `==` is reference equality, as in the filter.
 */
module Removal {

  /** No element occurs twice. */
  predicate Distinct<T(==)>(s: seq<T>)
  {
    forall i, j :: 0 <= i < j < |s| ==> s[i] != s[j]
  }

  /** s with every element equal to x dropped, the rest in their original order. */
  function Without<T(==)>(s: seq<T>, x: T): (r: seq<T>)
    ensures x !in r
    ensures forall i :: 0 <= i < |r| ==> r[i] in s
    ensures forall i :: 0 <= i < |s| && s[i] != x ==> s[i] in r
    ensures |r| <= |s|
    ensures |r| == |s| <==> x !in s
  {
    if s == [] then []
    else if s[0] == x then Without(s[1..], x)
    else [s[0]] + Without(s[1..], x)
  }

  /** Filtering distributes over concatenation: relative order is kept. */
  lemma {:induction false} WithoutConcat<T>(a: seq<T>, b: seq<T>, x: T)
    ensures Without(a + b, x) == Without(a, x) + Without(b, x)
  {
    if a == [] {
      assert a + b == b;
    } else {
      assert (a + b)[1..] == a[1..] + b;
      WithoutConcat(a[1..], b, x);
    }
  }

  /** Exactly the copies of x are gone: every other element keeps its multiplicity. */
  lemma {:induction false} WithoutMultiset<T>(s: seq<T>, x: T)
    ensures multiset(Without(s, x)) == multiset(s)[x := 0]
  {
    if s != [] {
      var t := s[1..];
      WithoutMultiset(t, x);
      assert s == [s[0]] + t;
      assert multiset(s) == multiset{s[0]} + multiset(t);
      if s[0] != x {
        assert Without(s, x) == [s[0]] + Without(t, x);
        assert multiset(Without(s, x)) == multiset{s[0]} + multiset(Without(t, x));
      }
    }
  }

  /** An element that does not occur leaves the sequence unchanged. */
  lemma {:induction false} WithoutAbsent<T>(s: seq<T>, x: T)
    requires x !in s
    ensures Without(s, x) == s
  {
    if s != [] {
      WithoutAbsent(s[1..], x);
      assert s == [s[0]] + s[1..];
    }
  }

  /** Removing the same element a second time changes nothing. */
  lemma WithoutIdempotent<T>(s: seq<T>, x: T)
    ensures Without(Without(s, x), x) == Without(s, x)
  {
    WithoutAbsent(Without(s, x), x);
  }

  /** An element held at exactly one position p: removing it cuts out position p. */
  lemma {:induction false} WithoutAtUniquePosition<T>(s: seq<T>, p: nat, x: T)
    requires p < |s| && s[p] == x
    requires forall q :: 0 <= q < |s| && q != p ==> s[q] != x
    ensures Without(s, x) == s[..p] + s[p + 1..]
  {
    var front, back := s[..p], s[p + 1..];
    assert s == front + ([x] + back);
    WithoutConcat(front, [x] + back, x);
    assert x !in front;
    WithoutAbsent(front, x);
    assert ([x] + back)[1..] == back;
    assert Without([x] + back, x) == Without(back, x);
    assert x !in back;
    WithoutAbsent(back, x);
  }

  /** Filtering a sequence without repetitions leaves one without repetitions. */
  lemma {:induction false} WithoutDistinct<T>(s: seq<T>, x: T)
    requires Distinct(s)
    ensures Distinct(Without(s, x))
  {
    if s != [] {
      assert Distinct(s[1..]);
      WithoutDistinct(s[1..], x);
    }
  }

  /** In a sequence without repetitions, a present element is removed exactly once. */
  lemma WithoutDistinctLength<T>(s: seq<T>, x: T)
    requires Distinct(s)
    ensures |Without(s, x)| == if x in s then |s| - 1 else |s|
  {
    if x in s {
      var p :| 0 <= p < |s| && s[p] == x;
      WithoutAtUniquePosition(s, p, x);
    }
  }
}
