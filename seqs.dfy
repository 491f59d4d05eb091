/** Sequence operations used by the pending-sync ledger. */
module Seqs {

  predicate NoDuplicates<T(==)>(s: seq<T>) {
    forall i, j :: 0 <= i < j < |s| ==> s[i] != s[j]
  }

  /** `a` is obtained from `b` by deleting elements, keeping the order of the rest. */
  predicate IsSubsequence<T(==)>(a: seq<T>, b: seq<T>) {
    if a == [] then true
    else if b == [] then false
    else if a[0] == b[0] then IsSubsequence(a[1..], b[1..])
    else IsSubsequence(a, b[1..])
  }

  /** The `includes` test followed by `push`: x is appended unless already present. */
  function AppendIfAbsent<T(==,!new)>(s: seq<T>, x: T): (r: seq<T>)
    ensures x in r
    ensures s <= r
    ensures forall y :: y in r <==> y in s || y == x
    ensures x in s ==> r == s
    ensures x !in s ==> r == s + [x]
    ensures NoDuplicates(s) ==> NoDuplicates(r)
  {
    if x in s then s else s + [x]
  }

  /** `filter(y => y !== x)`: every occurrence of x removed, the rest kept in order. */
  function Without<T(==)>(s: seq<T>, x: T): (r: seq<T>)
    ensures multiset(r) == multiset(s)[x := 0]
    ensures x !in r
    ensures x !in s ==> r == s
  {
    if s == [] then []
    else
      assert s == [s[0]] + s[1..];
      assert multiset(s) == multiset{s[0]} + multiset(s[1..]);
      var rest := Without(s[1..], x);
      if s[0] == x then rest else [s[0]] + rest
  }

  /** Filtering x out keeps exactly the other elements. */
  lemma WithoutMembers<T>(s: seq<T>, x: T)
    ensures forall y :: y in Without(s, x) <==> y in s && y != x
  {
    forall y ensures y in Without(s, x) <==> y in s && y != x {
      assert y in Without(s, x) <==> y in multiset(Without(s, x));
      assert y in s <==> y in multiset(s);
    }
  }

  /** Every element of xs filtered out of s, one after the other. */
  function WithoutAll<T(==)>(s: seq<T>, xs: seq<T>): seq<T> {
    if xs == [] then s else Without(WithoutAll(s, xs[..|xs| - 1]), xs[|xs| - 1])
  }

  lemma {:induction false} WithoutAllMembers<T>(s: seq<T>, xs: seq<T>)
    ensures forall y :: y in WithoutAll(s, xs) <==> y in s && y !in xs
  {
    if xs != [] {
      var init := xs[..|xs| - 1];
      var last := xs[|xs| - 1];
      WithoutAllMembers(s, init);
      WithoutMembers(WithoutAll(s, init), last);
      assert xs == init + [last];
    }
  }

  /** Filtering a ledger without duplicates keeps it without duplicates, and
      drops exactly one entry when x was present. */
  lemma {:induction false} WithoutDistinct<T>(s: seq<T>, x: T)
    requires NoDuplicates(s)
    ensures NoDuplicates(Without(s, x))
    ensures x in s ==> |Without(s, x)| == |s| - 1
  {
    if s != [] {
      WithoutDistinct(s[1..], x);
      if s[0] != x {
        assert s[0] !in s[1..];
        assert s[0] !in multiset(Without(s[1..], x));
      } else {
        assert x !in s[1..];
      }
    }
  }

  /** Filtering keeps the relative order of the surviving elements. */
  lemma {:induction false} WithoutIsSubsequence<T>(s: seq<T>, x: T)
    ensures IsSubsequence(Without(s, x), s)
  {
    if s != [] {
      WithoutIsSubsequence(s[1..], x);
    }
  }

  /** A sequence without duplicates has as many elements as its set. */
  lemma {:induction false} DistinctCardinality<T>(s: seq<T>)
    requires NoDuplicates(s)
    ensures |set x | x in s| == |s|
  {
    if s != [] {
      var t := s[..|s| - 1];
      var last := s[|s| - 1];
      DistinctCardinality(t);
      assert (set x | x in s) == (set x | x in t) + {last} by {
        assert s == t + [last];
      }
      assert last !in (set x | x in t);
    }
  }

  /** `filter(p)`: the elements satisfying p, in their original order. */
  function Filter<T(!new)>(s: seq<T>, p: T -> bool): (r: seq<T>)
    ensures forall x :: x in r <==> x in s && p(x)
    ensures |r| <= |s|
  {
    if s == [] then []
    else
      var init := s[..|s| - 1];
      var last := s[|s| - 1];
      assert forall x :: x in s <==> x in init || x == last by {
        assert s == init + [last];
      }
      Filter(init, p) + (if p(last) then [last] else [])
  }

  lemma FilterSnoc<T(!new)>(s: seq<T>, x: T, p: T -> bool)
    ensures Filter(s + [x], p) == Filter(s, p) + (if p(x) then [x] else [])
  {
    assert (s + [x])[..|s|] == s;
  }

  /** The number of positions of s whose element satisfies p. */
  ghost function CountWhere<T>(s: seq<T>, p: T -> bool): nat {
    |set i | 0 <= i < |s| && p(s[i])|
  }

  /** `filter(p).length` counts the positions whose element satisfies p. */
  lemma {:induction false} FilterCount<T(!new)>(s: seq<T>, p: T -> bool)
    ensures |Filter(s, p)| == CountWhere(s, p)
  {
    if s != [] {
      FilterCount(s[..|s| - 1], p);
      CountWhereSnoc(s, p);
    }
  }

  /** Counting positions, one more element at the end. */
  lemma CountWhereSnoc<T>(s: seq<T>, p: T -> bool)
    requires s != []
    ensures CountWhere(s, p) == CountWhere(s[..|s| - 1], p) + (if p(s[|s| - 1]) then 1 else 0)
  {
    var init := s[..|s| - 1];
    var before := set i | 0 <= i < |init| && p(init[i]);
    var now := set i | 0 <= i < |s| && p(s[i]);
    forall i | 0 <= i < |init| ensures s[i] == init[i] { }
    if p(s[|s| - 1]) {
      assert now == before + {|init|};
    } else {
      assert now == before;
    }
  }

  /** Filtering by p and then by q is filtering by their conjunction. */
  lemma {:induction false} FilterFilter<T(!new)>(s: seq<T>, p: T -> bool, q: T -> bool, pq: T -> bool)
    requires forall x :: pq(x) == (p(x) && q(x))
    ensures Filter(Filter(s, p), q) == Filter(s, pq)
  {
    if s != [] {
      var init := s[..|s| - 1];
      var last := s[|s| - 1];
      assert s == init + [last];
      FilterFilter(init, p, q, pq);
      FilterSnoc(init, last, p);
      FilterSnoc(init, last, pq);
      FilterSnoc(Filter(init, p), last, q);
      if !p(last) {
        assert Filter(init, p) + [] == Filter(init, p);
      }
    }
  }
}
