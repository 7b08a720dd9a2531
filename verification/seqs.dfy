/** Generic sequence vocabulary used by every other module: an order-preserving
    filter, an element-wise map, and the subsequence relation, with the facts
    about them that the case-discovery proofs rely on. */
module Seqs {

  /** The elements of `s` that satisfy `p`, in their original order. */
  function Filter<T>(p: T -> bool, s: seq<T>): (r: seq<T>)
    ensures |r| <= |s|
    decreases |s|
  {
    if s == [] then []
    else if p(s[0]) then [s[0]] + Filter(p, s[1..])
    else Filter(p, s[1..])
  }

  /** An element is kept exactly when it is in `s` and passes `p`. */
  lemma {:induction false} FilterMembers<T>(p: T -> bool, s: seq<T>)
    ensures forall x :: x in Filter(p, s) <==> x in s && p(x)
    decreases |s|
  {
    if s != [] {
      FilterMembers(p, s[1..]);
      assert s == [s[0]] + s[1..];
    }
  }

  /** `f` applied to every element of `s`, in order. */
  function Map<T, U>(f: T -> U, s: seq<T>): (r: seq<U>)
    ensures |r| == |s|
    ensures forall i :: 0 <= i < |s| ==> r[i] == f(s[i])
    decreases |s|
  {
    if s == [] then [] else [f(s[0])] + Map(f, s[1..])
  }

  /** `a` can be obtained from `b` by deleting elements: its elements occur in
      `b` in the same relative order. */
  predicate Subseq<T(==)>(a: seq<T>, b: seq<T>)
    decreases |b|
  {
    && |a| <= |b|
    && (|| a == []
        || (a[0] == b[0] && Subseq(a[1..], b[1..]))
        || Subseq(a, b[1..]))
  }

  /** Complement of a predicate. */
  function Not<T>(p: T -> bool): T -> bool
  {
    x => !p(x)
  }

  /** Both predicates at once. */
  function And<T>(p: T -> bool, q: T -> bool): T -> bool
  {
    x => p(x) && q(x)
  }

  lemma {:induction false} FilterConcat<T>(p: T -> bool, a: seq<T>, b: seq<T>)
    ensures Filter(p, a + b) == Filter(p, a) + Filter(p, b)
    decreases |a|
  {
    if a == [] {
      assert a + b == b;
    } else {
      assert (a + b)[0] == a[0];
      assert (a + b)[1..] == a[1..] + b;
      FilterConcat(p, a[1..], b);
    }
  }

  /** Filtering one element at the end of a sequence: the step of every loop
      that walks a sequence and keeps some of its elements. */
  lemma FilterSnoc<T>(p: T -> bool, s: seq<T>, x: T)
    ensures Filter(p, s + [x]) == Filter(p, s) + (if p(x) then [x] else [])
  {
    FilterConcat(p, s, [x]);
    assert Filter(p, [x]) == (if p(x) then [x] else []) by {
      assert [x][1..] == [];
    }
  }

  /** Filtering keeps exactly the occurrences that satisfy the predicate. */
  lemma {:induction false} FilterMultiset<T>(p: T -> bool, s: seq<T>, x: T)
    ensures multiset(Filter(p, s))[x] == if p(x) then multiset(s)[x] else 0
    decreases |s|
  {
    if s != [] {
      FilterMultiset(p, s[1..], x);
      assert s == [s[0]] + s[1..];
      assert multiset(s) == multiset{s[0]} + multiset(s[1..]);
    }
  }

  /** A predicate and its complement split a sequence: together the two
      filters hold every element exactly as often as the sequence does. */
  lemma {:induction false} FilterPartition<T>(p: T -> bool, s: seq<T>)
    ensures multiset(Filter(p, s)) + multiset(Filter(Not(p), s)) == multiset(s)
    ensures |Filter(p, s)| + |Filter(Not(p), s)| == |s|
    decreases |s|
  {
    if s != [] {
      FilterPartition(p, s[1..]);
      assert s == [s[0]] + s[1..];
      assert multiset(s) == multiset{s[0]} + multiset(s[1..]);
    }
  }

  lemma {:induction false} FilterIsSubseq<T>(p: T -> bool, s: seq<T>)
    ensures Subseq(Filter(p, s), s)
    decreases |s|
  {
    if s != [] {
      FilterIsSubseq(p, s[1..]);
      var r := Filter(p, s[1..]);
      if p(s[0]) {
        assert ([s[0]] + r)[1..] == r;
      }
    }
  }

  /** Filtering twice is filtering by the conjunction, in either order. */
  lemma {:induction false} FilterFilter<T>(p: T -> bool, q: T -> bool, s: seq<T>)
    ensures Filter(p, Filter(q, s)) == Filter(And(p, q), s)
    ensures Filter(q, Filter(p, s)) == Filter(And(p, q), s)
    decreases |s|
  {
    if s != [] {
      FilterFilter(p, q, s[1..]);
      if q(s[0]) {
        assert Filter(q, s) == [s[0]] + Filter(q, s[1..]);
        assert (Filter(q, s))[0] == s[0];
        assert (Filter(q, s))[1..] == Filter(q, s[1..]);
      }
      if p(s[0]) {
        assert Filter(p, s) == [s[0]] + Filter(p, s[1..]);
        assert (Filter(p, s))[1..] == Filter(p, s[1..]);
      }
    }
  }

  /** A filter that every element passes changes nothing. */
  lemma {:induction false} FilterAll<T>(p: T -> bool, s: seq<T>)
    requires forall x :: x in s ==> p(x)
    ensures Filter(p, s) == s
    decreases |s|
  {
    if s != [] {
      FilterAll(p, s[1..]);
      assert s == [s[0]] + s[1..];
    }
  }

  /** A filter that no element passes leaves nothing. */
  lemma {:induction false} FilterNone<T>(p: T -> bool, s: seq<T>)
    requires forall x :: x in s ==> !p(x)
    ensures Filter(p, s) == []
    decreases |s|
  {
    if s != [] {
      FilterNone(p, s[1..]);
    }
  }

  /** Python's `list.remove(x)`: drop the first element equal to `x`. */
  /** Where `x` first occurs in `s`: `s.index(x)`. */
  function FirstIndex<T(==)>(s: seq<T>, x: T): (i: nat)
    requires x in s
    ensures i < |s| && s[i] == x && x !in s[..i]
    decreases |s|
  {
    if s[0] == x then 0
    else
      var i := 1 + FirstIndex(s[1..], x);
      assert s[..i] == [s[0]] + s[1..][..i - 1];
      i
  }

  function RemoveFirst<T(==)>(s: seq<T>, x: T): (r: seq<T>)
    requires x in s
    ensures |r| == |s| - 1
    ensures r == s[..FirstIndex(s, x)] + s[FirstIndex(s, x) + 1..]
    decreases |s|
  {
    if s[0] == x then s[1..]
    else
      var i := FirstIndex(s[1..], x);
      assert s[..i + 1] == [s[0]] + s[1..][..i];
      assert s[i + 2..] == s[1..][i + 1..];
      [s[0]] + RemoveFirst(s[1..], x)
  }

  /** The first occurrence is the only occurrence with none before it. */
  lemma FirstIndexUnique<T>(s: seq<T>, x: T, j: int)
    requires 0 <= j < |s| && s[j] == x && x !in s[..j]
    ensures FirstIndex(s, x) == j
  {
  }

  /** Removing an element that does not occur in the prefix `a` removes the
      occurrence right after it. */
  lemma RemoveFirstAfter<T>(a: seq<T>, x: T, rest: seq<T>)
    requires x !in a
    ensures RemoveFirst(a + ([x] + rest), x) == a + rest
  {
    var s := a + ([x] + rest);
    assert s[..|a|] == a;
    assert s[|a|] == x;
    FirstIndexUnique(s, x, |a|);
    var r := RemoveFirst(s, x);
    assert r == s[..|a|] + s[|a| + 1..];
    assert s[|a| + 1..] == rest;
  }

  /** One step of filtering a list in place by walking a copy of it and
      removing each element that fails: with the elements of `done` already
      filtered, the next one, `x`, either stays or is the first occurrence
      removed. */
  lemma FilterStep<T>(p: T -> bool, done: seq<T>, x: T, rest: seq<T>)
    ensures p(x) ==> Filter(p, done) + ([x] + rest) == Filter(p, done + [x]) + rest
    ensures !p(x) ==> RemoveFirst(Filter(p, done) + ([x] + rest), x) == Filter(p, done + [x]) + rest
  {
    var f := Filter(p, done);
    FilterSnoc(p, done, x);
    if p(x) {
      assert f + ([x] + rest) == (f + [x]) + rest;
    } else {
      FilterMembers(p, done);
      RemoveFirstAfter(f, x, rest);
    }
  }

  /** The element at `i` moved from the unvisited part of `s` to the visited
      part. */
  lemma SplitAt<T>(s: seq<T>, i: int)
    requires 0 <= i < |s|
    ensures s[..i + 1] == s[..i] + [s[i]]
    ensures s[i..] == [s[i]] + s[i + 1..]
  {
  }
}
