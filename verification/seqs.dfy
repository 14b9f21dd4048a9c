/**
 * Sequence helpers behind Python's list comprehensions with an `if`
 * clause, `dict.get(w, 0) + 1` counting, and dict insertion order.
 */
module Seqs {

  /** `[x for x in s if keep(x)]`. */
  function FilterSeq<T(==)>(s: seq<T>, keep: T -> bool): (r: seq<T>)
    ensures |r| <= |s|
    ensures forall k :: 0 <= k < |r| ==> keep(r[k])
    ensures forall x <- r :: x in s
    ensures forall x <- s :: keep(x) ==> x in r
    ensures (forall k :: 0 <= k < |s| ==> keep(s[k])) ==> r == s
  {
    if s == [] then []
    else
      var rest := FilterSeq(s[1..], keep);
      assert forall x <- s[1..] :: x in s;
      assert forall x <- s :: x == s[0] || x in s[1..];
      if keep(s[0]) then [s[0]] + rest else rest
  }

  /** Filtering distributes over concatenation: it keeps the order of what it keeps. */
  lemma {:induction false} FilterAppend<T>(a: seq<T>, b: seq<T>, keep: T -> bool)
    ensures FilterSeq(a + b, keep) == FilterSeq(a, keep) + FilterSeq(b, keep)
  {
    if a != [] {
      assert (a + b)[0] == a[0] && (a + b)[1..] == a[1..] + b;
      FilterAppend(a[1..], b, keep);
    } else {
      assert a + b == b;
    }
  }

  /** Filtering keeps every copy of each element that passes and no copy of any other. */
  lemma {:induction false} FilterMultiset<T>(s: seq<T>, keep: T -> bool)
    ensures forall x :: multiset(FilterSeq(s, keep))[x] == if keep(x) then multiset(s)[x] else 0
  {
    if s != [] {
      FilterMultiset(s[1..], keep);
      assert s == [s[0]] + s[1..];
    }
  }

  /** Two filters in a row keep exactly what passes both. */
  lemma {:induction false} FilterFilter<T>(s: seq<T>, f: T -> bool, g: T -> bool)
    ensures FilterSeq(FilterSeq(s, f), g) == FilterSeq(s, x => f(x) && g(x))
  {
    if s != [] {
      FilterFilter(s[1..], f, g);
    }
  }

  /** Filtering with two tests that agree on every element gives the same result. */
  lemma {:induction false} FilterCongruent<T>(s: seq<T>, f: T -> bool, g: T -> bool)
    requires forall x <- s :: f(x) == g(x)
    ensures FilterSeq(s, f) == FilterSeq(s, g)
  {
    if s != [] {
      FilterCongruent(s[1..], f, g);
    }
  }

  /** `a` can be obtained from `b` by deleting elements. */
  ghost predicate IsSubsequence<T>(a: seq<T>, b: seq<T>)
    decreases |b|
  {
    a == [] ||
    (b != [] && ((a[0] == b[0] && IsSubsequence(a[1..], b[1..])) || IsSubsequence(a, b[1..])))
  }

  lemma {:induction false} FilterIsSubsequence<T>(s: seq<T>, keep: T -> bool)
    ensures IsSubsequence(FilterSeq(s, keep), s)
  {
    if s != [] {
      FilterIsSubsequence(s[1..], keep);
      var rest := FilterSeq(s[1..], keep);
      if !keep(s[0]) && rest != [] {
        SubsequenceSkip(rest, s[1..], s[0]);
      }
    }
  }

  lemma {:induction false} SubsequenceSkip<T>(a: seq<T>, b: seq<T>, x: T)
    requires IsSubsequence(a, b)
    ensures IsSubsequence(a, [x] + b)
    decreases |b|
  {
    assert ([x] + b)[1..] == b;
  }

  /** Number of occurrences of `x` in `s`. */
  function Count<T(==)>(s: seq<T>, x: T): nat
  {
    if s == [] then 0
    else Count(s[..|s| - 1], x) + (if s[|s| - 1] == x then 1 else 0)
  }

  lemma {:induction false} CountPositive<T>(s: seq<T>, x: T)
    ensures Count(s, x) > 0 <==> x in s
    ensures Count(s, x) <= |s|
  {
    if s != [] {
      var init := s[..|s| - 1];
      CountPositive(init, x);
      assert s == init + [s[|s| - 1]];
      assert x in s <==> x in init || x == s[|s| - 1];
    }
  }

  /** The elements of `s` in order of first occurrence (dict key order). */
  function Distinct<T(==)>(s: seq<T>): (d: seq<T>)
    ensures forall x <- d :: x in s
    ensures forall x <- s :: x in d
    ensures forall i, j :: 0 <= i < j < |d| ==> d[i] != d[j]
  {
    if s == [] then []
    else
      var init := s[..|s| - 1];
      var d := Distinct(init);
      assert s == init + [s[|s| - 1]];
      if s[|s| - 1] in d then d else d + [s[|s| - 1]]
  }

  /** `d[i]` occurs in `s` before every occurrence of any later `d[j]`. */
  ghost predicate InFirstOccurrenceOrder<T>(d: seq<T>, s: seq<T>)
  {
    forall i, j, k :: 0 <= i < j < |d| && 0 <= k < |s| && s[k] == d[j] ==> d[i] in s[..k]
  }

  /** The keys come in the order in which they first occur, as a dict's keys do. */
  lemma {:induction false} DistinctOrder<T>(s: seq<T>)
    ensures InFirstOccurrenceOrder(Distinct(s), s)
  {
    if s != [] {
      var init, x := s[..|s| - 1], s[|s| - 1];
      var d := Distinct(init);
      DistinctOrder(init);
      assert s == init + [x];
      var r := Distinct(s);
      forall i, j, k | 0 <= i < j < |r| && 0 <= k < |s| && s[k] == r[j]
        ensures r[i] in s[..k]
      {
        assert r[i] == d[i];
        if k < |init| {
          assert s[k] == init[k] && s[..k] == init[..k];
          assert r[j] in init;
          assert j < |d|;
          assert r[j] == d[j];
        } else {
          assert s[..k] == init;
        }
      }
    }
  }
}
