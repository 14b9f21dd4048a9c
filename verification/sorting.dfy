/**
 * The stable sort Python uses (`sorted`, `list.sort`) on a real-valued key,
 * in either direction. Equal keys keep their input order; with
 * `descending` (Python's `reverse=True`) this is still so.
 */
module Sorting {
  import opened Seqs

  /** `a` may stand before `b` in the requested direction. */
  predicate InOrder(a: real, b: real, descending: bool)
  {
    if descending then a >= b else a <= b
  }

  predicate Ordered<T>(s: seq<T>, key: T -> real, descending: bool)
  {
    forall i, j :: 0 <= i < j < |s| ==> InOrder(key(s[i]), key(s[j]), descending)
  }

  /** Inserts `x` before the first element it may precede, so before its equals. */
  function Insert<T>(x: T, s: seq<T>, key: T -> real, descending: bool): (r: seq<T>)
    requires Ordered(s, key, descending)
    ensures multiset(r) == multiset(s) + multiset{x}
    ensures Ordered(r, key, descending)
  {
    if s == [] || InOrder(key(x), key(s[0]), descending) then
      [x] + s
    else
      var rest := Insert(x, s[1..], key, descending);
      assert s == [s[0]] + s[1..];
      InsertBehindHead(x, s, rest, key, descending);
      [s[0]] + rest
  }

  lemma InsertBehindHead<T>(x: T, s: seq<T>, rest: seq<T>, key: T -> real, descending: bool)
    requires s != [] && Ordered(s, key, descending)
    requires !InOrder(key(x), key(s[0]), descending)
    requires Ordered(rest, key, descending)
    requires multiset(rest) == multiset(s[1..]) + multiset{x}
    ensures Ordered([s[0]] + rest, key, descending)
  {
    forall k | 0 <= k < |rest|
      ensures InOrder(key(s[0]), key(rest[k]), descending)
    {
      assert rest[k] in multiset(rest);
      if rest[k] != x {
        assert rest[k] in multiset(s[1..]);
        assert rest[k] in s[1..];
        var m :| 1 <= m < |s| && s[m] == rest[k];
      }
    }
    var r := [s[0]] + rest;
    forall i, j | 0 <= i < j < |r|
      ensures InOrder(key(r[i]), key(r[j]), descending)
    {
      assert r[j] == rest[j - 1];
      if i > 0 {
        assert r[i] == rest[i - 1];
      }
    }
  }

  function SortBy<T>(s: seq<T>, key: T -> real, descending: bool): (r: seq<T>)
    ensures multiset(r) == multiset(s)
    ensures |r| == |s|
    ensures Ordered(r, key, descending)
  {
    if s == [] then []
    else
      assert s == [s[0]] + s[1..];
      Insert(s[0], SortBy(s[1..], key, descending), key, descending)
  }

  /** The elements of `s` whose key is `v`, in their order in `s`. */
  function WithKey<T(==)>(s: seq<T>, key: T -> real, v: real): seq<T>
  {
    FilterSeq(s, x => key(x) == v)
  }

  /** `x` lands in front of the elements with its key and leaves their order alone. */
  lemma {:induction false} InsertStable<T>(x: T, s: seq<T>, key: T -> real, descending: bool, v: real)
    requires Ordered(s, key, descending)
    ensures WithKey(Insert(x, s, key, descending), key, v) == (if key(x) == v then [x] else []) + WithKey(s, key, v)
    decreases |s|
  {
    if s == [] || InOrder(key(x), key(s[0]), descending) {
      WithKeyCons(x, s, key, v);
    } else {
      var rest := Insert(x, s[1..], key, descending);
      assert Insert(x, s, key, descending) == [s[0]] + rest;
      OrderedTail(s, key, descending);
      InsertStable(x, s[1..], key, descending, v);
      assert s == [s[0]] + s[1..];
      WithKeyBehindHead(x, s[0], s[1..], rest, key, v);
    }
  }

  /** Putting a head with a different key in front of both sides keeps the equation. */
  lemma WithKeyBehindHead<T>(x: T, h: T, t: seq<T>, rest: seq<T>, key: T -> real, v: real)
    requires key(x) != key(h)
    requires WithKey(rest, key, v) == (if key(x) == v then [x] else []) + WithKey(t, key, v)
    ensures WithKey([h] + rest, key, v) == (if key(x) == v then [x] else []) + WithKey([h] + t, key, v)
  {
    WithKeyCons(h, rest, key, v);
    WithKeyCons(h, t, key, v);
    var head: seq<T> := if key(h) == v then [h] else [];
    var ins: seq<T> := if key(x) == v then [x] else [];
    var tail := WithKey(t, key, v);
    if key(x) == v {
      assert head == [];
      assert head + (ins + tail) == ins + tail;
    } else {
      assert ins == [];
      assert ins + (head + tail) == head + tail;
    }
  }

  lemma WithKeyCons<T>(h: T, t: seq<T>, key: T -> real, v: real)
    ensures WithKey([h] + t, key, v) == (if key(h) == v then [h] else []) + WithKey(t, key, v)
  {
    assert ([h] + t)[0] == h && ([h] + t)[1..] == t;
  }

  lemma OrderedTail<T>(s: seq<T>, key: T -> real, descending: bool)
    requires s != [] && Ordered(s, key, descending)
    ensures Ordered(s[1..], key, descending)
  {
    forall i, j | 0 <= i < j < |s| - 1
      ensures InOrder(key(s[1..][i]), key(s[1..][j]), descending)
    {
      assert s[1..][i] == s[i + 1] && s[1..][j] == s[j + 1];
    }
  }

  /**
   * The sort is stable: for every key value, the elements with that key
   * come out in the order they went in.
   */
  lemma {:induction false} SortByStable<T>(s: seq<T>, key: T -> real, descending: bool)
    ensures forall v :: WithKey(SortBy(s, key, descending), key, v) == WithKey(s, key, v)
  {
    if s != [] {
      SortByStable(s[1..], key, descending);
      forall v
        ensures WithKey(SortBy(s, key, descending), key, v) == WithKey(s, key, v)
      {
        InsertStable(s[0], SortBy(s[1..], key, descending), key, descending, v);
      }
    }
  }

  /** Keeping the elements with one key keeps any order the list had on another key. */
  lemma {:induction false} WithKeyOrdered<T>(s: seq<T>, key: T -> real, v: real, key2: T -> real, descending: bool)
    requires Ordered(s, key2, descending)
    ensures Ordered(WithKey(s, key, v), key2, descending)
  {
    if s != [] {
      var rest := WithKey(s[1..], key, v);
      OrderedTail(s, key2, descending);
      WithKeyOrdered(s[1..], key, v, key2, descending);
      assert s == [s[0]] + s[1..];
      WithKeyCons(s[0], s[1..], key, v);
      if key(s[0]) == v {
        var r := [s[0]] + rest;
        forall i, j | 0 <= i < j < |r|
          ensures InOrder(key2(r[i]), key2(r[j]), descending)
        {
          assert r[j] == rest[j - 1];
          if i > 0 {
            assert r[i] == rest[i - 1];
          } else {
            assert rest[j - 1] in s[1..];
            var m :| 0 <= m < |s| - 1 && s[1..][m] == rest[j - 1];
            assert s[m + 1] == r[j];
          }
        }
      }
    }
  }

  /** In a list whose elements with key `v` are ordered on `key2`, any two such elements are. */
  lemma {:induction false} OrderedWithinKey<T>(s: seq<T>, key: T -> real, v: real, key2: T -> real, descending: bool)
    requires Ordered(WithKey(s, key, v), key2, descending)
    ensures forall i, j :: 0 <= i < j < |s| && key(s[i]) == v && key(s[j]) == v ==>
              InOrder(key2(s[i]), key2(s[j]), descending)
  {
    if s != [] {
      var rest := WithKey(s[1..], key, v);
      assert s == [s[0]] + s[1..];
      WithKeyCons(s[0], s[1..], key, v);
      if key(s[0]) == v {
        OrderedTail([s[0]] + rest, key2, descending);
        assert ([s[0]] + rest)[1..] == rest;
      }
      OrderedWithinKey(s[1..], key, v, key2, descending);
      forall i, j | 0 <= i < j < |s| && key(s[i]) == v && key(s[j]) == v
        ensures InOrder(key2(s[i]), key2(s[j]), descending)
      {
        assert s[j] == s[1..][j - 1];
        if i == 0 {
          assert s[j] in s[1..];
          assert s[j] in rest;
          var k :| 0 <= k < |rest| && rest[k] == s[j];
          assert ([s[0]] + rest)[k + 1] == s[j];
        } else {
          assert s[i] == s[1..][i - 1];
        }
      }
    }
  }

  /**
   * A reordering that keeps every key class in its input order (as a
   * stable sort does) keeps, between elements with equal keys, the order
   * the input had on a second key.
   */
  lemma TiesKeepOrder<T>(s: seq<T>, sorted: seq<T>, key: T -> real, key2: T -> real, descending: bool)
    requires Ordered(s, key2, descending)
    requires forall v :: WithKey(sorted, key, v) == WithKey(s, key, v)
    ensures forall i, j :: 0 <= i < j < |sorted| && key(sorted[i]) == key(sorted[j]) ==>
              InOrder(key2(sorted[i]), key2(sorted[j]), descending)
  {
    forall i, j | 0 <= i < j < |sorted| && key(sorted[i]) == key(sorted[j])
      ensures InOrder(key2(sorted[i]), key2(sorted[j]), descending)
    {
      var v := key(sorted[i]);
      WithKeyOrdered(s, key, v, key2, descending);
      assert WithKey(sorted, key, v) == WithKey(s, key, v);
      OrderedWithinKey(sorted, key, v, key2, descending);
    }
  }

  /** A list that is already in order comes back exactly as it was. */
  lemma {:induction false} SortByOrdered<T>(s: seq<T>, key: T -> real, descending: bool)
    requires Ordered(s, key, descending)
    ensures SortBy(s, key, descending) == s
  {
    if s != [] {
      SortByOrdered(s[1..], key, descending);
      assert s == [s[0]] + s[1..];
    }
  }

  /** `rel` holds between the elements at any two different positions. */
  ghost predicate Pairwise<T>(s: seq<T>, rel: (T, T) -> bool)
  {
    forall i, j :: 0 <= i < |s| && 0 <= j < |s| && i != j ==> rel(s[i], s[j])
  }

  lemma PairwiseCons<T>(h: T, rest: seq<T>, rel: (T, T) -> bool)
    requires Pairwise(rest, rel)
    requires forall y <- rest :: rel(h, y) && rel(y, h)
    ensures Pairwise([h] + rest, rel)
  {
    var r := [h] + rest;
    forall i, j | 0 <= i < |r| && 0 <= j < |r| && i != j
      ensures rel(r[i], r[j])
    {
      if i > 0 { assert r[i] == rest[i - 1]; }
      if j > 0 { assert r[j] == rest[j - 1]; }
    }
  }

  lemma PairwiseTail<T>(s: seq<T>, rel: (T, T) -> bool)
    requires s != [] && Pairwise(s, rel)
    ensures Pairwise(s[1..], rel)
    ensures forall y <- s[1..] :: rel(s[0], y) && rel(y, s[0])
  {
    var tail := s[1..];
    forall i, j | 0 <= i < |tail| && 0 <= j < |tail| && i != j
      ensures rel(tail[i], tail[j])
    {
      assert tail[i] == s[i + 1] && tail[j] == s[j + 1];
    }
    forall y <- tail
      ensures rel(s[0], y) && rel(y, s[0])
    {
      var m :| 0 <= m < |tail| && tail[m] == y;
      assert s[m + 1] == y;
    }
  }

  /** Elements of a permutation of `s` are elements of `s`. */
  lemma PermutationMembers<T>(a: seq<T>, b: seq<T>)
    requires multiset(a) == multiset(b)
    ensures forall y <- a :: y in b
  {
    forall y <- a ensures y in b {
      assert y in multiset(a);
    }
  }

  lemma {:induction false} InsertPairwise<T>(x: T, s: seq<T>, key: T -> real, descending: bool, rel: (T, T) -> bool)
    requires Ordered(s, key, descending) && Pairwise(s, rel)
    requires forall y <- s :: rel(x, y) && rel(y, x)
    ensures Pairwise(Insert(x, s, key, descending), rel)
  {
    if s == [] || InOrder(key(x), key(s[0]), descending) {
      PairwiseCons(x, s, rel);
    } else {
      var tail := s[1..];
      PairwiseTail(s, rel);
      assert forall y <- tail :: y in s;
      InsertPairwise(x, tail, key, descending, rel);
      var rest := Insert(x, tail, key, descending);
      PermutationMembers(rest, tail + [x]);
      assert forall y <- rest :: y in tail || y == x;
      PairwiseCons(s[0], rest, rel);
    }
  }

  /** Sorting keeps every relation that held between all pairs of positions (such as "different names"). */
  lemma {:induction false} SortByPairwise<T>(s: seq<T>, key: T -> real, descending: bool, rel: (T, T) -> bool)
    requires Pairwise(s, rel)
    ensures Pairwise(SortBy(s, key, descending), rel)
  {
    if s != [] {
      var tail := s[1..];
      PairwiseTail(s, rel);
      SortByPairwise(tail, key, descending, rel);
      var sorted := SortBy(tail, key, descending);
      PermutationMembers(sorted, tail);
      InsertPairwise(s[0], sorted, key, descending, rel);
    }
  }
}
