/** Sequence helpers shared by both stores: filtering (a SQL `WHERE`, a
    Prisma `findMany({ where })`) and sorting (`ORDER BY`, Python's `sorted`). */
module Seqs {

  /** Some element of a non-empty set. */
  lemma Choose<T>(s: set<T>) returns (x: T)
    requires s != {}
    ensures x in s
  {
    x :| x in s;
  }

  lemma {:induction false} MinExists(s: set<int>)
    requires s != {}
    ensures exists m :: m in s && forall k :: k in s ==> m <= k
  {
    var x := Choose(s);
    var rest := s - {x};
    if rest == {} {
      assert s == {x};
    } else {
      MinExists(rest);
      var m :| m in rest && forall k :: k in rest ==> m <= k;
      var low := if x < m then x else m;
      assert forall k :: k in s ==> k == x || k in rest;
      assert low in s && forall k :: k in s ==> low <= k;
    }
  }

  /** The least element of a non-empty set of keys. */
  function Least(s: set<int>): (m: int)
    requires s != {}
    ensures m in s && forall k :: k in s ==> m <= k
  {
    MinExists(s);
    var m :| m in s && forall k :: k in s ==> m <= k;
    m
  }

  /** The keys in ascending order: the order in which SQLite returns the rows
      of a rowid table when no `ORDER BY` is given. */
  function InKeyOrder(s: set<int>): (r: seq<int>)
    ensures forall x :: x in r <==> x in s
    ensures forall i, j :: 0 <= i < j < |r| ==> r[i] < r[j]
    decreases |s|
  {
    if s == {} then []
    else
      var m := Least(s);
      [m] + InKeyOrder(s - {m})
  }

  /** Listing a set in key order keeps each key exactly once. */
  lemma {:induction false} InKeyOrderMultiset(s: set<int>)
    ensures multiset(InKeyOrder(s)) == multiset(s)
    decreases |s|
  {
    if s != {} {
      var m := Least(s);
      InKeyOrderMultiset(s - {m});
      assert s == {m} + (s - {m});
      assert multiset(s) == multiset{m} + multiset(s - {m});
    }
  }

  /** The elements of `s` that satisfy `keep`, in their original order. */
  function Filter<T(!new)>(s: seq<T>, keep: T -> bool): (r: seq<T>)
    ensures |r| <= |s|
    ensures forall x :: x in r <==> x in s && keep(x)
  {
    if s == [] then [] else (if keep(s[0]) then [s[0]] else []) + Filter(s[1..], keep)
  }

  /** Filtering drops a sequence none of whose elements is kept. */
  lemma {:induction false} FilterNone<T(!new)>(s: seq<T>, keep: T -> bool)
    requires forall i :: 0 <= i < |s| ==> !keep(s[i])
    ensures Filter(s, keep) == []
  {
    if s != [] {
      assert forall i :: 0 <= i < |s[1..]| ==> s[1..][i] == s[i + 1];
      FilterNone(s[1..], keep);
    }
  }

  /** Filtering keeps every kept element as often as it occurred. */
  lemma {:induction false} FilterMultiset<T(!new)>(s: seq<T>, keep: T -> bool)
    ensures forall x :: multiset(Filter(s, keep))[x] == if keep(x) then multiset(s)[x] else 0
  {
    if s != [] {
      FilterMultiset(s[1..], keep);
      assert s == [s[0]] + s[1..];
    }
  }

  lemma {:induction false} FilterAppend<T(!new)>(a: seq<T>, b: seq<T>, keep: T -> bool)
    ensures Filter(a + b, keep) == Filter(a, keep) + Filter(b, keep)
  {
    if a == [] {
      assert a + b == b;
    } else {
      assert (a + b)[0] == a[0];
      assert (a + b)[1..] == a[1..] + b;
      FilterAppend(a[1..], b, keep);
      assert Filter(a + b, keep) == (if keep(a[0]) then [a[0]] else []) + Filter(a[1..] + b, keep);
    }
  }

  /** Every earlier element stands in relation `ok` to every later one. */
  ghost predicate Pairwise<T>(s: seq<T>, ok: (T, T) -> bool)
  {
    forall i, j :: 0 <= i < j < |s| ==> ok(s[i], s[j])
  }

  lemma PairwiseTail<T>(s: seq<T>, ok: (T, T) -> bool)
    requires s != [] && Pairwise(s, ok)
    ensures Pairwise(s[1..], ok)
  {
    var tail := s[1..];
    forall i, j | 0 <= i < j < |tail| ensures ok(tail[i], tail[j]) {
      assert tail[i] == s[i + 1] && tail[j] == s[j + 1];
    }
  }

  lemma PairwiseHead<T>(s: seq<T>, ok: (T, T) -> bool)
    requires s != [] && Pairwise(s, ok)
    ensures forall y :: y in s[1..] ==> ok(s[0], y)
  {
    forall y | y in s[1..] ensures ok(s[0], y) {
      var k :| 0 <= k < |s[1..]| && s[1..][k] == y;
      assert s[k + 1] == y;
    }
  }

  lemma PairwiseCons<T>(x: T, t: seq<T>, ok: (T, T) -> bool)
    requires Pairwise(t, ok)
    requires forall y :: y in t ==> ok(x, y)
    ensures Pairwise([x] + t, ok)
  {
    var r := [x] + t;
    forall i, j | 0 <= i < j < |r| ensures ok(r[i], r[j]) {
      assert r[j] == t[j - 1];
      if i > 0 {
        assert r[i] == t[i - 1];
      }
    }
  }

  lemma {:induction false} FilterKeepsPairwise<T(!new)>(s: seq<T>, keep: T -> bool, ok: (T, T) -> bool)
    requires Pairwise(s, ok)
    ensures Pairwise(Filter(s, keep), ok)
  {
    if s != [] {
      PairwiseTail(s, ok);
      FilterKeepsPairwise(s[1..], keep, ok);
      if keep(s[0]) {
        PairwiseHead(s, ok);
        PairwiseCons(s[0], Filter(s[1..], keep), ok);
      }
    }
  }


  /** `lt` is irreflexive and transitive, and incomparability is transitive:
      what a sort key (a tuple compared component by component) gives. */
  ghost predicate StrictWeakOrder<T(!new)>(lt: (T, T) -> bool)
  {
    && (forall a :: !lt(a, a))
    && (forall a, b, c :: lt(a, b) && lt(b, c) ==> lt(a, c))
    && (forall a, b, c :: !lt(a, b) && !lt(b, c) ==> !lt(a, c))
  }

  /** No element is ordered strictly before one that precedes it. */
  ghost predicate SortedBy<T>(s: seq<T>, lt: (T, T) -> bool)
  {
    forall i, j :: 0 <= i < j < |s| ==> !lt(s[j], s[i])
  }

  lemma HeadStaysFirst<T(!new)>(s: seq<T>, x: T, rest: seq<T>, lt: (T, T) -> bool)
    requires StrictWeakOrder(lt) && SortedBy(s, lt) && s != [] && lt(s[0], x)
    requires multiset(rest) == multiset(s[1..]) + multiset{x}
    ensures forall y :: y in rest ==> !lt(y, s[0])
  {
    forall y | y in rest ensures !lt(y, s[0]) {
      assert y in multiset(rest);
      if y != x {
        assert y in multiset(s[1..]);
        assert y in s[1..];
        var k :| 0 <= k < |s[1..]| && s[1..][k] == y;
        assert s[k + 1] == y;
      }
    }
  }

  /** Inserts `x` before the first element not ordered strictly before it. */
  function InsertBy<T(!new)>(x: T, s: seq<T>, lt: (T, T) -> bool): (r: seq<T>)
    requires StrictWeakOrder(lt) && SortedBy(s, lt)
    ensures SortedBy(r, lt)
    ensures multiset(r) == multiset(s) + multiset{x}
  {
    if s == [] then [x]
    else if lt(s[0], x) then
      var rest := InsertBy(x, s[1..], lt);
      assert s == [s[0]] + s[1..];
      HeadStaysFirst(s, x, rest, lt);
      [s[0]] + rest
    else
      assert forall k :: 0 <= k < |s| ==> !lt(s[k], s[0]);
      [x] + s
  }

  /** Insertion sort: the result is ordered by `lt` and is a permutation of `s`. */
  function SortBy<T(!new)>(s: seq<T>, lt: (T, T) -> bool): (r: seq<T>)
    requires StrictWeakOrder(lt)
    ensures SortedBy(r, lt)
    ensures multiset(r) == multiset(s)
  {
    if s == [] then []
    else
      assert s == [s[0]] + s[1..];
      InsertBy(s[0], SortBy(s[1..], lt), lt)
  }
}
