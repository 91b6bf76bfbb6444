/** Sequence operations the pipeline's table steps are built from: lookup by
    position, filtering, duplicate removal that keeps first occurrences
    (pandas' `drop_duplicates`), a stable sort on an integer key, and the
    sorted set of integer keys (pandas' `groupby` key order). */
module Seqs {
  import opened Wrappers

  predicate NoDuplicates<T(==,!new)>(xs: seq<T>) {
    forall i, j :: 0 <= i < j < |xs| ==> xs[i] != xs[j]
  }

  lemma NoDuplicatesAppend<T(!new)>(xs: seq<T>, ys: seq<T>)
    requires NoDuplicates(xs) && NoDuplicates(ys)
    requires forall i :: 0 <= i < |xs| ==> xs[i] !in ys
    ensures NoDuplicates(xs + ys)
  {
    var zs := xs + ys;
    forall i, j | 0 <= i < j < |zs|
      ensures zs[i] != zs[j]
    {
      if i < |xs| && j >= |xs| {
        assert zs[j] == ys[j - |xs|];
      }
    }
  }

  /** The position of the first occurrence of `x` (Python's `list.index`,
      with `None` in place of the `ValueError`). */
  function IndexOf<T(==,!new)>(xs: seq<T>, x: T): (r: Option<nat>)
    ensures r.None? <==> x !in xs
    ensures r.Some? ==> r.value < |xs| && xs[r.value] == x && x !in xs[..r.value]
  {
    if |xs| == 0 then None
    else if xs[0] == x then Some(0)
    else match IndexOf(xs[1..], x)
      case None => None
      case Some(i) =>
        assert xs[..i + 1] == [xs[0]] + xs[1..][..i];
        Some(i + 1)
  }

  /** The elements satisfying `p`, in their original order. */
  function Filter<T(==,!new)>(xs: seq<T>, p: T -> bool): (r: seq<T>)
    ensures |r| <= |xs|
    ensures forall x :: x in r <==> x in xs && p(x)
  {
    if |xs| == 0 then []
    else
      var last := xs[|xs| - 1];
      assert xs == xs[..|xs| - 1] + [last];
      Filter(xs[..|xs| - 1], p) + (if p(last) then [last] else [])
  }

  lemma {:induction false} FilterAppend<T(!new)>(xs: seq<T>, ys: seq<T>, p: T -> bool)
    ensures Filter(xs + ys, p) == Filter(xs, p) + Filter(ys, p)
    decreases |ys|
  {
    if |ys| > 0 {
      var init, last := ys[..|ys| - 1], ys[|ys| - 1];
      var zs := xs + ys;
      assert zs[..|zs| - 1] == xs + init && zs[|zs| - 1] == last;
      FilterAppend(xs, init, p);
      assert Filter(zs, p) == Filter(xs + init, p) + (if p(last) then [last] else []);
      assert Filter(ys, p) == Filter(init, p) + (if p(last) then [last] else []);
    } else {
      assert xs + ys == xs;
    }
  }

  /** Filtering keeps every copy of a passing element and no copy of a
      failing one. */
  lemma {:induction false} FilterCount<T(!new)>(xs: seq<T>, p: T -> bool, x: T)
    ensures multiset(Filter(xs, p))[x] == if p(x) then multiset(xs)[x] else 0
    decreases |xs|
  {
    if |xs| > 0 {
      var init, last := xs[..|xs| - 1], xs[|xs| - 1];
      assert xs == init + [last];
      FilterCount(init, p, x);
      assert multiset(xs) == multiset(init) + multiset{last};
      assert multiset(Filter(xs, p)) == multiset(Filter(init, p)) + multiset(if p(last) then [last] else []);
    }
  }

  /** Filtering keeps a sequence whose every element passes. */
  lemma {:induction false} FilterAll<T(!new)>(xs: seq<T>, p: T -> bool)
    requires forall i :: 0 <= i < |xs| ==> p(xs[i])
    ensures Filter(xs, p) == xs
    decreases |xs|
  {
    if |xs| > 0 {
      var init, last := xs[..|xs| - 1], xs[|xs| - 1];
      assert forall i :: 0 <= i < |init| ==> p(init[i]) by {
        assert forall i :: 0 <= i < |init| ==> init[i] == xs[i];
      }
      FilterAll(init, p);
      assert p(last);
      assert Filter(xs, p) == Filter(init, p) + [last];
      assert init + [last] == xs;
    }
  }

  /** Filtering drops a failing first element and keeps the rest when all
      of it passes. */
  lemma FilterTail<T(!new)>(xs: seq<T>, p: T -> bool)
    requires |xs| > 0 && !p(xs[0])
    requires forall i :: 1 <= i < |xs| ==> p(xs[i])
    ensures Filter(xs, p) == xs[1..]
  {
    assert xs == xs[..1] + xs[1..];
    FilterAppend(xs[..1], xs[1..], p);
    FilterAll(xs[1..], p);
  }

  /** Every element once, at the position of its first occurrence
      (pandas' `drop_duplicates()` with its default `keep='first'`). */
  function Distinct<T(==,!new)>(xs: seq<T>): (r: seq<T>)
    ensures |r| <= |xs|
    ensures forall x :: x in r <==> x in xs
    ensures NoDuplicates(r)
  {
    if |xs| == 0 then []
    else
      var last := xs[|xs| - 1];
      var d := Distinct(xs[..|xs| - 1]);
      assert xs == xs[..|xs| - 1] + [last];
      if last in d then d else d + [last]
  }

  /** A sequence that already has no duplicates is its own `Distinct`. */
  lemma {:induction false} DistinctOfNoDuplicates<T(!new)>(xs: seq<T>)
    requires NoDuplicates(xs)
    ensures Distinct(xs) == xs
    decreases |xs|
  {
    if |xs| > 0 {
      var init := xs[..|xs| - 1];
      assert NoDuplicates(init);
      DistinctOfNoDuplicates(init);
      assert xs[|xs| - 1] !in init;
      assert init + [xs[|xs| - 1]] == xs;
    }
  }

  /** Removing duplicates twice changes nothing. */
  lemma DistinctIdempotent<T(!new)>(xs: seq<T>)
    ensures Distinct(Distinct(xs)) == Distinct(xs)
  {
    DistinctOfNoDuplicates(Distinct(xs));
  }

  /** The kept elements of `Distinct` appear in the order of their first
      occurrence in the input. */
  lemma {:induction false} DistinctKeepsFirstOccurrenceOrder<T(!new)>(xs: seq<T>, i: nat, j: nat)
    requires i < j < |Distinct(xs)|
    ensures IndexOf(xs, Distinct(xs)[i]).value < IndexOf(xs, Distinct(xs)[j]).value
    decreases |xs|
  {
    var init := xs[..|xs| - 1];
    var last := xs[|xs| - 1];
    var d := Distinct(init);
    assert xs == init + [last];
    IndexOfPrefix(init, last, Distinct(xs)[i]);
    if j < |d| {
      DistinctKeepsFirstOccurrenceOrder(init, i, j);
      IndexOfPrefix(init, last, Distinct(xs)[j]);
    } else {
      assert Distinct(xs)[j] == last && last !in init;
      assert Distinct(xs)[i] in init;
    }
  }

  lemma IndexOfPrefix<T(!new)>(init: seq<T>, last: T, x: T)
    ensures x in init ==> IndexOf(init + [last], x) == IndexOf(init, x)
    ensures x !in init && x == last ==> IndexOf(init + [last], x) == Some(|init|)
  {
    var xs := init + [last];
    if x in init {
      var k := IndexOf(init, x).value;
      assert xs[..k] == init[..k];
      assert xs[k] == x;
    } else if x == last {
      assert xs[..|init|] == init;
    }
  }

  lemma FilterSnoc<T(!new)>(xs: seq<T>, x: T, p: T -> bool)
    ensures Filter(xs + [x], p) == Filter(xs, p) + (if p(x) then [x] else [])
  {
    assert (xs + [x])[..|xs|] == xs;
  }

  lemma DistinctSnoc<T(!new)>(xs: seq<T>, x: T)
    ensures Distinct(xs + [x]) == if x in xs then Distinct(xs) else Distinct(xs) + [x]
  {
    assert (xs + [x])[..|xs|] == xs;
  }

  /** Removing duplicates and then filtering equals filtering and then
      removing duplicates. */
  lemma {:induction false} FilterDistinct<T(!new)>(xs: seq<T>, p: T -> bool)
    ensures Filter(Distinct(xs), p) == Distinct(Filter(xs, p))
    decreases |xs|
  {
    if |xs| > 0 {
      var init := xs[..|xs| - 1];
      var last := xs[|xs| - 1];
      assert xs == init + [last];
      FilterDistinct(init, p);
      FilterDistinctStep(init, last, p);
    }
  }

  lemma FilterDistinctStep<T(!new)>(init: seq<T>, last: T, p: T -> bool)
    requires Filter(Distinct(init), p) == Distinct(Filter(init, p))
    ensures Filter(Distinct(init + [last]), p) == Distinct(Filter(init + [last], p))
  {
    var d := Distinct(init);
    var f := Filter(init, p);
    FilterSnoc(init, last, p);
    DistinctSnoc(init, last);
    if last !in init {
      assert Distinct(init + [last]) == d + [last];
      FilterSnoc(d, last, p);
      if p(last) {
        assert last !in f;
        DistinctSnoc(f, last);
        assert Distinct(Filter(init + [last], p)) == Distinct(f) + [last];
      } else {
        assert Filter(init + [last], p) == f;
      }
    } else {
      assert Distinct(init + [last]) == d;
      if p(last) {
        assert last in f;
        DistinctSnoc(f, last);
        assert Distinct(Filter(init + [last], p)) == Distinct(f);
      } else {
        assert Filter(init + [last], p) == f;
      }
    }
  }

  predicate SortedBy<T>(xs: seq<T>, key: T -> int) {
    forall i, j :: 0 <= i < j < |xs| ==> key(xs[i]) <= key(xs[j])
  }

  /** Inserts `x` after every element whose key is not greater than its own. */
  function InsertBy<T(==,!new)>(x: T, xs: seq<T>, key: T -> int): (r: seq<T>)
    requires SortedBy(xs, key)
    ensures SortedBy(r, key)
    ensures multiset(r) == multiset(xs) + multiset{x}
    ensures |r| == |xs| + 1
  {
    if |xs| == 0 then [x]
    else if key(x) < key(xs[0]) then [x] + xs
    else
      var rest := InsertBy(x, xs[1..], key);
      assert xs == [xs[0]] + xs[1..];
      SortedTailFloor(xs, key);
      KeyFloor(key(xs[0]), rest, x, xs[1..], key);
      SortedCons(xs[0], rest, key);
      [xs[0]] + rest
  }

  /** In a sorted sequence no later key is below the first. */
  lemma SortedTailFloor<T>(xs: seq<T>, key: T -> int)
    requires |xs| > 0 && SortedBy(xs, key)
    ensures forall i :: 0 <= i < |xs[1..]| ==> key(xs[0]) <= key(xs[1..][i])
  {
    assert forall i :: 0 <= i < |xs[1..]| ==> xs[1..][i] == xs[i + 1];
  }

  /** A bound on the keys of `tail` and on `x` bounds the keys of any
      rearrangement of `tail` with `x` added. */
  lemma KeyFloor<T(!new)>(lo: int, rest: seq<T>, x: T, tail: seq<T>, key: T -> int)
    requires multiset(rest) == multiset(tail) + multiset{x}
    requires lo <= key(x)
    requires forall i :: 0 <= i < |tail| ==> lo <= key(tail[i])
    ensures forall i :: 0 <= i < |rest| ==> lo <= key(rest[i])
  {
    forall i | 0 <= i < |rest|
      ensures lo <= key(rest[i])
    {
      assert rest[i] in multiset(rest);
      if rest[i] != x {
        assert rest[i] in multiset(tail);
        var k :| 0 <= k < |tail| && tail[k] == rest[i];
      }
    }
  }

  /** An element no greater than a sorted sequence's keys can go in front. */
  lemma SortedCons<T>(a: T, rest: seq<T>, key: T -> int)
    requires SortedBy(rest, key)
    requires forall i :: 0 <= i < |rest| ==> key(a) <= key(rest[i])
    ensures SortedBy([a] + rest, key)
  {
    var r := [a] + rest;
    forall i, j | 0 <= i < j < |r|
      ensures key(r[i]) <= key(r[j])
    {
      assert r[j] == rest[j - 1];
      if i > 0 {
        assert r[i] == rest[i - 1];
      }
    }
  }

  /** Stable insertion sort on an integer key: a permutation of the input
      ordered by `key`. */
  function SortBy<T(==,!new)>(xs: seq<T>, key: T -> int): (r: seq<T>)
    ensures SortedBy(r, key)
    ensures multiset(r) == multiset(xs)
    ensures |r| == |xs|
  {
    if |xs| == 0 then []
    else
      assert xs == xs[..|xs| - 1] + [xs[|xs| - 1]];
      InsertBy(xs[|xs| - 1], SortBy(xs[..|xs| - 1], key), key)
  }

  /** Filtering keeps a sorted sequence sorted. */
  lemma {:induction false} FilterSortedBy<T(!new)>(xs: seq<T>, p: T -> bool, key: T -> int)
    requires SortedBy(xs, key)
    ensures SortedBy(Filter(xs, p), key)
    decreases |xs|
  {
    if |xs| > 0 {
      var init := xs[..|xs| - 1];
      var last := xs[|xs| - 1];
      assert SortedBy(init, key);
      FilterSortedBy(init, p, key);
      var f := Filter(init, p);
      forall i | 0 <= i < |f|
        ensures key(f[i]) <= key(last)
      {
        assert f[i] in init;
      }
    }
  }

  predicate StrictlyIncreasing(xs: seq<int>) {
    forall i, j :: 0 <= i < j < |xs| ==> xs[i] < xs[j]
  }

  function InsertUnique(x: int, xs: seq<int>): (r: seq<int>)
    requires StrictlyIncreasing(xs)
    ensures StrictlyIncreasing(r)
    ensures forall y :: y in r <==> y in xs || y == x
  {
    if |xs| == 0 then [x]
    else if x < xs[0] then [x] + xs
    else if x == xs[0] then xs
    else
      var rest := InsertUnique(x, xs[1..]);
      assert xs == [xs[0]] + xs[1..];
      assert forall i :: 0 <= i < |rest| ==> xs[0] < rest[i] by {
        forall i | 0 <= i < |rest|
          ensures xs[0] < rest[i]
        {
          assert rest[i] in rest;
          if rest[i] != x {
            assert rest[i] in xs[1..];
          }
        }
      }
      [xs[0]] + rest
  }

  /** The distinct values of `xs` in ascending order. */
  function SortedDistinct(xs: seq<int>): (r: seq<int>)
    ensures StrictlyIncreasing(r)
    ensures forall y :: y in r <==> y in xs
  {
    if |xs| == 0 then []
    else
      assert xs == xs[..|xs| - 1] + [xs[|xs| - 1]];
      InsertUnique(xs[|xs| - 1], SortedDistinct(xs[..|xs| - 1]))
  }
}
