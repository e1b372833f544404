/** Sequence operations behind the dataframe steps: an order-keeping filter
    (boolean masks, list comprehensions, `WHERE`), a stable sort (pandas'
    multi-column `sort_values` and the sorted group keys of `groupby`), and the
    removal of adjacent repeats (the distinct keys of a sorted column). */
module Seqs {
  import opened Wrappers

  // ---------------------------------------------------------------------------
  // Filter

  /** The elements of `s` that satisfy `p`, in their original order. */
  function Filter<T>(s: seq<T>, p: T -> bool): (r: seq<T>)
    ensures |r| <= |s|
    ensures forall i :: 0 <= i < |r| ==> p(r[i])
  {
    if |s| == 0 then [] else (if p(s[0]) then [s[0]] else []) + Filter(s[1..], p)
  }

  /** The filter keeps exactly the elements that pass. */
  lemma {:induction false} FilterMember<T>(s: seq<T>, p: T -> bool, x: T)
    ensures x in Filter(s, p) <==> x in s && p(x)
  {
    if |s| > 0 {
      FilterMember(s[1..], p, x);
      assert s == [s[0]] + s[1..];
    }
  }

  /** Filtering distributes over concatenation: it keeps the relative order of what it keeps. */
  lemma {:induction false} FilterConcat<T>(s: seq<T>, t: seq<T>, p: T -> bool)
    ensures Filter(s + t, p) == Filter(s, p) + Filter(t, p)
  {
    if |s| > 0 {
      assert (s + t)[0] == s[0] && (s + t)[1..] == s[1..] + t;
      FilterConcat(s[1..], t, p);
      calc {
        Filter(s + t, p);
        (if p(s[0]) then [s[0]] else []) + Filter(s[1..] + t, p);
        (if p(s[0]) then [s[0]] else []) + (Filter(s[1..], p) + Filter(t, p));
        ((if p(s[0]) then [s[0]] else []) + Filter(s[1..], p)) + Filter(t, p);
        Filter(s, p) + Filter(t, p);
      }
    } else {
      assert s + t == t;
    }
  }

  /** Filtering keeps everything exactly when every element passes. */
  lemma {:induction false} FilterKeepsAll<T>(s: seq<T>, p: T -> bool)
    requires forall x :: x in s ==> p(x)
    ensures Filter(s, p) == s
  {
    if |s| > 0 {
      assert forall x :: x in s[1..] ==> x in s;
      FilterKeepsAll(s[1..], p);
    }
  }

  /** Whatever relation holds between earlier and later elements of `s` still holds between
      earlier and later elements of the filtered sequence: filtering keeps the relative order. */
  lemma {:induction false} FilterKeepsOrder<T>(s: seq<T>, p: T -> bool, before: (T, T) -> bool)
    requires forall i, j :: 0 <= i < j < |s| ==> before(s[i], s[j])
    ensures forall i, j :: 0 <= i < j < |Filter(s, p)| ==> before(Filter(s, p)[i], Filter(s, p)[j])
  {
    if |s| > 0 {
      var rest := Filter(s[1..], p);
      FilterKeepsOrder(s[1..], p, before);
      if p(s[0]) {
        var r := Filter(s, p);
        assert r == [s[0]] + rest;
        forall i, j | 0 <= i < j < |r| ensures before(r[i], r[j]) {
          if i == 0 {
            FilterMember(s[1..], p, rest[j - 1]);
            var k :| 0 <= k < |s[1..]| && s[1..][k] == rest[j - 1];
            assert before(s[0], s[k + 1]);
          } else {
            assert r[i] == rest[i - 1] && r[j] == rest[j - 1];
          }
        }
      }
    }
  }

  /** Filtering keeps nothing exactly when no element passes. */
  lemma {:induction false} FilterNone<T>(s: seq<T>, p: T -> bool)
    requires forall i :: 0 <= i < |s| ==> !p(s[i])
    ensures Filter(s, p) == []
  {
    if |s| > 0 {
      assert forall i :: 0 <= i < |s[1..]| ==> s[1..][i] == s[i + 1];
      FilterNone(s[1..], p);
    }
  }

  // ---------------------------------------------------------------------------
  // Stable insertion sort

  ghost predicate Total<T(!new)>(le: (T, T) -> bool) {
    forall a, b :: le(a, b) || le(b, a)
  }

  ghost predicate Transitive<T(!new)>(le: (T, T) -> bool) {
    forall a, b, c :: le(a, b) && le(b, c) ==> le(a, c)
  }

  ghost predicate Antisymmetric<T(!new)>(le: (T, T) -> bool) {
    forall a, b :: le(a, b) && le(b, a) ==> a == b
  }

  ghost predicate SortedBy<T>(s: seq<T>, le: (T, T) -> bool) {
    forall i, j :: 0 <= i < j < |s| ==> le(s[i], s[j])
  }

  /** Sorted, with no element twice. */
  ghost predicate StrictlySortedBy<T>(s: seq<T>, le: (T, T) -> bool) {
    forall i, j :: 0 <= i < j < |s| ==> le(s[i], s[j]) && s[i] != s[j]
  }

  /** Inserts `x` in front of the first element it is `le` to. */
  function InsertBy<T>(x: T, s: seq<T>, le: (T, T) -> bool): (r: seq<T>)
    ensures multiset(r) == multiset(s) + multiset{x}
  {
    if |s| == 0 then [x]
    else if le(x, s[0]) then [x] + s
    else
      assert s == [s[0]] + s[1..];
      [s[0]] + InsertBy(x, s[1..], le)
  }

  /** Insertion sort; an element goes in front of every later element it ties with, so the sort is stable. */
  function SortBy<T>(s: seq<T>, le: (T, T) -> bool): (r: seq<T>)
    ensures multiset(r) == multiset(s)
  {
    if |s| == 0 then []
    else
      assert s == [s[0]] + s[1..];
      InsertBy(s[0], SortBy(s[1..], le), le)
  }

  lemma {:induction false} InsertSorted<T(!new)>(x: T, s: seq<T>, le: (T, T) -> bool)
    requires Total(le) && Transitive(le)
    requires SortedBy(s, le)
    ensures SortedBy(InsertBy(x, s, le), le)
  {
    if |s| > 0 && !le(x, s[0]) {
      var rest := InsertBy(x, s[1..], le);
      InsertSorted(x, s[1..], le);
      forall j | 0 <= j < |rest| ensures le(s[0], rest[j]) {
        assert rest[j] in multiset(rest);
        assert rest[j] == x || rest[j] in multiset(s[1..]);
        if rest[j] != x {
          var k :| 0 <= k < |s[1..]| && s[1..][k] == rest[j];
          assert s[k + 1] == rest[j];
        }
      }
    }
  }

  /** The result of `SortBy` is sorted and is a permutation of the input. */
  lemma {:induction false} SortBySorted<T(!new)>(s: seq<T>, le: (T, T) -> bool)
    requires Total(le) && Transitive(le)
    ensures SortedBy(SortBy(s, le), le)
    ensures multiset(SortBy(s, le)) == multiset(s)
  {
    if |s| > 0 {
      SortBySorted(s[1..], le);
      InsertSorted(s[0], SortBy(s[1..], le), le);
    }
  }

  lemma FilterCons<T>(x: T, s: seq<T>, p: T -> bool)
    ensures Filter([x] + s, p) == (if p(x) then [x] else []) + Filter(s, p)
  {
    assert ([x] + s)[0] == x && ([x] + s)[1..] == s;
  }

  lemma {:induction false} InsertStable<T>(x: T, s: seq<T>, le: (T, T) -> bool, p: T -> bool)
    requires forall a, b :: p(a) && p(b) ==> le(a, b)
    ensures Filter(InsertBy(x, s, le), p) == (if p(x) then [x] else []) + Filter(s, p)
  {
    if |s| == 0 {
      FilterCons(x, s, p);
    } else if le(x, s[0]) {
      FilterCons(x, s, p);
    } else {
      var rest := InsertBy(x, s[1..], le);
      InsertStable(x, s[1..], le, p);
      FilterCons(s[0], rest, p);
      FilterCons(s[0], s[1..], p);
      assert [s[0]] + s[1..] == s;
      assert !(p(x) && p(s[0]));
    }
  }

  /** Stability: the elements of one tie class (any `p` whose members are all `le` to each other)
      come out of `SortBy` in the order they went in. */
  lemma {:induction false} SortByStable<T>(s: seq<T>, le: (T, T) -> bool, p: T -> bool)
    requires forall a, b :: p(a) && p(b) ==> le(a, b)
    ensures Filter(SortBy(s, le), p) == Filter(s, p)
  {
    if |s| > 0 {
      SortByStable(s[1..], le, p);
      InsertStable(s[0], SortBy(s[1..], le), le, p);
    }
  }

  // ---------------------------------------------------------------------------
  // Adjacent repeats

  /** Drops every element equal to its successor; on a sorted sequence this keeps one copy of each value. */
  function Dedup<T(==)>(s: seq<T>): (r: seq<T>)
    ensures |r| <= |s|
  {
    if |s| <= 1 then s
    else if s[0] == s[1] then Dedup(s[1..])
    else [s[0]] + Dedup(s[1..])
  }

  /** Dropping repeats keeps every value. */
  lemma {:induction false} DedupMember<T>(s: seq<T>, x: T)
    ensures x in Dedup(s) <==> x in s
  {
    if |s| > 1 {
      DedupMember(s[1..], x);
      assert s == [s[0]] + s[1..];
      assert s[1] in s[1..];
    }
  }

  /** Removing adjacent repeats of a sorted sequence over an order leaves each value once, still sorted. */
  lemma {:induction false} DedupStrictlySorted<T(!new)>(s: seq<T>, le: (T, T) -> bool)
    requires Antisymmetric(le)
    requires SortedBy(s, le)
    ensures StrictlySortedBy(Dedup(s), le)
  {
    if |s| > 1 {
      DedupStrictlySorted(s[1..], le);
      if s[0] != s[1] {
        var rest := Dedup(s[1..]);
        forall j | 0 <= j < |rest| ensures le(s[0], rest[j]) && s[0] != rest[j] {
          assert rest[j] in rest;
          DedupMember(s[1..], rest[j]);
          var k :| 0 <= k < |s[1..]| && s[1..][k] == rest[j];
          assert le(s[0], s[k + 1]);
          assert le(s[1], s[k + 1]) || k == 0;
        }
      }
    }
  }

  // ---------------------------------------------------------------------------
  // Map

  /** The first element for which `f` fails. */
  predicate FirstErrAt<T, U, E>(s: seq<T>, f: T -> Result<U, E>, i: int) {
    0 <= i < |s| && f(s[i]).Err? && forall j :: 0 <= j < i ==> f(s[j]).Ok?
  }

  lemma FirstErrShift<T, U, E>(s: seq<T>, f: T -> Result<U, E>, e: E)
    requires |s| > 0 && f(s[0]).Ok?
    requires exists i :: FirstErrAt(s[1..], f, i) && e == f(s[1..][i]).error
    ensures exists i :: FirstErrAt(s, f, i) && e == f(s[i]).error
  {
    var i :| FirstErrAt(s[1..], f, i) && e == f(s[1..][i]).error;
    forall j | 0 <= j < i + 1 ensures f(s[j]).Ok? {
      if j > 0 {
        assert s[j] == s[1..][j - 1];
      }
    }
    assert FirstErrAt(s, f, i + 1);
  }

  /** `f` applied to every element, stopping at the first failure: the values when every call
      succeeds, otherwise the error of the first call that fails. */
  function AllOk<T, U, E>(s: seq<T>, f: T -> Result<U, E>): (r: Result<seq<U>, E>)
    ensures r.Ok? <==> forall i :: 0 <= i < |s| ==> f(s[i]).Ok?
    ensures r.Ok? ==> |r.value| == |s| && forall i :: 0 <= i < |s| ==> r.value[i] == f(s[i]).value
    ensures r.Err? ==> exists i :: FirstErrAt(s, f, i) && r.error == f(s[i]).error
  {
    if |s| == 0 then Ok([])
    else if f(s[0]).Err? then
      assert FirstErrAt(s, f, 0);
      Err(f(s[0]).error)
    else
      var rest := AllOk(s[1..], f);
      if rest.Err? then
        FirstErrShift(s, f, rest.error);
        Err(rest.error)
      else
        assert forall i :: 0 < i < |s| ==> s[i] == s[1..][i - 1];
        Ok([f(s[0]).value] + rest.value)
  }

  function Map<T, U>(s: seq<T>, f: T -> U): (r: seq<U>)
    ensures |r| == |s|
    ensures forall i :: 0 <= i < |s| ==> r[i] == f(s[i])
  {
    seq(|s|, i requires 0 <= i < |s| => f(s[i]))
  }
}
