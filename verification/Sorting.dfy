/**
 Stable sorting by a total preorder, and filtering. The programs modelled here lean on the
 standard library's stable sort, on `ORDER BY` and on `WHERE`; what they need from them is that
 filtering and stable sorting commute (FilterSort).
 */
module Sorting {

  ghost predicate TotalPreorder<T(!new)>(leq: (T, T) -> bool) {
    && (forall x, y :: leq(x, y) || leq(y, x))
    && (forall x, y, z :: leq(x, y) && leq(y, z) ==> leq(x, z))
  }

  ghost predicate SortedBy<T>(s: seq<T>, leq: (T, T) -> bool) {
    forall i, j | 0 <= i < j < |s| :: leq(s[i], s[j])
  }

  /** Puts x in front of the first element it may precede. */
  function Insert<T>(x: T, s: seq<T>, leq: (T, T) -> bool): (r: seq<T>)
    ensures |r| == |s| + 1
  {
    if s == [] || leq(x, s[0]) then [x] + s else [s[0]] + Insert(x, s[1..], leq)
  }

  function StableSort<T>(s: seq<T>, leq: (T, T) -> bool): (r: seq<T>)
    ensures |r| == |s|
  {
    if s == [] then [] else Insert(s[0], StableSort(s[1..], leq), leq)
  }

  lemma {:induction false} InsertPermutes<T>(x: T, s: seq<T>, leq: (T, T) -> bool)
    ensures multiset(Insert(x, s, leq)) == multiset(s) + multiset{x}
  {
    if s != [] && !leq(x, s[0]) {
      InsertPermutes(x, s[1..], leq);
      assert s == [s[0]] + s[1..];
    }
  }

  /** Sorting keeps every element as often as it occurs. */
  lemma {:induction false} SortPermutes<T>(s: seq<T>, leq: (T, T) -> bool)
    ensures multiset(StableSort(s, leq)) == multiset(s)
  {
    if s != [] {
      SortPermutes(s[1..], leq);
      InsertPermutes(s[0], StableSort(s[1..], leq), leq);
      assert s == [s[0]] + s[1..];
    }
  }

  function Filter<T(!new)>(s: seq<T>, keep: T -> bool): (r: seq<T>)
    ensures forall x :: x in r <==> x in s && keep(x)
    ensures |r| <= |s|
  {
    if s == [] then []
    else (if keep(s[0]) then [s[0]] else []) + Filter(s[1..], keep)
  }

  function Map<S, T>(s: seq<S>, f: S -> T): (r: seq<T>)
    ensures |r| == |s|
    ensures forall i | 0 <= i < |s| :: r[i] == f(s[i])
  {
    seq(|s|, i requires 0 <= i < |s| => f(s[i]))
  }

  lemma {:induction false} InsertSorted<T(!new)>(x: T, s: seq<T>, leq: (T, T) -> bool)
    requires TotalPreorder(leq) && SortedBy(s, leq)
    ensures SortedBy(Insert(x, s, leq), leq)
  {
    if s != [] && !leq(x, s[0]) {
      InsertSorted(x, s[1..], leq);
      var r := Insert(x, s[1..], leq);
      InsertPermutes(x, s[1..], leq);
      forall i | 0 <= i < |r|
        ensures leq(s[0], r[i])
      {
        assert r[i] in multiset(r);
        assert r[i] in s[1..] || r[i] == x;
      }
    } else if s != [] {
      forall i | 0 <= i < |s|
        ensures leq(x, s[i])
      {
        assert leq(x, s[0]) && (i == 0 || leq(s[0], s[i]));
      }
    }
  }

  lemma {:induction false} SortSorted<T(!new)>(s: seq<T>, leq: (T, T) -> bool)
    requires TotalPreorder(leq)
    ensures SortedBy(StableSort(s, leq), leq)
  {
    if s != [] {
      SortSorted(s[1..], leq);
      InsertSorted(s[0], StableSort(s[1..], leq), leq);
    }
  }

  lemma {:induction false} SortOfSorted<T>(s: seq<T>, leq: (T, T) -> bool)
    requires SortedBy(s, leq)
    ensures StableSort(s, leq) == s
  {
    if s != [] {
      SortOfSorted(s[1..], leq);
      if |s| > 1 {
        assert leq(s[0], s[1]);
      }
      assert s == [s[0]] + s[1..];
    }
  }

  lemma SortMembers<T(!new)>(s: seq<T>, leq: (T, T) -> bool)
    ensures forall x :: x in StableSort(s, leq) <==> x in s
  {
    SortPermutes(s, leq);
    forall x
      ensures x in StableSort(s, leq) <==> x in s
    {
      assert x in StableSort(s, leq) <==> x in multiset(StableSort(s, leq));
      assert x in s <==> x in multiset(s);
    }
  }

  lemma {:induction false} FilterAppend<T(!new)>(s: seq<T>, t: seq<T>, keep: T -> bool)
    ensures Filter(s + t, keep) == Filter(s, keep) + Filter(t, keep)
  {
    if s == [] {
      assert s + t == t;
    } else {
      assert (s + t)[1..] == s[1..] + t;
      FilterAppend(s[1..], t, keep);
    }
  }

  lemma {:induction false} FilterAll<T(!new)>(s: seq<T>, keep: T -> bool)
    requires forall x | x in s :: keep(x)
    ensures Filter(s, keep) == s
  {
    if s != [] {
      FilterAll(s[1..], keep);
      assert s == [s[0]] + s[1..];
    }
  }

  /** Filtering a sorted list commutes with inserting into it. */
  lemma {:induction false} FilterInsert<T(!new)>(x: T, s: seq<T>, leq: (T, T) -> bool, keep: T -> bool)
    requires TotalPreorder(leq) && SortedBy(s, leq)
    ensures Filter(Insert(x, s, leq), keep)
         == if keep(x) then Insert(x, Filter(s, keep), leq) else Filter(s, keep)
  {
    if s == [] || leq(x, s[0]) {
      assert ([x] + s)[1..] == s;
      var f := Filter(s, keep);
      if f != [] {
        assert f[0] in s;
        var i :| 0 <= i < |s| && s[i] == f[0];
        assert leq(x, s[0]) && (i == 0 || leq(s[0], s[i]));
        assert leq(x, f[0]);
      }
    } else {
      FilterInsert(x, s[1..], leq, keep);
      assert ([s[0]] + Insert(x, s[1..], leq))[1..] == Insert(x, s[1..], leq);
      if keep(s[0]) {
        assert Filter(s, keep)[1..] == Filter(s[1..], keep);
      } else if keep(x) {
        assert Filter(s, keep) == Filter(s[1..], keep);
      }
    }
  }

  /** Filtering commutes with stable sorting. */
  lemma {:induction false} FilterSort<T(!new)>(s: seq<T>, leq: (T, T) -> bool, keep: T -> bool)
    requires TotalPreorder(leq)
    ensures Filter(StableSort(s, leq), keep) == StableSort(Filter(s, keep), leq)
  {
    if s != [] {
      FilterSort(s[1..], leq, keep);
      SortSorted(s[1..], leq);
      FilterInsert(s[0], StableSort(s[1..], leq), leq, keep);
      SortOfFilterCons(s, leq, keep);
    }
  }

  lemma SortOfFilterCons<T(!new)>(s: seq<T>, leq: (T, T) -> bool, keep: T -> bool)
    requires s != []
    ensures StableSort(Filter(s, keep), leq)
         == if keep(s[0]) then Insert(s[0], StableSort(Filter(s[1..], keep), leq), leq)
            else StableSort(Filter(s[1..], keep), leq)
  {
    if keep(s[0]) {
      assert Filter(s, keep)[1..] == Filter(s[1..], keep);
    } else {
      assert Filter(s, keep) == Filter(s[1..], keep);
    }
  }

  ghost predicate AllDifferent<T>(s: seq<T>) {
    forall i, j | 0 <= i < j < |s| :: s[i] != s[j]
  }

  lemma {:induction false} DifferentCounts<T>(s: seq<T>, x: T)
    requires AllDifferent(s)
    ensures multiset(s)[x] <= 1
  {
    if s != [] {
      assert s == [s[0]] + s[1..];
      DifferentCounts(s[1..], x);
      assert s[0] !in multiset(s[1..]);
    }
  }

  lemma RepeatedCounts<T>(s: seq<T>, i: nat, j: nat)
    requires i < j < |s| && s[i] == s[j]
    ensures multiset(s)[s[i]] >= 2
  {
    assert s == s[..j] + s[j..];
    assert s[i] in multiset(s[..j]) && s[j..][0] == s[j] && s[j] in multiset(s[j..]);
  }

  /** Sorting neither drops nor repeats elements. */
  lemma SortDifferent<T>(s: seq<T>, leq: (T, T) -> bool)
    requires AllDifferent(s)
    ensures AllDifferent(StableSort(s, leq))
  {
    var r := StableSort(s, leq);
    SortPermutes(s, leq);
    forall i, j | 0 <= i < j < |r|
      ensures r[i] != r[j]
    {
      DifferentCounts(s, r[i]);
      if r[i] == r[j] {
        RepeatedCounts(r, i, j);
      }
    }
  }

  // ---- Dropping repetitions ----

  /** Appends what is not there yet. */
  function AddNew<T(==)>(known: seq<T>, more: seq<T>): seq<T>
    decreases |more|
  {
    if more == [] then known
    else AddNew(if more[0] in known then known else known + [more[0]], more[1..])
  }

  /** Position of the first occurrence. */
  function FirstIndex<T(==)>(s: seq<T>, x: T): (i: nat)
    requires x in s
    ensures i < |s| && s[i] == x && x !in s[..i]
  {
    if s[0] == x then 0 else FirstIndex(s[1..], x) + 1
  }

  /** The elements of `all`, each once, in order of first occurrence. */
  ghost predicate FirstOccurrences<T(!new)>(result: seq<T>, all: seq<T>) {
    && AllDifferent(result)
    && (forall x :: x in result <==> x in all)
    && (forall i, j | 0 <= i < j < |result| :: FirstIndex(all, result[i]) < FirstIndex(all, result[j]))
  }

  lemma {:induction false} FirstIndexStable<T>(s: seq<T>, t: seq<T>, x: T)
    requires x in s
    ensures FirstIndex(s + t, x) == FirstIndex(s, x)
  {
    if s[0] != x {
      assert (s + t)[1..] == s[1..] + t;
      FirstIndexStable(s[1..], t, x);
    }
  }

  lemma AddOneKeepsOrder<T(!new)>(result: seq<T>, all: seq<T>, x: T)
    requires FirstOccurrences(result, all)
    ensures FirstOccurrences(if x in result then result else result + [x], all + [x])
  {
    var more := all + [x];
    forall y | y in result
      ensures y in all && y in more && FirstIndex(more, y) == FirstIndex(all, y)
    {
      FirstIndexStable(all, [x], y);
    }
    if x !in result {
      assert x !in all && more[|all|] == x;
      assert FirstIndex(more, x) == |all|;
    }
  }

  /** AddNew keeps first occurrences, in order. */
  lemma {:induction false} AddNewOrders<T(!new)>(result: seq<T>, all: seq<T>, more: seq<T>)
    requires FirstOccurrences(result, all)
    ensures FirstOccurrences(AddNew(result, more), all + more)
    decreases |more|
  {
    if more == [] {
      assert all + more == all;
    } else {
      var x, rest := more[0], more[1..];
      assert (all + [x]) + rest == all + more;
      AddOneKeepsOrder(result, all, x);
      AddNewOrders(if x in result then result else result + [x], all + [x], rest);
    }
  }

  lemma DistinctElements<T(!new)>(s: seq<T>)
    ensures FirstOccurrences(AddNew([], s), s)
  {
    AddNewOrders([], [], s);
    assert [] + s == s;
  }
}
