/** The stable sort of the Rust library (`sort_by_key`), as a function. */
module Sorting {

  /** A total, transitive order on keys. */
  ghost predicate TotalPreorder<T(!new)>(le: (T, T) -> bool)
  {
    && (forall x, y :: le(x, y) || le(y, x))
    && (forall x, y, z :: le(x, y) && le(y, z) ==> le(x, z))
  }

  /** Insert an element after every element that is not larger. */
  function Insert<T>(le: (T, T) -> bool, sorted: seq<T>, x: T): (r: seq<T>)
    ensures |r| == |sorted| + 1
  {
    var n := |sorted|;
    if n == 0 || le(sorted[n - 1], x) then sorted + [x]
    else Insert(le, sorted[..n - 1], x) + [sorted[n - 1]]
  }

  function StableSort<T>(le: (T, T) -> bool, s: seq<T>): (r: seq<T>)
    ensures |r| == |s|
  {
    if s == [] then [] else Insert(le, StableSort(le, s[..|s| - 1]), s[|s| - 1])
  }

  ghost predicate SortedBy<T>(le: (T, T) -> bool, s: seq<T>)
  {
    forall i, j :: 0 <= i < j < |s| ==> le(s[i], s[j])
  }

  /** The elements as large as `k`, in order. */
  function EqualTo<T>(le: (T, T) -> bool, k: T, s: seq<T>): seq<T>
  {
    if s == [] then [] else
      var last := s[|s| - 1];
      EqualTo(le, k, s[..|s| - 1]) + (if le(k, last) && le(last, k) then [last] else [])
  }

  lemma {:induction false} InsertPermutes<T>(le: (T, T) -> bool, sorted: seq<T>, x: T)
    ensures multiset(Insert(le, sorted, x)) == multiset(sorted) + multiset{x}
    decreases |sorted|
  {
    var n := |sorted|;
    if n > 0 {
      InsertPermutes(le, sorted[..n - 1], x);
      assert sorted == sorted[..n - 1] + [sorted[n - 1]];
    }
  }

  lemma {:induction false} InsertSorted<T(!new)>(le: (T, T) -> bool, sorted: seq<T>, x: T)
    requires TotalPreorder(le) && SortedBy(le, sorted)
    ensures SortedBy(le, Insert(le, sorted, x))
    decreases |sorted|
  {
    var n := |sorted|;
    if n == 0 || le(sorted[n - 1], x) {
      forall i | 0 <= i < n
        ensures le(sorted[i], x)
      {
        assert i < n - 1 ==> le(sorted[i], sorted[n - 1]);
      }
    } else {
      var front, last := sorted[..n - 1], sorted[n - 1];
      InsertSorted(le, front, x);
      var all := Insert(le, front, x);
      InsertPermutes(le, front, x);
      forall i | 0 <= i < |all|
        ensures le(all[i], last)
      {
        assert all[i] in multiset(all);
        assert all[i] in front || all[i] == x;
      }
    }
  }

  lemma {:induction false} InsertStable<T(!new)>(le: (T, T) -> bool, sorted: seq<T>, x: T, k: T)
    requires TotalPreorder(le) && SortedBy(le, sorted)
    ensures EqualTo(le, k, Insert(le, sorted, x)) == EqualTo(le, k, sorted) + (if le(k, x) && le(x, k) then [x] else [])
    decreases |sorted|
  {
    var n := |sorted|;
    if n == 0 || le(sorted[n - 1], x) {
      assert (sorted + [x])[..n] == sorted;
    } else {
      var front, last := sorted[..n - 1], sorted[n - 1];
      InsertStable(le, front, x, k);
      assert (Insert(le, front, x) + [last])[..n] == Insert(le, front, x);
      if le(k, x) && le(x, k) {
        assert !le(last, k);
      }
    }
  }

  /** The result is sorted, a permutation, and keeps the order of equal elements. */
  lemma {:induction false} StableSortCorrect<T(!new)>(le: (T, T) -> bool, s: seq<T>)
    requires TotalPreorder(le)
    ensures SortedBy(le, StableSort(le, s))
    ensures multiset(StableSort(le, s)) == multiset(s)
    ensures forall k :: EqualTo(le, k, StableSort(le, s)) == EqualTo(le, k, s)
    decreases |s|
  {
    if s != [] {
      var front, last := s[..|s| - 1], s[|s| - 1];
      StableSortCorrect(le, front);
      InsertSorted(le, StableSort(le, front), last);
      InsertPermutes(le, StableSort(le, front), last);
      assert s == front + [last];
      forall k
        ensures EqualTo(le, k, StableSort(le, s)) == EqualTo(le, k, s)
      {
        InsertStable(le, StableSort(le, front), last, k);
      }
    }
  }

  /** Sorting keeps the elements. */
  lemma SameElements<T(!new)>(le: (T, T) -> bool, s: seq<T>, x: T)
    requires TotalPreorder(le)
    ensures x in StableSort(le, s) <==> x in s
  {
    StableSortCorrect(le, s);
    assert x in StableSort(le, s) <==> x in multiset(StableSort(le, s));
    assert x in s <==> x in multiset(s);
  }

  lemma {:induction false} OnceEach<T(!new)>(s: seq<T>)
    requires forall i, j :: 0 <= i < j < |s| ==> s[i] != s[j]
    ensures forall x :: multiset(s)[x] <= 1
  {
    if s != [] {
      var front, last := s[..|s| - 1], s[|s| - 1];
      OnceEach(front);
      assert s == front + [last];
      assert last !in front;
    }
  }

  lemma CountedTwice<T>(s: seq<T>, i: nat, j: nat)
    requires i < j < |s| && s[i] == s[j]
    ensures multiset(s)[s[i]] >= 2
  {
    var front := s[..j];
    assert front[i] == s[i] && s == front + ([s[j]] + s[j + 1..]);
    assert s[i] in multiset(front);
  }

  /** Elements that occur once are in order and still occur once. */
  lemma SortedOnce<T(!new)>(le: (T, T) -> bool, s: seq<T>, i: nat, j: nat)
    requires TotalPreorder(le) && i < j < |s|
    requires forall a, b :: 0 <= a < b < |s| ==> s[a] != s[b]
    ensures le(StableSort(le, s)[i], StableSort(le, s)[j]) && StableSort(le, s)[i] != StableSort(le, s)[j]
  {
    hide StableSort;
    var sorted := StableSort(le, s);
    StableSortCorrect(le, s);
    OnceEach(s);
    if sorted[i] == sorted[j] {
      CountedTwice(sorted, i, j);
    }
  }
}
