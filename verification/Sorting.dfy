/** Insertion sort by any total order, and what the models need to know about sorted lists. */
module Sorting {
  import opened Sequences

  ghost predicate IsTotal<T(!new)>(leq: (T, T) -> bool) {
    && (forall a, b :: leq(a, b) || leq(b, a))
    && (forall a, b, c :: leq(a, b) && leq(b, c) ==> leq(a, c))
  }

  predicate AscendingBy<T>(s: seq<T>, leq: (T, T) -> bool) {
    forall i, j :: 0 <= i < j < |s| ==> leq(s[i], s[j])
  }

  function InsertBy<T>(x: T, s: seq<T>, leq: (T, T) -> bool): seq<T> {
    if s == [] || leq(x, s[0]) then [x] + s else [s[0]] + InsertBy(x, s[1..], leq)
  }

  function SortedBy<T>(s: seq<T>, leq: (T, T) -> bool): seq<T> {
    if s == [] then [] else InsertBy(s[0], SortedBy(s[1..], leq), leq)
  }

  lemma {:induction false} InsertKeepsMembers<T>(x: T, s: seq<T>, leq: (T, T) -> bool)
    ensures multiset(InsertBy(x, s, leq)) == multiset(s) + multiset{x}
  {
    if s == [] || leq(x, s[0]) {
      assert multiset([x] + s) == multiset([x]) + multiset(s);
    } else {
      InsertKeepsMembers(x, s[1..], leq);
      assert s == [s[0]] + s[1..];
      assert multiset([s[0]] + InsertBy(x, s[1..], leq)) == multiset([s[0]]) + multiset(InsertBy(x, s[1..], leq));
    }
  }

  lemma {:induction false} InsertKeepsOrder<T(!new)>(x: T, s: seq<T>, leq: (T, T) -> bool)
    requires IsTotal(leq) && AscendingBy(s, leq)
    ensures AscendingBy(InsertBy(x, s, leq), leq)
    ensures InsertBy(x, s, leq)[0] == if s == [] || leq(x, s[0]) then x else s[0]
  {
    if s == [] || leq(x, s[0]) {
    } else {
      InsertKeepsOrder(x, s[1..], leq);
      var rest := InsertBy(x, s[1..], leq);
      assert leq(s[0], rest[0]);
      forall j | 0 <= j < |rest|
        ensures leq(s[0], rest[j])
      {
        assert j > 0 ==> leq(rest[0], rest[j]);
      }
    }
  }

  /** Sorting permutes, whatever the comparison does. */
  lemma {:induction false} SortedPermutes<T>(s: seq<T>, leq: (T, T) -> bool)
    ensures multiset(SortedBy(s, leq)) == multiset(s)
  {
    if s != [] {
      SortedPermutes(s[1..], leq);
      InsertKeepsMembers(s[0], SortedBy(s[1..], leq), leq);
      assert s == [s[0]] + s[1..];
    }
  }

  lemma {:induction false} SortedAscends<T(!new)>(s: seq<T>, leq: (T, T) -> bool)
    requires IsTotal(leq)
    ensures AscendingBy(SortedBy(s, leq), leq)
  {
    if s != [] {
      SortedAscends(s[1..], leq);
      InsertKeepsOrder(s[0], SortedBy(s[1..], leq), leq);
    }
  }

  lemma SameMembers<T(!new)>(a: seq<T>, b: seq<T>)
    requires multiset(a) == multiset(b)
    ensures forall x :: x in a <==> x in b
  {
    forall x
      ensures x in a <==> x in b
    {
      assert x in a <==> x in multiset(a);
      assert x in b <==> x in multiset(b);
    }
  }

  // ---- Repeats ----

  lemma {:induction false} DistinctCounts<T>(s: seq<T>, x: T)
    requires Distinct(s)
    ensures multiset(s)[x] <= 1
  {
    if s != [] {
      DistinctCounts(s[1..], x);
      assert s == [s[0]] + s[1..];
      if s[0] == x {
        assert x !in s[1..];
      }
    }
  }

  lemma RepeatCounts<T>(s: seq<T>, i: nat, j: nat)
    requires i < j < |s| && s[i] == s[j]
    ensures multiset(s)[s[i]] >= 2
  {
    assert s == s[..i] + [s[i]] + s[i + 1..j] + [s[j]] + s[j + 1..];
  }

  lemma DistinctPermutes<T>(s: seq<T>, t: seq<T>)
    requires multiset(s) == multiset(t) && Distinct(s)
    ensures Distinct(t)
  {
    forall i, j | 0 <= i < j < |t|
      ensures t[i] != t[j]
    {
      if t[i] == t[j] {
        RepeatCounts(t, i, j);
        DistinctCounts(s, t[i]);
      }
    }
  }

  // ---- Integers ----

  predicate AtMost(a: int, b: int) {
    a <= b
  }

  function Sorted(s: seq<int>): seq<int> {
    SortedBy(s, AtMost)
  }

  predicate Ascending(s: seq<int>) {
    forall i, j :: 0 <= i < j < |s| ==> s[i] <= s[j]
  }

  predicate StrictlyAscending(s: seq<int>) {
    forall i, j :: 0 <= i < j < |s| ==> s[i] < s[j]
  }

  lemma SortedSorts(s: seq<int>)
    ensures Ascending(Sorted(s))
    ensures multiset(Sorted(s)) == multiset(s)
  {
    SortedPermutes(s, AtMost);
    SortedAscends(s, AtMost);
    var t := Sorted(s);
    forall i, j | 0 <= i < j < |t|
      ensures t[i] <= t[j]
    {
      assert AtMost(t[i], t[j]);
    }
  }

  /** Sorting is strict exactly on lists without repeats. */
  lemma SortedStrictly(s: seq<int>)
    ensures StrictlyAscending(Sorted(s)) <==> Distinct(s)
  {
    SortedSorts(s);
    if Distinct(s) {
      DistinctPermutes(s, Sorted(s));
    }
    if StrictlyAscending(Sorted(s)) {
      DistinctPermutes(Sorted(s), s);
    }
  }
}
