/** Sorting by an integer key, as the standard library's slices package does it for the
    application: a permutation in ascending order, equal keys in the order they came. */
module Sorting {

  ghost predicate Ascending<T(!new)>(key: T -> int, s: seq<T>) {
    forall i, j :: 0 <= i < j < |s| ==> key(s[i]) <= key(s[j])
  }

  ghost predicate StrictlyAscending<T(!new)>(key: T -> int, s: seq<T>) {
    forall i, j :: 0 <= i < j < |s| ==> key(s[i]) < key(s[j])
  }

  ghost predicate DistinctKeys<T(!new)>(key: T -> int, s: seq<T>) {
    forall i, j :: 0 <= i < j < |s| ==> key(s[i]) != key(s[j])
  }

  function Insert<T>(key: T -> int, x: T, s: seq<T>): seq<T> {
    if s == [] || key(s[|s| - 1]) <= key(x) then s + [x]
    else Insert(key, x, s[..|s| - 1]) + [s[|s| - 1]]
  }

  function SortBy<T>(key: T -> int, s: seq<T>): seq<T> {
    if s == [] then [] else Insert(key, s[|s| - 1], SortBy(key, s[..|s| - 1]))
  }

  lemma LastApart<T>(s: seq<T>)
    requires s != []
    ensures s == s[..|s| - 1] + [s[|s| - 1]]
    ensures multiset(s) == multiset(s[..|s| - 1]) + multiset{s[|s| - 1]}
  {
    assert s == s[..|s| - 1] + [s[|s| - 1]];
  }

  lemma {:induction false} InsertIsSorted<T(!new)>(key: T -> int, x: T, s: seq<T>)
    requires Ascending(key, s)
    ensures multiset(Insert(key, x, s)) == multiset(s) + multiset{x}
    ensures Ascending(key, Insert(key, x, s))
  {
    if s == [] || key(s[|s| - 1]) <= key(x) {
    } else {
      var init, last := s[..|s| - 1], s[|s| - 1];
      LastApart(s);
      InsertIsSorted(key, x, init);
      var r := Insert(key, x, init);
      forall i | 0 <= i < |r| ensures key(r[i]) <= key(last) {
        assert r[i] in multiset(r);
        assert r[i] in multiset(init) + multiset{x};
        if r[i] != x {
          assert r[i] in init;
        }
      }
    }
  }

  /** Sorting is a permutation into ascending order. */
  lemma {:induction false} SortBySorts<T(!new)>(key: T -> int, s: seq<T>)
    ensures multiset(SortBy(key, s)) == multiset(s)
    ensures Ascending(key, SortBy(key, s))
    ensures |SortBy(key, s)| == |s|
    ensures forall x :: x in SortBy(key, s) <==> x in s
  {
    if s == [] {
    } else {
      LastApart(s);
      SortBySorts(key, s[..|s| - 1]);
      InsertIsSorted(key, s[|s| - 1], SortBy(key, s[..|s| - 1]));
    }
    SameMembers(SortBy(key, s), s);
  }

  lemma SameMembers<T>(a: seq<T>, b: seq<T>)
    requires multiset(a) == multiset(b)
    ensures |a| == |b|
    ensures forall x :: x in a <==> x in b
  {
    assert |multiset(a)| == |a| && |multiset(b)| == |b|;
    forall x ensures x in a <==> x in b {
      assert x in a <==> x in multiset(a);
      assert x in b <==> x in multiset(b);
    }
  }

  ghost predicate DistinctMembers<T(!new)>(key: T -> int, s: seq<T>) {
    && (forall x, y :: x in s && y in s && key(x) == key(y) ==> x == y)
    && (forall x :: x in s ==> multiset(s)[x] == 1)
  }

  lemma OnceEach<T(!new)>(key: T -> int, s: seq<T>)
    requires DistinctKeys(key, s)
    ensures DistinctMembers(key, s)
  {
    forall x | x in s ensures multiset(s)[x] == 1 {
      var i :| 0 <= i < |s| && s[i] == x;
      assert s == s[..i] + [x] + s[i + 1..];
      assert x !in s[..i] && x !in s[i + 1..];
    }
  }

  lemma TwiceCounted<T>(s: seq<T>, i: nat, j: nat)
    requires i < j < |s| && s[i] == s[j]
    ensures multiset(s)[s[j]] >= 2
  {
    assert s == s[..j] + s[j..];
    assert multiset(s)[s[j]] == multiset(s[..j])[s[j]] + multiset(s[j..])[s[j]];
    assert s[..j][i] == s[j] && s[j..][0] == s[j];
  }

  lemma NoneTwice<T(!new)>(key: T -> int, s: seq<T>)
    requires DistinctMembers(key, s)
    ensures DistinctKeys(key, s)
  {
    forall i, j | 0 <= i < j < |s| && s[i] == s[j] ensures multiset(s)[s[j]] >= 2 {
      TwiceCounted(s, i, j);
    }
  }

  /** Distinct keys stay distinct under any permutation, and sorted they ascend strictly. */
  lemma DistinctSortsStrictly<T(!new)>(key: T -> int, s: seq<T>)
    requires DistinctKeys(key, s)
    ensures StrictlyAscending(key, SortBy(key, s))
  {
    SortBySorts(key, s);
    OnceEach(key, s);
    NoneTwice(key, SortBy(key, s));
  }

  /** There is one ascending order of distinct keys, so the sort does not depend on the
      order its input comes in. */
  lemma {:induction false} SortedIsUnique<T(!new)>(key: T -> int, a: seq<T>, b: seq<T>)
    requires StrictlyAscending(key, a) && StrictlyAscending(key, b)
    requires |a| == |b| && forall x :: x in a <==> x in b
    ensures a == b
  {
    if a == [] {
    } else {
      var i, j := |a| - 1, |b| - 1;
      assert a[i] in b && b[j] in a;
      assert a[i] == b[j];
      var a', b' := a[..i], b[..j];
      forall x ensures x in a' <==> x in b' {
        if x in a' {
          assert key(x) < key(a[i]) && x in b;
        }
        if x in b' {
          assert key(x) < key(b[j]) && x in a;
        }
      }
      SortedIsUnique(key, a', b');
    }
  }

  lemma SortIgnoresOrder<T(!new)>(key: T -> int, a: seq<T>, b: seq<T>)
    requires multiset(a) == multiset(b) && DistinctKeys(key, a)
    ensures SortBy(key, a) == SortBy(key, b)
  {
    SameMembers(a, b);
    OnceEach(key, a);
    NoneTwice(key, b);
    DistinctSortsStrictly(key, a);
    DistinctSortsStrictly(key, b);
    SortBySorts(key, a);
    SortBySorts(key, b);
    SortedIsUnique(key, SortBy(key, a), SortBy(key, b));
  }
}
