/** The sequence facts the other modules share: distinct and ascending sequences, the canonical
    listing of a finite set, and a stable sort that stands for the library's `Array.sort`. */
module Ordering {

  ghost predicate Distinct<T>(s: seq<T>) {
    forall i, j :: 0 <= i < j < |s| ==> s[i] != s[j]
  }

  ghost predicate Ascending(s: seq<nat>) {
    forall i, j :: 0 <= i < j < |s| ==> s[i] < s[j]
  }

  ghost function Elements<T>(s: seq<T>): set<T> {
    set x | x in s
  }

  /** Two strictly ascending sequences over the same elements are the same sequence. */
  lemma {:induction false} AscendingIsCanonical(a: seq<nat>, b: seq<nat>)
    requires Ascending(a) && Ascending(b)
    requires forall x :: x in a <==> x in b
    ensures a == b
  {
    assert a != [] ==> a[0] in b;
    assert b != [] ==> b[0] in a;
    if a == [] {
    } else {
      var m, n := |a| - 1, |b| - 1;
      assert a[m] in b && b[n] in a;
      assert a[m] == b[n];
      forall x ensures x in a[..m] <==> x in b[..n] {
        assert x in a[..m] ==> x in a && x != a[m];
        assert x in b[..n] ==> x in b && x != b[n];
      }
      AscendingIsCanonical(a[..m], b[..n]);
      assert a == a[..m] + [a[m]] && b == b[..n] + [b[n]];
    }
  }

  lemma {:induction false} HasGreatest(s: set<nat>)
    requires s != {}
    ensures exists m :: m in s && forall x :: x in s ==> x <= m
  {
    assert |s| > 0;
    var y :| y in s;
    var rest := s - {y};
    if rest == {} {
      assert s == {y};
    } else {
      HasGreatest(rest);
      var m :| m in rest && forall x :: x in rest ==> x <= m;
      var n := if y <= m then m else y;
      forall x | x in s ensures x <= n {
        assert x == y || x in rest;
      }
      assert n in s;
    }
  }

  ghost function Greatest(s: set<nat>): (m: nat)
    requires s != {}
    ensures m in s && forall x :: x in s ==> x <= m
  {
    HasGreatest(s);
    var m :| m in s && forall x :: x in s ==> x <= m;
    m
  }

  /** The members of `s`, each once, in ascending order. */
  ghost function Listing(s: set<nat>): (r: seq<nat>)
    ensures Ascending(r)
    ensures forall x :: x in r <==> x in s
    ensures |r| == |s|
  {
    if s == {} then [] else
      var m := Greatest(s);
      Listing(s - {m}) + [m]
  }

  lemma ListingOf(r: seq<nat>)
    requires Ascending(r)
    ensures Listing(Elements(r)) == r
  {
    AscendingIsCanonical(Listing(Elements(r)), r);
  }

  lemma ListingAppend(s: set<nat>, m: nat)
    requires forall x :: x in s ==> x < m
    ensures Listing(s + {m}) == Listing(s) + [m]
  {
    AscendingIsCanonical(Listing(s + {m}), Listing(s) + [m]);
  }

  /** First occurrences, in order: what spreading a JavaScript `Set` filled from `s` yields. */
  function Dedupe<T(==,!new)>(s: seq<T>): (r: seq<T>)
    ensures forall x :: x in r <==> x in s
    ensures Distinct(r)
    ensures Distinct(s) ==> r == s
  {
    if s == [] then [] else
      var front := s[..|s| - 1];
      var last := s[|s| - 1];
      assert s == front + [last];
      if last in front then Dedupe(front) else Dedupe(front) + [last]
  }

  lemma FrontAndLast<T>(s: seq<T>)
    requires s != []
    ensures s == s[..|s| - 1] + [s[|s| - 1]]
  {
  }

  lemma Regroup<T>(a: seq<T>, b: seq<T>, c: seq<T>)
    ensures a + (b + c) == (a + b) + c
  {
  }

  lemma DistinctCount<T>(s: seq<T>)
    requires Distinct(s)
    ensures |Elements(s)| == |s|
  {
    if s == [] {
    } else {
      var n := |s| - 1;
      DistinctCount(s[..n]);
      assert Elements(s) == Elements(s[..n]) + {s[n]};
    }
  }

  lemma SubsetCount<T>(a: set<T>, b: set<T>)
    requires a <= b
    ensures |a| <= |b|
    ensures a < b ==> |a| < |b|
  {
    assert b == a + (b - a);
  }

  // ---- the stable sort ----

  /** Where `x` goes so that it stands before everything it is not greater than. */
  function Insert<T>(key: T -> int, x: T, s: seq<T>): (r: seq<T>)
    ensures multiset(r) == multiset{x} + multiset(s)
  {
    if s == [] || key(x) <= key(s[0]) then [x] + s
    else
      assert s == [s[0]] + s[1..];
      [s[0]] + Insert(key, x, s[1..])
  }

  /** The stable ascending sort by an integer key. */
  function StableSort<T>(key: T -> int, s: seq<T>): (r: seq<T>)
    ensures multiset(r) == multiset(s)
  {
    if s == [] then [] else
      assert s == [s[0]] + s[1..];
      Insert(key, s[0], StableSort(key, s[1..]))
  }

  ghost predicate SortedBy<T>(key: T -> int, s: seq<T>) {
    forall i, j :: 0 <= i < j < |s| ==> key(s[i]) <= key(s[j])
  }

  /** The subsequence of the elements whose key is `k`, order kept. */
  ghost function WithKey<T>(key: T -> int, k: int, s: seq<T>): seq<T> {
    if s == [] then []
    else if key(s[0]) == k then [s[0]] + WithKey(key, k, s[1..])
    else WithKey(key, k, s[1..])
  }

  lemma {:induction false} InsertKeeps<T>(key: T -> int, x: T, s: seq<T>, k: int)
    requires SortedBy(key, s)
    ensures SortedBy(key, Insert(key, x, s))
    ensures WithKey(key, k, Insert(key, x, s)) == WithKey(key, k, [x] + s)
  {
    var r := Insert(key, x, s);
    assert ([x] + s)[1..] == s;
    if s != [] && key(x) > key(s[0]) {
      InsertKeeps(key, x, s[1..], k);
      var tail := Insert(key, x, s[1..]);
      assert r == [s[0]] + tail && r[1..] == tail;
      assert ([x] + s[1..])[1..] == s[1..];
      forall j | 0 <= j < |tail| ensures key(s[0]) <= key(tail[j]) {
        assert tail[j] in multiset(tail);
        assert tail[j] == x || tail[j] in s[1..];
      }
    }
  }

  /** The sort orders by key and leaves elements of equal key in their original order. */
  lemma {:induction false} StableSortIsStable<T>(key: T -> int, s: seq<T>, k: int)
    ensures SortedBy(key, StableSort(key, s))
    ensures WithKey(key, k, StableSort(key, s)) == WithKey(key, k, s)
  {
    if s == [] {
    } else {
      StableSortIsStable(key, s[1..], k);
      var tail := StableSort(key, s[1..]);
      InsertKeeps(key, s[0], tail, k);
      assert ([s[0]] + tail)[1..] == tail;
    }
  }

  /** Membership survives a sort, both ways. */
  lemma StableSortMembers<T>(key: T -> int, s: seq<T>)
    ensures |StableSort(key, s)| == |s|
    ensures forall x :: x in StableSort(key, s) <==> x in s
  {
    var r := StableSort(key, s);
    assert |multiset(r)| == |multiset(s)|;
    forall x ensures x in r <==> x in s {
      assert x in r <==> x in multiset(r);
      assert x in s <==> x in multiset(s);
    }
  }

  function Number(x: nat): int { x }

  /** Sorting distinct numbers gives the listing of their set. */
  lemma SortedDistinct(s: seq<nat>)
    requires Distinct(s)
    ensures StableSort(Number, s) == Listing(Elements(s))
  {
    StableSortIsStable(Number, s, 0);
    StableSortMembers(Number, s);
    SamePermutationDistinct(s, StableSort(Number, s));
    SortedNumbersAscend(StableSort(Number, s));
    AscendingIsCanonical(StableSort(Number, s), Listing(Elements(s)));
  }

  lemma SortedNumbersAscend(r: seq<nat>)
    requires SortedBy(Number, r) && Distinct(r)
    ensures Ascending(r)
  {
    forall i, j | 0 <= i < j < |r| ensures r[i] < r[j] {
      assert Number(r[i]) <= Number(r[j]);
    }
  }

  lemma SamePermutationDistinct<T>(s: seq<T>, r: seq<T>)
    requires Distinct(s) && multiset(r) == multiset(s)
    ensures Distinct(r)
  {
    forall x ensures multiset(s)[x] <= 1 { DistinctOnce(s, x); }
    forall i, j | 0 <= i < j < |r| ensures r[i] != r[j] {
      if r[i] == r[j] { TwiceCounts(r, i, j); }
    }
  }

  lemma TwiceCounts<T>(r: seq<T>, i: nat, j: nat)
    requires i < j < |r| && r[i] == r[j]
    ensures multiset(r)[r[i]] >= 2
  {
    assert r == r[..i] + [r[i]] + r[i + 1..j] + [r[j]] + r[j + 1..];
  }

  lemma {:induction false} DistinctOnce<T>(s: seq<T>, x: T)
    requires Distinct(s)
    ensures multiset(s)[x] <= 1
  {
    if s == [] {
    } else {
      var n := |s| - 1;
      DistinctOnce(s[..n], x);
      assert s == s[..n] + [s[n]];
      if x == s[n] {
        assert x !in s[..n];
        assert x !in multiset(s[..n]);
      }
    }
  }
}
