/** The C library's qsort, known to its callers only by its contract. */
module Sorting {

  ghost predicate TotalPreorder<T(!new)>(le: (T, T) -> bool) {
    && (forall x, y :: le(x, y) || le(y, x))
    && (forall x, y, z :: le(x, y) && le(y, z) ==> le(x, z))
  }

  ghost predicate Sorted<T>(le: (T, T) -> bool, s: seq<T>) {
    forall i, j | 0 <= i < j < |s| :: le(s[i], s[j])
  }

  /** t lists the elements of s in an order the comparator accepts. */
  ghost predicate SortOf<T>(le: (T, T) -> bool, s: seq<T>, t: seq<T>) {
    Sorted(le, t) && multiset(t) == multiset(s)
  }

  function Insert<T>(le: (T, T) -> bool, x: T, s: seq<T>): (r: seq<T>) {
    if s == [] || le(x, s[0]) then [x] + s else [s[0]] + Insert(le, x, s[1..])
  }

  lemma {:induction false} InsertMultiset<T>(le: (T, T) -> bool, x: T, s: seq<T>)
    ensures multiset(Insert(le, x, s)) == multiset(s) + multiset{x}
  {
    if s != [] && !le(x, s[0]) {
      InsertMultiset(le, x, s[1..]);
      assert s == [s[0]] + s[1..];
    }
  }

  lemma {:induction false} InsertSorted<T(!new)>(le: (T, T) -> bool, x: T, s: seq<T>)
    requires TotalPreorder(le) && Sorted(le, s)
    ensures Sorted(le, Insert(le, x, s))
  {
    if s != [] && !le(x, s[0]) {
      InsertSorted(le, x, s[1..]);
      InsertMultiset(le, x, s[1..]);
      var r := Insert(le, x, s[1..]);
      forall j | 0 <= j < |r| ensures le(s[0], r[j]) {
        assert r[j] in multiset(r);
        assert r[j] in multiset(s[1..]) || r[j] == x;
      }
    }
  }

  /** A reference sort, for stating what a sorted listing contains. */
  function Sort<T>(le: (T, T) -> bool, s: seq<T>): (r: seq<T>) {
    if s == [] then [] else Insert(le, s[0], Sort(le, s[1..]))
  }

  lemma {:induction false} SortIsSort<T(!new)>(le: (T, T) -> bool, s: seq<T>)
    requires TotalPreorder(le)
    ensures SortOf(le, s, Sort(le, s))
  {
    if s != [] {
      SortIsSort(le, s[1..]);
      InsertSorted(le, s[0], Sort(le, s[1..]));
      InsertMultiset(le, s[0], Sort(le, s[1..]));
      assert s == [s[0]] + s[1..];
    }
  }

  lemma MultisetWithout<T>(s: seq<T>, j: nat)
    requires j < |s|
    ensures multiset(s) == multiset(s[..j] + s[j + 1..]) + multiset{s[j]}
  {
    assert s == s[..j] + ([s[j]] + s[j + 1..]);
  }

  lemma MultisetTail<T>(s: seq<T>)
    requires s != []
    ensures multiset(s) == multiset(s[1..]) + multiset{s[0]}
  {
    assert s == [s[0]] + s[1..];
  }

  lemma Cancel<T>(a: multiset<T>, b: multiset<T>, x: T)
    requires a + multiset{x} == b + multiset{x}
    ensures a == b
  {
    assert a == (a + multiset{x}) - multiset{x} && b == (b + multiset{x}) - multiset{x};
  }

  lemma SameLength<T>(s: seq<T>, t: seq<T>)
    requires multiset(s) == multiset(t)
    ensures |s| == |t|
  {
    assert |s| == |multiset(s)| && |t| == |multiset(t)|;
  }

  lemma SortedHead<T>(le: (T, T) -> bool, s: seq<T>, x: T)
    requires Sorted(le, s) && x in multiset(s)
    ensures x == s[0] || le(s[0], x)
  {
    var i :| 0 <= i < |s| && s[i] == x;
  }

  /** Sorting is a function of the multiset as soon as the comparator tells distinct elements apart. */
  lemma {:induction false} SortUnique<T>(le: (T, T) -> bool, s: seq<T>, t: seq<T>)
    requires Sorted(le, s) && Sorted(le, t) && multiset(t) == multiset(s)
    requires forall x, y | x in multiset(s) && y in multiset(s) && le(x, y) && le(y, x) :: x == y
    ensures s == t
  {
    hide Sorted;
    SameLength(s, t);
    if s != [] {
      MultisetTail(s);
      MultisetTail(t);
      SameHead(le, s, t);
      Cancel(multiset(s[1..]), multiset(t[1..]), s[0]);
      TailOrdered(le, s);
      TailOrdered(le, t);
      SortUnique(le, s[1..], t[1..]);
      assert s == [s[0]] + s[1..] && t == [t[0]] + t[1..];
    }
  }

  lemma SameHead<T>(le: (T, T) -> bool, s: seq<T>, t: seq<T>)
    requires Sorted(le, s) && Sorted(le, t) && multiset(t) == multiset(s) && s != [] && t != []
    requires forall x, y | x in multiset(s) && y in multiset(s) && le(x, y) && le(y, x) :: x == y
    ensures s[0] == t[0]
  {
    assert s[0] in multiset(t) && t[0] in multiset(s);
    SortedHead(le, s, t[0]);
    SortedHead(le, t, s[0]);
  }

  lemma TailOrdered<T>(le: (T, T) -> bool, s: seq<T>)
    requires Sorted(le, s) && s != []
    ensures Sorted(le, s[1..])
  {
  }

  ghost predicate Distinct<T>(s: seq<T>) {
    forall i, j | 0 <= i < j < |s| :: s[i] != s[j]
  }

  lemma {:induction false} DistinctOnce<T>(s: seq<T>, x: T)
    requires Distinct(s) && x in s
    ensures multiset(s)[x] == 1
  {
    assert s == [s[0]] + s[1..];
    if x == s[0] {
      assert x !in s[1..];
    } else {
      DistinctOnce(s[1..], x);
    }
  }

  lemma TwiceCounted<T>(s: seq<T>, i: nat, j: nat)
    requires i < j < |s| && s[i] == s[j]
    ensures multiset(s)[s[i]] >= 2
  {
    assert s == s[..i + 1] + s[i + 1..];
    assert s[i] == s[..i + 1][i] && s[i] in s[..i + 1];
    assert s[j] == s[i + 1..][j - i - 1] && s[j] in s[i + 1..];
  }

  /** A permutation of distinct elements has distinct elements, and the same ones. */
  lemma DistinctPermutation<T>(s: seq<T>, t: seq<T>)
    requires Distinct(s) && multiset(s) == multiset(t)
    ensures Distinct(t) && |t| == |s|
    ensures forall x :: x in s <==> x in t
  {
    assert |s| == |multiset(s)| == |t|;
    forall x ensures x in s <==> x in t {
      assert x in s <==> x in multiset(s);
      assert x in t <==> x in multiset(t);
    }
    forall i, j | 0 <= i < j < |t| ensures t[i] != t[j] {
      if t[i] == t[j] {
        TwiceCounted(t, i, j);
        DistinctOnce(s, t[i]);
      }
    }
  }

  /** The first element of s, found in a permutation t of s, and what is left of both. */
  lemma MatchHead<T>(s: seq<T>, t: seq<T>) returns (j: nat)
    requires s != [] && multiset(s) == multiset(t)
    ensures j < |t| && t[j] == s[0]
    ensures multiset(s[1..]) == multiset(t[..j] + t[j + 1..])
  {
    MultisetTail(s);
    assert s[0] in multiset(t);
    j :| 0 <= j < |t| && t[j] == s[0];
    MultisetWithout(t, j);
    Cancel(multiset(s[1..]), multiset(t[..j] + t[j + 1..]), s[0]);
  }

  lemma DistinctSameElements<T>(s: seq<T>, t: seq<T>)
    requires Distinct(s) && Distinct(t) && forall x :: x in s <==> x in t
    ensures multiset(s) == multiset(t)
  {
    forall x ensures multiset(s)[x] == multiset(t)[x] {
      assert x in s <==> x in multiset(s);
      assert x in t <==> x in multiset(t);
      if x in s {
        DistinctOnce(s, x);
        DistinctOnce(t, x);
      }
    }
  }

  /** qsort on the first n slots: sorted, and a permutation; nothing is promised about ties. */
  method Qsort<T(!new)>(a: array<T>, n: nat, le: (T, T) -> bool)
    requires n <= a.Length && TotalPreorder(le)
    modifies a
    ensures SortOf(le, old(a[..n]), a[..n])
    ensures a[n..] == old(a[n..])
  {
    hide Sort, TotalPreorder, Sorted;
    ghost var before := a[..n];
    var sorted := Sort(le, a[..n]);
    SortIsSort(le, before);
    SameLength(sorted, before);
    Fill(a, sorted);
  }

  method Fill<T>(a: array<T>, s: seq<T>)
    requires |s| <= a.Length
    modifies a
    ensures a[..|s|] == s
    ensures a[|s|..] == old(a[|s|..])
  {
    var i := 0;
    while i < |s|
      invariant 0 <= i <= |s|
      invariant a[..i] == s[..i]
      invariant a[|s|..] == old(a[|s|..])
    {
      a[i] := s[i];
      i := i + 1;
    }
  }
}
