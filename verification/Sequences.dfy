// Sequence facts and the sorting routine shared by the other modules.
module Sequences {

  ghost predicate Distinct<T>(s: seq<T>) {
    forall i, j :: 0 <= i < j < |s| ==> s[i] != s[j]
  }

  ghost predicate Sorted<T>(s: seq<T>, leq: (T, T) -> bool) {
    forall i, j :: 0 <= i < j < |s| ==> leq(s[i], s[j])
  }

  ghost predicate TotalOn<T>(s: seq<T>, leq: (T, T) -> bool) {
    forall x, y :: x in s && y in s ==> leq(x, y) || leq(y, x)
  }

  ghost predicate TransitiveOn<T>(s: seq<T>, leq: (T, T) -> bool) {
    forall x, y, z :: x in s && y in s && z in s && leq(x, y) && leq(y, z) ==> leq(x, z)
  }

  ghost predicate AntisymmetricOn<T>(s: seq<T>, leq: (T, T) -> bool) {
    forall x, y :: x in s && y in s && leq(x, y) && leq(y, x) ==> x == y
  }

  function ToSet<T>(s: seq<T>): set<T> {
    set x | x in s
  }

  // s without its i-th element, as append(s[:i], s[i+1:]...) leaves it.
  function Cut<T>(s: seq<T>, i: nat): (r: seq<T>)
    requires i < |s|
    ensures |r| == |s| - 1
    ensures forall j {:trigger r[j]} :: 0 <= j < |r| ==> r[j] == s[if j < i then j else j + 1]
  {
    s[..i] + s[i + 1..]
  }

  // s with x moved in at position i.
  function Put<T>(s: seq<T>, i: nat, x: T): (r: seq<T>)
    requires i <= |s|
    ensures |r| == |s| + 1
    ensures forall j {:trigger r[j]} :: 0 <= j < |r| ==> r[j] == if j < i then s[j] else if j == i then x else s[j - 1]
  {
    s[..i] + [x] + s[i..]
  }

  lemma PutAt<T>(s: seq<T>, i: nat, x: T, j: nat)
    requires i <= |s| && j <= |s|
    ensures Put(s, i, x)[j] == if j < i then s[j] else if j == i then x else s[j - 1]
  {
  }

  // A repetition-free list drawn from a set is no longer than the set, and the
  // elements of a repetition-free list are counted by its length.
  lemma {:induction false} DistinctSize<T>(s: seq<T>, elements: set<T>)
    requires Distinct(s)
    requires forall x :: x in s ==> x in elements
    ensures |ToSet(s)| == |s| <= |elements|
  {
    if s == [] {
    } else {
      var rest := s[..|s| - 1];
      var x := s[|s| - 1];
      DistinctSize(rest, elements - {x});
      assert ToSet(s) == ToSet(rest) + {x};
    }
  }

  // A repetition-free list of the elements of another and one more is longer by one.
  lemma OneLonger<T>(s: seq<T>, t: seq<T>, x: T)
    requires Distinct(s) && Distinct(t)
    requires x !in t && forall y :: y in s <==> y in t || y == x
    ensures |s| == |t| + 1
  {
    DistinctSize(s, ToSet(s));
    DistinctSize(t, ToSet(t));
    assert ToSet(s) == ToSet(t) + {x};
  }

  // A list longer than the set it draws from repeats an element.
  lemma Pigeonhole<T>(s: seq<T>, elements: set<T>)
    requires forall x :: x in s ==> x in elements
    requires |s| > |elements|
    ensures exists i, j :: 0 <= i < j < |s| && s[i] == s[j]
  {
    if Distinct(s) {
      DistinctSize(s, elements);
    }
  }

  lemma MapUpdateSize<K, V>(m: map<K, V>, k: K, v: V)
    ensures |m[k := v]| == |m| + if k in m then 0 else 1
  {
    assert m[k := v].Keys == m.Keys + {k};
  }

  lemma MultisetMembers<T>(s: seq<T>, t: seq<T>)
    requires multiset(s) == multiset(t)
    ensures |s| == |t|
    ensures forall x :: x in s <==> x in t
  {
    assert |multiset(s)| == |multiset(t)|;
    forall x ensures x in s <==> x in t {
      assert x in multiset(s) <==> x in multiset(t);
    }
  }

  // Reordering a repetition-free list keeps it repetition-free.
  lemma DistinctReordered<T>(s: seq<T>, t: seq<T>)
    requires multiset(s) == multiset(t)
    requires Distinct(s)
    ensures Distinct(t)
  {
    MultisetMembers(s, t);
    forall i, j | 0 <= i < j < |t| ensures t[i] != t[j] {
      if t[i] == t[j] {
        assert t == t[..j] + [t[j]] + t[j + 1..];
        assert t[i] in t[..j];
        assert multiset(t)[t[i]] >= 2;
        DistinctCount(s, t[i]);
      }
    }
  }

  lemma {:induction false} DistinctCount<T>(s: seq<T>, x: T)
    requires Distinct(s)
    ensures multiset(s)[x] <= 1
  {
    if s != [] {
      var rest := s[..|s| - 1];
      assert s == rest + [s[|s| - 1]];
      DistinctCount(rest, x);
      if x == s[|s| - 1] {
        assert x !in rest;
      }
    }
  }

  lemma DistinctConcat<T>(a: seq<T>, b: seq<T>)
    requires Distinct(a + b)
    ensures Distinct(a) && Distinct(b)
    ensures forall x :: x in a ==> x !in b
  {
    assert forall i :: 0 <= i < |a| ==> (a + b)[i] == a[i];
    assert forall j :: 0 <= j < |b| ==> (a + b)[|a| + j] == b[j];
  }

  // Two sorted arrangements of the same elements agree when no two different
  // elements are equivalent.
  lemma {:induction false} SortedUnique<T>(s: seq<T>, t: seq<T>, leq: (T, T) -> bool)
    requires multiset(s) == multiset(t)
    requires Sorted(s, leq) && Sorted(t, leq)
    requires AntisymmetricOn(s, leq)
    ensures s == t
    decreases |s|
  {
    MultisetMembers(s, t);
    if s != [] {
      LastsAgree(s, t, leq);
      hide Sorted, AntisymmetricOn;
      LastApart(s);
      LastApart(t);
      SortedInit(s, leq);
      SortedInit(t, leq);
      SortedUnique(s[..|s| - 1], t[..|t| - 1], leq);
    }
  }

  lemma LastApart<T>(s: seq<T>)
    requires |s| > 0
    ensures s == s[..|s| - 1] + [s[|s| - 1]]
    ensures multiset(s[..|s| - 1]) == multiset(s) - multiset{s[|s| - 1]}
  {
    assert s == s[..|s| - 1] + [s[|s| - 1]];
  }

  lemma SortedInit<T>(s: seq<T>, leq: (T, T) -> bool)
    requires Sorted(s, leq) && |s| > 0
    ensures Sorted(s[..|s| - 1], leq)
    ensures AntisymmetricOn(s, leq) ==> AntisymmetricOn(s[..|s| - 1], leq)
  {
    assert forall x :: x in s[..|s| - 1] ==> x in s;
  }

  lemma LastsAgree<T>(s: seq<T>, t: seq<T>, leq: (T, T) -> bool)
    requires |s| > 0 && |t| > 0 && forall x :: x in s <==> x in t
    requires Sorted(s, leq) && Sorted(t, leq)
    requires AntisymmetricOn(s, leq)
    ensures s[|s| - 1] == t[|t| - 1]
  {
    var a, b := s[|s| - 1], t[|t| - 1];
    assert a in t && b in s;
    var i :| 0 <= i < |t| && t[i] == a;
    var j :| 0 <= j < |s| && s[j] == b;
    assert i == |t| - 1 || leq(a, b);
    assert j == |s| - 1 || leq(b, a);
  }

  // Stands for Go's sort.Slice. Callers learn only that the result is a sorted
  // rearrangement, so nothing proved from it depends on how ties fall.
  method SortBy<T>(s: seq<T>, leq: (T, T) -> bool) returns (r: seq<T>)
    requires TotalOn(s, leq)
    requires TransitiveOn(s, leq)
    ensures multiset(r) == multiset(s)
    ensures Sorted(r, leq)
  {
    r := [];
    for n := 0 to |s|
      invariant multiset(r) == multiset(s[..n])
      invariant Sorted(r, leq)
    {
      assert s[..n + 1] == s[..n] + [s[n]];
      MultisetMembers(r, s[..n]);
      r := Insert(r, s[n], leq);
    }
    assert s[..|s|] == s;
  }

  method Insert<T>(s: seq<T>, x: T, leq: (T, T) -> bool) returns (r: seq<T>)
    requires Sorted(s, leq)
    requires TotalOn(s + [x], leq)
    requires TransitiveOn(s + [x], leq)
    ensures multiset(r) == multiset(s) + multiset{x}
    ensures Sorted(r, leq)
  {
    hide TransitiveOn, Sorted;
    ghost var all := s + [x];
    assert x in all && forall i :: 0 <= i < |s| ==> s[i] in all by {
      assert forall i :: 0 <= i < |s| ==> all[i] == s[i];
      assert all[|s|] == x;
    }
    var k := |s|;
    while k > 0 && !leq(s[k - 1], x)
      invariant 0 <= k <= |s|
      invariant forall i :: k <= i < |s| ==> leq(x, s[i])
    {
      k := k - 1;
    }
    r := s[..k] + [x] + s[k..];
    assert s == s[..k] + s[k..];
    SortedWith(s, k, x, leq);
  }

  // There is a sorted arrangement of any list.
  lemma {:induction false} SortExists<T>(s: seq<T>, leq: (T, T) -> bool) returns (r: seq<T>)
    requires TotalOn(s, leq)
    requires TransitiveOn(s, leq)
    ensures multiset(r) == multiset(s)
    ensures Sorted(r, leq)
  {
    hide TotalOn, TransitiveOn, Sorted;
    if s == [] {
      r := [];
      EmptySorted(leq);
    } else {
      var init, x := s[..|s| - 1], s[|s| - 1];
      assert s == init + [x];
      OrderAmong(s, init, leq);
      var rest := SortExists(init, leq);
      MultisetMembers(rest, init);
      OrderAmong(s, rest + [x], leq);
      var k := InsertionPoint(rest, x, leq);
      SortedWith(rest, k, x, leq);
      assert rest == rest[..k] + rest[k..];
      r := rest[..k] + [x] + rest[k..];
    }
  }

  lemma EmptySorted<T>(leq: (T, T) -> bool)
    ensures Sorted([], leq)
  {
  }

  lemma OrderAmong<T>(s: seq<T>, t: seq<T>, leq: (T, T) -> bool)
    requires TotalOn(s, leq) && TransitiveOn(s, leq) && forall x :: x in t ==> x in s
    ensures TotalOn(t, leq) && TransitiveOn(t, leq)
  {
  }

  lemma InsertionPoint<T>(s: seq<T>, x: T, leq: (T, T) -> bool) returns (k: nat)
    requires TotalOn(s + [x], leq)
    ensures k <= |s| && (k > 0 ==> leq(s[k - 1], x))
    ensures forall i :: k <= i < |s| ==> leq(x, s[i])
  {
    k := |s|;
    while k > 0 && !leq(s[k - 1], x)
      invariant 0 <= k <= |s|
      invariant forall i :: k <= i < |s| ==> leq(x, s[i])
    {
      assert (s + [x])[k - 1] == s[k - 1] && (s + [x])[|s|] == x;
      k := k - 1;
    }
  }

  lemma SortedWith<T>(s: seq<T>, k: nat, x: T, leq: (T, T) -> bool)
    requires k <= |s| && Sorted(s, leq)
    requires TransitiveOn(s + [x], leq)
    requires k > 0 ==> leq(s[k - 1], x)
    requires forall i :: k <= i < |s| ==> leq(x, s[i])
    ensures Sorted(s[..k] + [x] + s[k..], leq)
  {
    forall i | 0 <= i < k ensures leq(s[i], x) {
      if i < k - 1 {
        assert (s + [x])[i] == s[i] && (s + [x])[k - 1] == s[k - 1] && (s + [x])[|s|] == x;
        assert leq(s[i], s[k - 1]);
      }
    }
  }

  // Sorting by an integer key, in the manner of a one-field comparison function.
  method SortByKey<T>(s: seq<T>, key: T -> int) returns (r: seq<T>)
    ensures multiset(r) == multiset(s)
    ensures forall i, j :: 0 <= i < j < |r| ==> key(r[i]) <= key(r[j])
  {
    r := SortBy(s, (x, y) => key(x) <= key(y));
  }
}
