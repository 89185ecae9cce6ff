/** Stable sorting by a caller-supplied comparison, and the lexicographic order on strings. */
module Sorting {

  /** `le` is a total preorder: any two elements compare, and comparisons chain. */
  ghost predicate TotalPreorder<T(!new)>(le: (T, T) -> bool) {
    && (forall x, y :: le(x, y) || le(y, x))
    && (forall x, y, z :: le(x, y) && le(y, z) ==> le(x, z))
  }

  predicate Sorted<T>(s: seq<T>, le: (T, T) -> bool) {
    forall i, j :: 0 <= i < j < |s| ==> le(s[i], s[j])
  }

  /** Puts `x` in front of the first element it does not exceed. */
  function Insert<T>(x: T, s: seq<T>, le: (T, T) -> bool): (r: seq<T>)
    ensures multiset(r) == multiset(s) + multiset{x}
  {
    if s == [] then [x]
    else if le(x, s[0]) then [x] + s
    else
      assert s == [s[0]] + s[1..];
      [s[0]] + Insert(x, s[1..], le)
  }

  /** Stable insertion sort; it stands for the library's `sort_by`. */
  function SortBy<T>(s: seq<T>, le: (T, T) -> bool): (r: seq<T>)
    ensures multiset(r) == multiset(s)
  {
    if s == [] then []
    else
      assert s == [s[0]] + s[1..];
      Insert(s[0], SortBy(s[1..], le), le)
  }

  lemma {:induction false} InsertSorted<T(!new)>(x: T, s: seq<T>, le: (T, T) -> bool)
    requires TotalPreorder(le)
    requires Sorted(s, le)
    ensures Sorted(Insert(x, s, le), le)
  {
    if s != [] && !le(x, s[0]) {
      InsertSorted(x, s[1..], le);
      var r := Insert(x, s[1..], le);
      forall k | 0 <= k < |r| ensures le(s[0], r[k]) {
        assert r[k] in multiset(r);
        assert r[k] in multiset(s[1..]) + multiset{x};
        if r[k] != x {
          assert r[k] in s[1..];
        }
      }
    }
  }

  /** The sorted sequence is ordered, and it is a permutation of its input. */
  lemma {:induction false} SortBySorted<T(!new)>(s: seq<T>, le: (T, T) -> bool)
    requires TotalPreorder(le)
    ensures Sorted(SortBy(s, le), le) && multiset(SortBy(s, le)) == multiset(s)
  {
    if s != [] {
      SortBySorted(s[1..], le);
      InsertSorted(s[0], SortBy(s[1..], le), le);
    }
  }

  /** Sorting a sequence that is already ordered changes nothing. */
  lemma {:induction false} SortByIdentity<T(!new)>(s: seq<T>, le: (T, T) -> bool)
    requires Sorted(s, le)
    ensures SortBy(s, le) == s
  {
    if s != [] {
      SortByIdentity(s[1..], le);
      if |s| > 1 {
        assert le(s[0], s[1]);
      }
    }
  }

  lemma MultisetTail<T>(s: seq<T>)
    requires s != []
    ensures multiset(s[1..]) == multiset(s) - multiset{s[0]}
  {
    assert s == [s[0]] + s[1..];
  }

  /** Two ordered permutations of each other start with the same element. */
  lemma SortedSameHead<T>(s: seq<T>, t: seq<T>, le: (T, T) -> bool)
    requires s != [] && Sorted(s, le) && Sorted(t, le)
    requires multiset(s) == multiset(t)
    requires forall x, y :: x in s && y in s && le(x, y) && le(y, x) ==> x == y
    ensures t != [] && s[0] == t[0]
  {
    assert s[0] in multiset(t);
    var j :| 0 <= j < |t| && t[j] == s[0];
    assert t[0] in multiset(s);
    var i :| 0 <= i < |s| && s[i] == t[0];
    if i > 0 && j > 0 {
      assert le(t[0], t[j]) && le(s[0], s[i]);
    }
  }

  /**
   * Two ordered permutations of each other are equal when the order does
   * not tie distinct elements: the sorted order is independent of the input order.
   */
  lemma {:induction false} SortedUnique<T>(s: seq<T>, t: seq<T>, le: (T, T) -> bool)
    requires Sorted(s, le) && Sorted(t, le)
    requires multiset(s) == multiset(t)
    requires forall x, y :: x in s && y in s && le(x, y) && le(y, x) ==> x == y
    ensures s == t
  {
    if s == [] {
      assert |t| == |multiset(t)| == 0;
    } else {
      SortedSameHead(s, t, le);
      MultisetTail(s);
      MultisetTail(t);
      SortedUnique(s[1..], t[1..], le);
      assert s == [s[0]] + s[1..] && t == [t[0]] + t[1..];
    }
  }

  /** `str::cmp`: lexicographic code-point order, which agrees with the order of the UTF-8 bytes. */
  predicate LexLe(a: string, b: string) {
    if a == [] then true
    else if b == [] then false
    else if a[0] != b[0] then a[0] < b[0]
    else LexLe(a[1..], b[1..])
  }

  lemma {:induction false} LexLeTotal(a: string, b: string)
    ensures LexLe(a, b) || LexLe(b, a)
  {
    if a != [] && b != [] && a[0] == b[0] {
      LexLeTotal(a[1..], b[1..]);
    }
  }

  lemma {:induction false} LexLeTransitive(a: string, b: string, c: string)
    requires LexLe(a, b) && LexLe(b, c)
    ensures LexLe(a, c)
  {
    if a != [] && b != [] && c != [] && a[0] == b[0] && b[0] == c[0] {
      LexLeTransitive(a[1..], b[1..], c[1..]);
    }
  }

  lemma {:induction false} LexLeAntisymmetric(a: string, b: string)
    requires LexLe(a, b) && LexLe(b, a)
    ensures a == b
  {
    if a != [] && b != [] {
      LexLeAntisymmetric(a[1..], b[1..]);
      assert a == [a[0]] + a[1..] && b == [b[0]] + b[1..];
    }
  }

  // ---------------------------------------------------------- permutations

  /** `s` with `f` applied to every element. */
  function Map<T, U>(f: T -> U, s: seq<T>): (r: seq<U>)
    ensures |r| == |s| && forall i :: 0 <= i < |s| ==> r[i] == f(s[i])
  {
    if s == [] then [] else [f(s[0])] + Map(f, s[1..])
  }

  lemma MapAppend<T, U>(f: T -> U, a: seq<T>, b: seq<T>)
    ensures Map(f, a + b) == Map(f, a) + Map(f, b)
  {
    assert |Map(f, a + b)| == |Map(f, a) + Map(f, b)|;
    forall i | 0 <= i < |a + b| ensures Map(f, a + b)[i] == (Map(f, a) + Map(f, b))[i] {
      if i >= |a| {
        assert (a + b)[i] == b[i - |a|];
      }
    }
  }

  /** Projecting two permutations of each other gives permutations of each other. */
  lemma {:induction false} MapPermutation<T, U>(f: T -> U, a: seq<T>, b: seq<T>)
    requires multiset(a) == multiset(b)
    ensures multiset(Map(f, a)) == multiset(Map(f, b))
    decreases |a|
  {
    if a == [] {
      assert |b| == |multiset(b)| == 0;
    } else {
      var x := a[0];
      assert x in multiset(b);
      var k :| 0 <= k < |b| && b[k] == x;
      var rest := b[..k] + b[k + 1..];
      assert b == b[..k] + [x] + b[k + 1..];
      MultisetTail(a);
      assert multiset(rest) == multiset(a[1..]);
      MapPermutation(f, a[1..], rest);
      assert Map(f, a) == [f(x)] + Map(f, a[1..]);
      MapAppend(f, b[..k] + [x], b[k + 1..]);
      MapAppend(f, b[..k], [x]);
      MapAppend(f, b[..k], b[k + 1..]);
    }
  }

  predicate Distinct<T(==)>(s: seq<T>) {
    forall i, j :: 0 <= i < j < |s| ==> s[i] != s[j]
  }

  lemma {:induction false} DistinctCount<T>(s: seq<T>, x: T)
    requires Distinct(s)
    ensures multiset(s)[x] <= 1
  {
    if s != [] {
      var n := |s| - 1;
      assert s == s[..n] + [s[n]];
      assert Distinct(s[..n]);
      DistinctCount(s[..n], x);
      if s[n] == x {
        assert x !in s[..n];
      }
    }
  }

  lemma RepeatedCount<T>(s: seq<T>, i: nat, j: nat)
    requires i < j < |s| && s[i] == s[j]
    ensures multiset(s)[s[i]] >= 2
  {
    assert s == s[..j] + [s[j]] + s[j + 1..];
    assert s[i] in s[..j];
  }

  /** A permutation of a sequence without repeats has none either. */
  lemma DistinctPermutation<T>(a: seq<T>, b: seq<T>)
    requires multiset(a) == multiset(b) && Distinct(a)
    ensures Distinct(b)
  {
    forall i, j | 0 <= i < j < |b| ensures b[i] != b[j] {
      if b[i] == b[j] {
        RepeatedCount(b, i, j);
        DistinctCount(a, b[i]);
      }
    }
  }
}
