/**
 * Python's ordering of strings and what `sorted` returns for a list of
 * strings: strings compare lexicographically by code point, and `sorted`
 * yields the ascending permutation of its argument.
 */
module Ordering {

  /** `a <= b` on Python strings: lexicographic by code point, a prefix first. */
  predicate LexLe(a: string, b: string)
    decreases |a|
  {
    |a| == 0 || (|b| > 0 && (a[0] < b[0] || (a[0] == b[0] && LexLe(a[1..], b[1..]))))
  }

  lemma {:induction false} LexLeReflexive(a: string)
    ensures LexLe(a, a)
  {
    if |a| > 0 {
      LexLeReflexive(a[1..]);
    }
  }

  lemma {:induction false} LexLeTotal(a: string, b: string)
    ensures LexLe(a, b) || LexLe(b, a)
  {
    if |a| > 0 && |b| > 0 && a[0] == b[0] {
      LexLeTotal(a[1..], b[1..]);
    }
  }

  lemma {:induction false} LexLeAntisymmetric(a: string, b: string)
    requires LexLe(a, b) && LexLe(b, a)
    ensures a == b
  {
    if |a| > 0 {
      LexLeAntisymmetric(a[1..], b[1..]);
      assert a == [a[0]] + a[1..];
      assert b == [b[0]] + b[1..];
    }
  }

  lemma {:induction false} LexLeTransitive(a: string, b: string, c: string)
    requires LexLe(a, b) && LexLe(b, c)
    ensures LexLe(a, c)
  {
    if |a| > 0 && a[0] == b[0] && b[0] == c[0] {
      LexLeTransitive(a[1..], b[1..], c[1..]);
    }
  }

  /** Strings compare at their first differing character. */
  lemma {:induction false} LexLeAtFirstDifference(p: string, x: char, y: char, u: string, v: string)
    requires x < y
    ensures LexLe(p + [x] + u, p + [y] + v)
    decreases |p|
  {
    if p != [] {
      LexLeAtFirstDifference(p[1..], x, y, u, v);
      assert (p + [x] + u)[1..] == p[1..] + [x] + u;
      assert (p + [y] + v)[1..] == p[1..] + [y] + v;
    }
  }

  /** A string comes before every string it is a prefix of. */
  lemma {:induction false} LexLePrefix(a: string, b: string)
    requires a <= b
    ensures LexLe(a, b)
    decreases |a|
  {
    if |a| > 0 {
      LexLePrefix(a[1..], b[1..]);
    }
  }

  /** `a` and `b` agree before position `k`, and `a` is smaller at `k`. */
  predicate FirstDifferenceBelow(a: string, b: string, k: nat)
  {
    k < |a| && k < |b| && a[..k] == b[..k] && a[k] < b[k]
  }

  /** A prefix, or a smaller character at the first difference, gives `LexLe`. */
  lemma PythonOrderGivesLexLe(a: string, b: string, k: nat)
    requires a <= b || FirstDifferenceBelow(a, b, k)
    ensures LexLe(a, b)
  {
    if a <= b {
      LexLePrefix(a, b);
    } else {
      assert a == a[..k] + [a[k]] + a[k + 1..];
      assert b == b[..k] + [b[k]] + b[k + 1..];
      LexLeAtFirstDifference(a[..k], a[k], b[k], a[k + 1..], b[k + 1..]);
    }
  }

  /** `LexLe` holds only for a prefix or a smaller character at the first difference. */
  lemma {:induction false} LexLeGivesPythonOrder(a: string, b: string)
    requires LexLe(a, b)
    ensures a <= b || exists k: nat :: FirstDifferenceBelow(a, b, k)
    decreases |a|
  {
    if |a| > 0 {
      if a[0] < b[0] {
        assert FirstDifferenceBelow(a, b, 0);
      } else {
        LexLeGivesPythonOrder(a[1..], b[1..]);
        if a[1..] <= b[1..] {
          assert a == [a[0]] + a[1..];
          assert b[..|a|] == [b[0]] + b[1..][..|a| - 1];
        } else {
          var k: nat :| FirstDifferenceBelow(a[1..], b[1..], k);
          assert a[..k + 1] == [a[0]] + a[1..][..k];
          assert b[..k + 1] == [b[0]] + b[1..][..k];
          assert FirstDifferenceBelow(a, b, k + 1);
        }
      }
    }
  }

  /**
   * `LexLe` is Python's comparison of strings: `a <= b` exactly when `a`
   * is a prefix of `b`, or the first character where they differ is
   * smaller in `a`.
   */
  lemma LexLeIsPythonOrder(a: string, b: string)
    ensures LexLe(a, b) <==> a <= b || exists k: nat :: FirstDifferenceBelow(a, b, k)
  {
    if LexLe(a, b) {
      LexLeGivesPythonOrder(a, b);
    } else if exists k: nat :: FirstDifferenceBelow(a, b, k) {
      var k: nat :| FirstDifferenceBelow(a, b, k);
      PythonOrderGivesLexLe(a, b, k);
    } else if a <= b {
      PythonOrderGivesLexLe(a, b, 0);
    }
  }

  /** Ascending under Python's string order. */
  predicate Sorted(s: seq<string>)
  {
    forall i, j :: 0 <= i < j < |s| ==> LexLe(s[i], s[j])
  }

  /** No element occurs twice. */
  predicate Distinct<T(==)>(s: seq<T>)
  {
    forall i, j :: 0 <= i < j < |s| ==> s[i] != s[j]
  }

  lemma PrependSorted(x: string, s: seq<string>)
    requires Sorted(s)
    requires s != [] ==> LexLe(x, s[0])
    ensures Sorted([x] + s)
  {
    forall j | 0 <= j < |s|
      ensures LexLe(x, s[j])
    {
      if j > 0 {
        LexLeTransitive(x, s[0], s[j]);
      }
    }
  }

  /** Places `x` into the ascending list `s`. */
  function Insert(x: string, s: seq<string>): (r: seq<string>)
    requires Sorted(s)
    ensures Sorted(r)
    ensures multiset(r) == multiset(s) + multiset{x}
  {
    if s == [] then
      [x]
    else if LexLe(x, s[0]) then
      PrependSorted(x, s);
      [x] + s
    else
      var tail := Insert(x, s[1..]);
      LexLeTotal(x, s[0]);
      assert s == [s[0]] + s[1..];
      assert tail[0] in multiset(tail);
      assert LexLe(s[0], tail[0]) by {
        if tail[0] != x {
          assert tail[0] in s[1..];
        }
      }
      PrependSorted(s[0], tail);
      [s[0]] + tail
  }

  /** Python's `sorted` on a list of strings. */
  function SortStrings(s: seq<string>): (r: seq<string>)
    ensures Sorted(r)
    ensures multiset(r) == multiset(s)
  {
    if s == [] then
      []
    else
      assert s == s[..|s| - 1] + [s[|s| - 1]];
      Insert(s[|s| - 1], SortStrings(s[..|s| - 1]))
  }

  /** Two non-empty ascending lists holding the same elements start alike. */
  lemma SortedSameFirst(a: seq<string>, b: seq<string>)
    requires Sorted(a) && Sorted(b) && a != [] && b != []
    requires multiset(a) == multiset(b)
    ensures a[0] == b[0]
  {
    assert a[0] in multiset(b);
    var j :| 0 <= j < |b| && b[j] == a[0];
    assert b[0] in multiset(a);
    var i :| 0 <= i < |a| && a[i] == b[0];
    if j == 0 { LexLeReflexive(b[0]); }
    if i == 0 { LexLeReflexive(a[0]); }
    LexLeAntisymmetric(a[0], b[0]);
  }

  /** Two ascending lists holding the same elements are the same list. */
  lemma {:induction false} SortedUnique(a: seq<string>, b: seq<string>)
    requires Sorted(a) && Sorted(b)
    requires multiset(a) == multiset(b)
    ensures a == b
    decreases |a|
  {
    if a == [] {
      assert |multiset(b)| == 0;
    } else {
      assert |b| == |multiset(b)| == |multiset(a)| == |a|;
      SortedSameFirst(a, b);
      assert a == [a[0]] + a[1..];
      assert b == [b[0]] + b[1..];
      assert multiset(a[1..]) == multiset(a) - multiset{a[0]};
      assert multiset(b[1..]) == multiset(b) - multiset{b[0]};
      SortedUnique(a[1..], b[1..]);
    }
  }

  /** What `sorted` returns is the one ascending permutation of its argument. */
  lemma SortStringsIsTheSortedPermutation(s: seq<string>, t: seq<string>)
    requires Sorted(t) && multiset(t) == multiset(s)
    ensures t == SortStrings(s)
  {
    SortedUnique(t, SortStrings(s));
  }

  /** Re-sorting a list that is already ascending after an append changes nothing. */
  lemma SortedIsFixed(s: seq<string>, x: string)
    requires Sorted(s + [x])
    ensures SortStrings(s + [x]) == s + [x]
  {
    SortStringsIsTheSortedPermutation(s + [x], s + [x]);
  }

  /** A duplicate-free list holds each value at most once. */
  lemma {:induction false} DistinctCount<T>(s: seq<T>, y: T)
    requires Distinct(s)
    ensures multiset(s)[y] <= 1
  {
    if s != [] {
      assert s == [s[0]] + s[1..];
      DistinctCount(s[1..], y);
      if s[0] == y {
        assert y !in s[1..];
      }
    }
  }

  /** A list that holds each value at most once is duplicate-free. */
  lemma CountDistinct<T>(s: seq<T>)
    requires forall y :: multiset(s)[y] <= 1
    ensures Distinct(s)
  {
    forall i, j | 0 <= i < j < |s|
      ensures s[i] != s[j]
    {
      assert s == s[..j] + s[j..];
      assert s[i] in s[..j];
      assert s[j] in s[j..];
      assert multiset(s)[s[j]] == multiset(s[..j])[s[j]] + multiset(s[j..])[s[j]];
    }
  }

  /**
   * Appending an absent element to a duplicate-free list and sorting
   * gives an ascending duplicate-free list with exactly one more element.
   */
  lemma SortAddsFresh(a: seq<string>, x: string)
    requires Distinct(a) && x !in a
    ensures Distinct(SortStrings(a + [x]))
    ensures forall y :: y in SortStrings(a + [x]) <==> y in a || y == x
  {
    var t := SortStrings(a + [x]);
    forall y
      ensures multiset(t)[y] <= 1
    {
      DistinctCount(a, y);
    }
    CountDistinct(t);
    forall y
      ensures y in t <==> y in a || y == x
    {
      assert y in t <==> y in multiset(t);
      assert y in a + [x] <==> y in multiset(a + [x]);
    }
  }
}
