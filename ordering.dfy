/**
  Python's ordering of `str` values (code point by code point, a proper
  prefix first) and the `sorted(...)` of a list of strings.
 */
module Ordering {

  /** `a <= b` on Python strings. */
  predicate StrLe(a: string, b: string) {
    a == [] || (b != [] && (a[0] < b[0] || (a[0] == b[0] && StrLe(a[1..], b[1..]))))
  }

  lemma {:induction false} StrLeTotal(a: string, b: string)
    ensures StrLe(a, b) || StrLe(b, a)
  {
    if a != [] && b != [] && a[0] == b[0] {
      StrLeTotal(a[1..], b[1..]);
    }
  }

  lemma {:induction false} StrLeReflexive(a: string)
    ensures StrLe(a, a)
  {
    if a != [] { StrLeReflexive(a[1..]); }
  }

  lemma {:induction false} StrLeAntisymmetric(a: string, b: string)
    requires StrLe(a, b) && StrLe(b, a)
    ensures a == b
  {
    if a != [] {
      StrLeAntisymmetric(a[1..], b[1..]);
      assert a == [a[0]] + a[1..] && b == [b[0]] + b[1..];
    }
  }

  lemma {:induction false} StrLeTransitive(a: string, b: string, c: string)
    requires StrLe(a, b) && StrLe(b, c)
    ensures StrLe(a, c)
  {
    if a != [] && a[0] == b[0] && b[0] == c[0] {
      StrLeTransitive(a[1..], b[1..], c[1..]);
    }
  }

  /** Each element is at most the next one. */
  predicate Sorted(s: seq<string>) {
    |s| < 2 || (StrLe(s[0], s[1]) && Sorted(s[1..]))
  }

  /** In a sorted list every element is at most every later one. */
  lemma {:induction false} SortedPairs(s: seq<string>, i: nat, j: nat)
    requires Sorted(s) && i < j < |s|
    ensures StrLe(s[i], s[j])
    decreases j
  {
    if i + 1 < j {
      SortedPairs(s, i, j - 1);
      SortedStep(s, j - 1);
      StrLeTransitive(s[i], s[j - 1], s[j]);
    } else {
      SortedStep(s, i);
    }
  }

  lemma {:induction false} SortedStep(s: seq<string>, k: nat)
    requires Sorted(s) && k + 1 < |s|
    ensures StrLe(s[k], s[k + 1])
  {
    if k > 0 {
      SortedStep(s[1..], k - 1);
    }
  }

  /** Inserts `x` before the first element that is not below it. */
  function Insert(x: string, s: seq<string>): (r: seq<string>)
    requires Sorted(s)
    ensures multiset(r) == multiset(s) + multiset{x}
    ensures Sorted(r)
    ensures r[0] == x || (s != [] && r[0] == s[0])
  {
    if s == [] then [x]
    else if StrLe(x, s[0]) then
      assert ([x] + s)[1..] == s;
      [x] + s
    else
      StrLeTotal(x, s[0]);
      assert s == [s[0]] + s[1..];
      var t := Insert(x, s[1..]);
      assert ([s[0]] + t)[1..] == t;
      [s[0]] + t
  }

  /** `sorted(xs)` */
  function SortStrings(xs: seq<string>): (r: seq<string>)
    ensures Sorted(r)
    ensures multiset(r) == multiset(xs)
  {
    if xs == [] then []
    else
      assert xs == [xs[0]] + xs[1..];
      Insert(xs[0], SortStrings(xs[1..]))
  }

  lemma SortStringsCons(xs: seq<string>)
    requires xs != []
    ensures SortStrings(xs) == Insert(xs[0], SortStrings(xs[1..]))
  {
  }

  /** The head of a sorted list is at most every element of it. */
  lemma {:induction false} HeadIsLeast(a: seq<string>, x: string)
    requires Sorted(a) && x in multiset(a)
    ensures StrLe(a[0], x)
  {
    assert x in a;
    var i :| 0 <= i < |a| && a[i] == x;
    if i == 0 {
      StrLeReflexive(x);
    } else {
      SortedPairs(a, 0, i);
    }
  }

  lemma TailMultiset(a: seq<string>)
    requires a != []
    ensures multiset(a[1..]) == multiset(a) - multiset{a[0]}
  {
    assert a == [a[0]] + a[1..];
  }

  /** A sorted arrangement of a multiset of strings is unique. */
  lemma {:induction false} SortedUnique(a: seq<string>, b: seq<string>)
    requires Sorted(a) && Sorted(b)
    requires multiset(a) == multiset(b)
    ensures a == b
  {
    assert |b| == |a| by { assert |multiset(a)| == |multiset(b)|; }
    if a != [] {
      assert a[0] == b[0] by {
        assert a[0] in multiset(a) && b[0] in multiset(b);
        HeadIsLeast(a, b[0]);
        HeadIsLeast(b, a[0]);
        StrLeAntisymmetric(a[0], b[0]);
      }
      assert multiset(a[1..]) == multiset(b[1..]) by {
        TailMultiset(a);
        TailMultiset(b);
      }
      SortedUnique(a[1..], b[1..]);
      assert a == [a[0]] + a[1..] && b == [b[0]] + b[1..];
    }
  }

  /** `sorted(xs)` depends on `xs` only as a multiset: the input order is irrelevant. */
  lemma SortIgnoresOrder(xs: seq<string>, ys: seq<string>)
    requires multiset(xs) == multiset(ys)
    ensures SortStrings(xs) == SortStrings(ys)
  {
    SortedUnique(SortStrings(xs), SortStrings(ys));
  }

  /** Sorting a list that is already sorted leaves it as it is. */
  lemma SortSortedIsIdentity(xs: seq<string>)
    requires Sorted(xs)
    ensures SortStrings(xs) == xs
  {
    SortedUnique(SortStrings(xs), xs);
  }
}
