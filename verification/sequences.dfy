/**
 Order-preserving sequence operations shared by the quarterly transform and the
 screenshot grouping: `Array.prototype.filter`, `Array.prototype.find` and the
 insertion-ordered de-duplication performed by `new Set(...)`.
 */
module Sequences {
  import opened Wrappers

  /** Number of elements of `s` satisfying `p`. */
  function Count<T>(s: seq<T>, p: T -> bool): nat
  {
    if s == [] then 0 else (if p(s[0]) then 1 else 0) + Count(s[1..], p)
  }

  /** `r` can be obtained from `s` by deleting elements: same relative order. */
  ghost predicate IsSubsequence<T>(r: seq<T>, s: seq<T>)
    decreases |s|
  {
    if r == [] then true
    else if s == [] then false
    else (r[0] == s[0] && IsSubsequence(r[1..], s[1..])) || IsSubsequence(r, s[1..])
  }

  /** `r` is the selection of the elements of `s` satisfying `p`, in their original order. */
  ghost predicate Selects<T>(r: seq<T>, s: seq<T>, p: T -> bool)
  {
    && IsSubsequence(r, s)
    && (forall i :: 0 <= i < |r| ==> p(r[i]))
    && |r| == Count(s, p)
  }

  /** `Array.prototype.filter`. */
  function Filter<T>(s: seq<T>, p: T -> bool): (r: seq<T>)
    ensures forall i :: 0 <= i < |r| ==> r[i] in s && p(r[i])
  {
    if s == [] then []
    else if p(s[0]) then [s[0]] + Filter(s[1..], p)
    else Filter(s[1..], p)
  }

  /** `Filter` keeps every `p`-element of `s`, in order: it is a selection of them. */
  lemma {:induction false} FilterSelects<T>(s: seq<T>, p: T -> bool)
    ensures Selects(Filter(s, p), s, p)
    decreases |s|
  {
    if s != [] {
      FilterSelects(s[1..], p);
      var r := Filter(s, p);
      if p(s[0]) {
        assert r[1..] == Filter(s[1..], p);
      } else if r != [] {
        assert IsSubsequence(r, s[1..]);
      }
    }
  }

  /** An element is kept by `Filter` exactly when it occurs in `s` and satisfies `p`. */
  lemma {:induction false} FilterMembership<T>(s: seq<T>, p: T -> bool, x: T)
    ensures x in Filter(s, p) <==> x in s && p(x)
    decreases |s|
  {
    if s != [] {
      FilterMembership(s[1..], p, x);
      assert s == [s[0]] + s[1..];
    }
  }

  /** A subsequence made only of `p`-elements has at most as many elements as `s` has `p`-elements. */
  lemma {:induction false} SubsequenceCountBound<T>(r: seq<T>, s: seq<T>, p: T -> bool)
    requires IsSubsequence(r, s)
    requires forall i :: 0 <= i < |r| ==> p(r[i])
    ensures |r| <= Count(s, p)
    decreases |s|
  {
    if r == [] {
    } else if r[0] == s[0] && IsSubsequence(r[1..], s[1..]) {
      assert r[0] in r;
      forall x | x in r[1..] ensures p(x) {
        assert x in r;
      }
      SubsequenceCountBound(r[1..], s[1..], p);
    } else {
      SubsequenceCountBound(r, s[1..], p);
    }
  }

  /** The contract of `Filter` determines its result: any selection of the `p`-elements of `s` is `Filter(s, p)`. */
  lemma {:induction false} SelectionIsFilter<T>(r: seq<T>, s: seq<T>, p: T -> bool)
    requires Selects(r, s, p)
    ensures r == Filter(s, p)
    decreases |s|
  {
    if s == [] {
    } else if r == [] {
      FilterEmpty(s, p);
    } else {
      forall x | x in r[1..] ensures p(x) {
        assert x in r;
      }
      if r[0] == s[0] && IsSubsequence(r[1..], s[1..]) {
        assert r[0] in r;
        SelectionIsFilter(r[1..], s[1..], p);
        assert r == [r[0]] + r[1..];
      } else {
        SubsequenceCountBound(r, s[1..], p);
        assert r[0] in r;
        if p(s[0]) {
          assert false;
        }
        SelectionIsFilter(r, s[1..], p);
      }
    }
  }

  /** When no element satisfies `p`, filtering yields nothing. */
  lemma {:induction false} FilterEmpty<T>(s: seq<T>, p: T -> bool)
    requires Count(s, p) == 0
    ensures Filter(s, p) == []
    decreases |s|
  {
    if s != [] {
      FilterEmpty(s[1..], p);
    }
  }

  /** Filtering twice is filtering once by the conjunction. */
  lemma {:induction false} FilterFilter<T>(s: seq<T>, p: T -> bool, q: T -> bool, pq: T -> bool)
    requires forall x :: pq(x) == (p(x) && q(x))
    ensures Filter(Filter(s, p), q) == Filter(s, pq)
    decreases |s|
  {
    if s != [] {
      FilterFilter(s[1..], p, q, pq);
      if p(s[0]) {
        assert Filter(s, p) == [s[0]] + Filter(s[1..], p);
        assert ([s[0]] + Filter(s[1..], p))[1..] == Filter(s[1..], p);
      }
    }
  }

  /** Index of the first element of `s` satisfying `p`, if any (`Array.prototype.findIndex`). */
  function FirstIndex<T>(s: seq<T>, p: T -> bool): (r: Option<nat>)
    ensures r.Some? ==> r.value < |s| && p(s[r.value])
    ensures r.Some? ==> forall j :: 0 <= j < r.value ==> !p(s[j])
    ensures r.None? <==> forall j :: 0 <= j < |s| ==> !p(s[j])
  {
    if s == [] then None
    else if p(s[0]) then Some(0)
    else
      match FirstIndex(s[1..], p)
      case None => None
      case Some(i) => Some(i + 1)
  }

  /** `Array.prototype.find`: the first element satisfying `p`, or `None` (`undefined`). */
  function Find<T>(s: seq<T>, p: T -> bool): (r: Option<T>)
    ensures r.Some? ==> r.value in s && p(r.value)
    ensures r.Some? ==> exists i :: 0 <= i < |s| && s[i] == r.value && p(s[i]) && forall j :: 0 <= j < i ==> !p(s[j])
    ensures r.None? <==> forall i :: 0 <= i < |s| ==> !p(s[i])
  {
    match FirstIndex(s, p)
    case None => None
    case Some(i) => Some(s[i])
  }

  /** Finding among the `p`-elements is finding by the conjunction in the whole sequence. */
  lemma {:induction false} FindAfterFilter<T>(s: seq<T>, p: T -> bool, q: T -> bool, pq: T -> bool)
    requires forall x :: pq(x) == (p(x) && q(x))
    ensures Find(Filter(s, p), q) == Find(s, pq)
    decreases |s|
  {
    if s != [] {
      FindAfterFilter(s[1..], p, q, pq);
      if p(s[0]) {
        var f := Filter(s, p);
        assert f == [s[0]] + Filter(s[1..], p);
        assert f[0] == s[0];
        assert f[1..] == Filter(s[1..], p);
        if !q(s[0]) {
          FirstIndexSkip(f, q);
          FirstIndexSkip(s, pq);
        }
      } else {
        FirstIndexSkip(s, pq);
      }
    }
  }

  /** Skipping a non-matching head does not change which element is found. */
  lemma FirstIndexSkip<T>(s: seq<T>, p: T -> bool)
    requires s != [] && !p(s[0])
    ensures Find(s, p) == Find(s[1..], p)
  {
    match FirstIndex(s[1..], p)
    case None =>
    case Some(i) => assert s[i + 1] == s[1..][i];
  }

  /** No element occurs twice. */
  predicate NoDuplicates<T(==)>(s: seq<T>)
  {
    forall i, j :: 0 <= i < j < |s| ==> s[i] != s[j]
  }

  /** The distinct elements of `s`, each once, in the order of their first occurrences. */
  function Distinct<T(==)>(s: seq<T>): (r: seq<T>)
    ensures forall i :: 0 <= i < |r| ==> r[i] in s
    ensures forall i :: 0 <= i < |s| ==> s[i] in r
    ensures NoDuplicates(r)
    ensures IsSubsequence(r, s)
    decreases |s|
  {
    if s == [] then []
    else
      var rest := Distinct(s[..|s| - 1]);
      var last := s[|s| - 1];
      SubsequenceExtend(rest, s[..|s| - 1], last);
      assert s == s[..|s| - 1] + [last];
      if last in rest then rest else rest + [last]
  }

  /** Some occurrence of `x` in `s` comes before every occurrence of `y`. */
  ghost predicate FirstBefore<T>(s: seq<T>, x: T, y: T)
  {
    exists a :: 0 <= a < |s| && s[a] == x && forall b :: 0 <= b < |s| && s[b] == y ==> a < b
  }

  /** `Distinct` lists the elements in the order of their first occurrences in `s`. */
  lemma {:induction false} DistinctFirstOccurrence<T>(s: seq<T>)
    ensures forall i, j :: 0 <= i < j < |Distinct(s)| ==> FirstBefore(s, Distinct(s)[i], Distinct(s)[j])
    decreases |s|
  {
    if s != [] {
      var init := s[..|s| - 1];
      var last := s[|s| - 1];
      var rest := Distinct(init);
      var r := Distinct(s);
      DistinctFirstOccurrence(init);
      assert s == init + [last];
      forall i, j | 0 <= i < j < |r| ensures FirstBefore(s, r[i], r[j]) {
        if j < |rest| {
          assert r[i] == rest[i] && r[j] == rest[j];
          assert FirstBefore(init, rest[i], rest[j]);
          var a :| 0 <= a < |init| && init[a] == rest[i] && forall b :: 0 <= b < |init| && init[b] == rest[j] ==> a < b;
          assert s[a] == r[i];
          forall b | 0 <= b < |s| && s[b] == r[j] ensures a < b {
            if b == |init| {
              assert rest[j] in rest;
            } else {
              assert init[b] == s[b];
            }
          }
        } else {
          assert r == rest + [last] && r[j] == last && r[i] == rest[i];
          forall k | 0 <= k < |init| ensures init[k] != last && s[k] == init[k] {
            assert init[k] in rest;
          }
          assert rest[i] in init;
          var a :| 0 <= a < |init| && init[a] == rest[i];
          assert s[a] == r[i];
        }
      }
    }
  }

  /** Appending the same element to both sides keeps a subsequence a subsequence; so does appending to `s` only. */
  lemma {:induction false} SubsequenceExtend<T>(r: seq<T>, s: seq<T>, x: T)
    requires IsSubsequence(r, s)
    ensures IsSubsequence(r + [x], s + [x])
    ensures IsSubsequence(r, s + [x])
    decreases |s|
  {
    if r == [] {
      if s == [] {
        assert IsSubsequence((r + [x])[1..], (s + [x])[1..]);
      } else {
        assert (s + [x])[1..] == s[1..] + [x];
        SubsequenceExtend(r, s[1..], x);
      }
    } else {
      assert (s + [x])[1..] == s[1..] + [x];
      assert (r + [x])[1..] == r[1..] + [x];
      if r[0] == s[0] && IsSubsequence(r[1..], s[1..]) {
        SubsequenceExtend(r[1..], s[1..], x);
      } else {
        SubsequenceExtend(r, s[1..], x);
      }
    }
  }

  /** `before` is irreflexive, transitive and orders any two distinct values. */
  ghost predicate StrictTotalOrder<T(!new)>(before: (T, T) -> bool)
  {
    && (forall x :: !before(x, x))
    && (forall x, y, z :: before(x, y) && before(y, z) ==> before(x, z))
    && (forall x, y :: x != y ==> before(x, y) || before(y, x))
  }

  /** `s` is strictly ascending under `before`. */
  predicate SortedBy<T>(s: seq<T>, before: (T, T) -> bool)
  {
    forall i, j :: 0 <= i < j < |s| ==> before(s[i], s[j])
  }

  /** Putting in front an element that precedes every element keeps the order. */
  lemma ConsSorted<T>(h: T, s: seq<T>, before: (T, T) -> bool)
    requires SortedBy(s, before)
    requires forall j :: 0 <= j < |s| ==> before(h, s[j])
    ensures SortedBy([h] + s, before)
  {
    var r := [h] + s;
    forall i, j | 0 <= i < j < |r| ensures before(r[i], r[j]) {
      assert r[j] == s[j - 1];
      if i > 0 {
        assert r[i] == s[i - 1];
      }
    }
  }

  /** Inserts `x` into a sorted sequence at its place. */
  function InsertBy<T(!new)>(x: T, s: seq<T>, before: (T, T) -> bool): (r: seq<T>)
    requires StrictTotalOrder(before)
    requires SortedBy(s, before)
    requires x !in s
    ensures SortedBy(r, before)
    ensures |r| == |s| + 1
    ensures forall y :: y in r <==> y == x || y in s
  {
    if s == [] || before(x, s[0]) then
      ConsSorted(x, s, before);
      [x] + s
    else
      var rest := InsertBy(x, s[1..], before);
      forall j | 0 <= j < |rest| ensures before(s[0], rest[j]) {
        assert rest[j] in rest;
        if rest[j] != x {
          var k :| 0 <= k < |s[1..]| && s[1..][k] == rest[j];
          assert s[k + 1] == rest[j];
        }
      }
      ConsSorted(s[0], rest, before);
      assert s == [s[0]] + s[1..];
      [s[0]] + rest
  }

  /** Sorting distinct values by a strict total order: the same values, ascending. */
  function SortBy<T(!new)>(s: seq<T>, before: (T, T) -> bool): (r: seq<T>)
    requires StrictTotalOrder(before)
    requires NoDuplicates(s)
    ensures SortedBy(r, before)
    ensures |r| == |s|
    ensures forall y :: y in r <==> y in s
  {
    if s == [] then []
    else
      var rest := SortBy(s[1..], before);
      assert s[0] !in s[1..] by {
        forall j | 0 <= j < |s[1..]| ensures s[1..][j] != s[0] {
          assert s[1..][j] == s[j + 1];
        }
      }
      InsertBy(s[0], rest, before)
  }
}
