/** Stable sorting as Python's `sorted(..., key=...)` / `list.sort(key=...)` and
    JavaScript's `Array.prototype.sort` perform it, plus sorting of distinct
    strings and a few facts about duplicate-free sequences. */
module Sorting {
  import opened Wrappers
  import opened Text

  /** No element occurs twice. */
  predicate Distinct<T(==)>(s: seq<T>) {
    forall i, j :: 0 <= i < j < |s| ==> s[i] != s[j]
  }

  /** The set of elements of a sequence. */
  function Elems<T>(s: seq<T>): set<T> {
    set x | x in s
  }

  /** Ascending by `key`. */
  predicate SortedBy<T>(s: seq<T>, key: T -> real) {
    forall i, j :: 0 <= i < j < |s| ==> key(s[i]) <= key(s[j])
  }

  /** The elements whose key is `v`, in their order in `s`. Stability of a sort
      means this subsequence is the same before and after sorting. */
  function WithKey<T>(s: seq<T>, key: T -> real, v: real): seq<T> {
    if |s| == 0 then []
    else (if key(s[0]) == v then [s[0]] else []) + WithKey(s[1..], key, v)
  }

  /** Puts `x` in front of the first element whose key is not below its own. */
  function Insert<T>(x: T, s: seq<T>, key: T -> real): (r: seq<T>)
    requires SortedBy(s, key)
    ensures SortedBy(r, key)
    ensures multiset(r) == multiset(s) + multiset{x}
    ensures |r| == |s| + 1
  {
    if |s| == 0 then [x]
    else if key(x) <= key(s[0]) then [x] + s
    else
      var t := Insert(x, s[1..], key);
      assert s == [s[0]] + s[1..];
      AboveAfterAdd(t, s[1..], x, key, key(s[0]));
      [s[0]] + t
  }

  /** Adding an element no smaller than `lo` to elements no smaller than `lo`
      gives, in any order, elements no smaller than `lo`. */
  lemma AboveAfterAdd<T>(t: seq<T>, s: seq<T>, x: T, key: T -> real, lo: real)
    requires multiset(t) == multiset(s) + multiset{x}
    requires lo <= key(x) && forall i :: 0 <= i < |s| ==> lo <= key(s[i])
    ensures forall i :: 0 <= i < |t| ==> lo <= key(t[i])
  {
    forall i | 0 <= i < |t|
      ensures lo <= key(t[i])
    {
      assert t[i] in multiset(t);
      if t[i] != x {
        assert t[i] in multiset(s);
        var j :| 0 <= j < |s| && s[j] == t[i];
      }
    }
  }

  /** Insertion sort: ascending by key, a permutation of the input. */
  function SortBy<T>(s: seq<T>, key: T -> real): (r: seq<T>)
    ensures SortedBy(r, key)
    ensures multiset(r) == multiset(s)
    ensures |r| == |s|
  {
    if |s| == 0 then []
    else
      assert s == [s[0]] + s[1..];
      Insert(s[0], SortBy(s[1..], key), key)
  }

  lemma {:induction false} InsertWithKey<T>(x: T, s: seq<T>, key: T -> real, v: real)
    requires SortedBy(s, key)
    ensures WithKey(Insert(x, s, key), key, v) == (if key(x) == v then [x] else []) + WithKey(s, key, v)
    decreases |s|
  {
    var hx: seq<T> := if key(x) == v then [x] else [];
    if |s| == 0 {
      assert WithKey([x], key, v) == hx + WithKey([], key, v);
    } else if key(x) <= key(s[0]) {
      assert Insert(x, s, key) == [x] + s;
      assert ([x] + s)[1..] == s;
    } else {
      var t := Insert(x, s[1..], key);
      assert Insert(x, s, key) == [s[0]] + t;
      InsertWithKey(x, s[1..], key, v);
      var h0: seq<T> := if key(s[0]) == v then [s[0]] else [];
      WithKeyCons(s[0], t, key, v);
      // every element in front of the insertion point has a smaller key
      assert key(x) == v ==> h0 == [];
      SwapFront(h0, hx, WithKey(s[1..], key, v));
    }
  }

  lemma WithKeyCons<T>(a: T, t: seq<T>, key: T -> real, v: real)
    ensures WithKey([a] + t, key, v) == (if key(a) == v then [a] else []) + WithKey(t, key, v)
  {
    assert ([a] + t)[1..] == t;
  }

  /** Two fronts of which at most one is non-empty commute. */
  lemma SwapFront<T>(h0: seq<T>, hx: seq<T>, w: seq<T>)
    requires h0 == [] || hx == []
    ensures h0 + (hx + w) == hx + (h0 + w)
  {
  }

  /** `SortBy` is stable: among elements with equal keys the input order is kept. */
  lemma {:induction false} SortByStable<T>(s: seq<T>, key: T -> real, v: real)
    ensures WithKey(SortBy(s, key), key, v) == WithKey(s, key, v)
    decreases |s|
  {
    if |s| > 0 {
      SortByStable(s[1..], key, v);
      InsertWithKey(s[0], SortBy(s[1..], key), key, v);
    }
  }

  /** Sorting a sequence that is already in key order changes nothing. */
  lemma {:induction false} SortBySorted<T>(s: seq<T>, key: T -> real)
    requires SortedBy(s, key)
    ensures SortBy(s, key) == s
    decreases |s|
  {
    if |s| > 0 {
      SortBySorted(s[1..], key);
      assert s == [s[0]] + s[1..];
    }
  }

  // ---------------------------------------------------------------------------
  // Duplicate-free sequences and multisets
  // ---------------------------------------------------------------------------

  lemma {:induction false} DistinctCount<T>(s: seq<T>, x: T)
    requires Distinct(s)
    ensures multiset(s)[x] <= 1
    decreases |s|
  {
    if |s| > 0 {
      DistinctCount(s[1..], x);
      assert s == [s[0]] + s[1..];
      if s[0] == x {
        assert x !in s[1..];
      }
    }
  }

  /** A permutation of a duplicate-free sequence is duplicate-free. */
  lemma DistinctPermutation<T>(a: seq<T>, b: seq<T>)
    requires Distinct(a) && multiset(a) == multiset(b)
    ensures Distinct(b)
  {
    forall i, j | 0 <= i < j < |b| ensures b[i] != b[j] {
      if b[i] == b[j] {
        var x := b[i];
        assert b == b[..j] + b[j..];
        assert x in b[..j];
        assert x in b[j..];
        assert multiset(b)[x] == multiset(b[..j])[x] + multiset(b[j..])[x];
        DistinctCount(a, x);
      }
    }
  }

  /** Two duplicate-free sequences with no common element concatenate to a
      duplicate-free sequence. */
  lemma DistinctAppend<T>(a: seq<T>, b: seq<T>)
    requires Distinct(a) && Distinct(b)
    requires forall x :: x in a ==> x !in b
    ensures Distinct(a + b)
  {
    forall i, j | 0 <= i < j < |a + b| ensures (a + b)[i] != (a + b)[j] {
      if i < |a| && j >= |a| {
        assert (a + b)[i] in a;
        assert (a + b)[j] == b[j - |a|];
      }
    }
  }

  // ---------------------------------------------------------------------------
  // Filtering (`Array.prototype.filter`, list comprehensions with `if`)
  // ---------------------------------------------------------------------------

  /** The elements satisfying `p`, in their order in `s`. */
  function Filter<T(!new)>(s: seq<T>, p: T -> bool): (r: seq<T>)
    ensures |r| <= |s|
    ensures forall x :: x in r <==> x in s && p(x)
    ensures Distinct(s) ==> Distinct(r)
    decreases |s|
  {
    if |s| == 0 then []
    else
      var rest := Filter(s[1..], p);
      if p(s[0]) then
        assert Distinct(s) ==> s[0] !in s[1..];
        [s[0]] + rest
      else rest
  }

  /** Filtering a sequence with one more element at the end. */
  lemma {:induction false} FilterSnoc<T(!new)>(s: seq<T>, x: T, p: T -> bool)
    ensures Filter(s + [x], p) == Filter(s, p) + (if p(x) then [x] else [])
    decreases |s|
  {
    if |s| > 0 {
      FilterSnoc(s[1..], x, p);
      assert (s + [x])[1..] == s[1..] + [x];
    }
  }

  /** Filtering with a test that every element passes keeps the sequence. */
  lemma {:induction false} FilterAll<T(!new)>(s: seq<T>, p: T -> bool)
    requires forall x :: x in s ==> p(x)
    ensures Filter(s, p) == s
    decreases |s|
  {
    if |s| > 0 {
      FilterAll(s[1..], p);
      assert s == [s[0]] + s[1..];
    }
  }

  // ---------------------------------------------------------------------------
  // Mapping with a filter (`list.map(f).filter(Boolean)`, a loop that pushes
  // only the records it can convert)
  // ---------------------------------------------------------------------------

  /** Strictly increasing positions. */
  predicate Ascending(idx: seq<nat>) {
    forall i, j :: 0 <= i < j < |idx| ==> idx[i] < idx[j]
  }

  /** Every position one place on. */
  function ShiftUp(idx: seq<nat>): (r: seq<nat>)
    ensures |r| == |idx| && forall k :: 0 <= k < |r| ==> r[k] == idx[k] + 1
  {
    seq(|idx|, k requires 0 <= k < |idx| => idx[k] + 1)
  }

  /** The positions of `s` at which `f` gives a value, in increasing order:
      every such position, and no other. */
  function KeptIndices<T, U>(s: seq<T>, f: T -> Option<U>): (idx: seq<nat>)
    ensures Ascending(idx)
    ensures forall k :: 0 <= k < |idx| ==> idx[k] < |s| && f(s[idx[k]]).Some?
    ensures forall i :: 0 <= i < |s| && f(s[i]).Some? ==> i in idx
    decreases |s|
  {
    if |s| == 0 then []
    else
      var inner := KeptIndices(s[1..], f);
      var rest := ShiftUp(inner);
      var idx := if f(s[0]).Some? then [0] + rest else rest;
      KeptIndicesStep(s, f, inner, rest, idx);
      idx
  }

  /** The head's position, when `f` keeps it, in front of the tail's kept
      positions moved one place on: the kept positions of the whole. */
  lemma KeptIndicesStep<T, U>(s: seq<T>, f: T -> Option<U>, inner: seq<nat>, rest: seq<nat>, idx: seq<nat>)
    requires |s| > 0
    requires Ascending(inner)
    requires forall k :: 0 <= k < |inner| ==> inner[k] < |s| - 1 && f(s[1..][inner[k]]).Some?
    requires forall i :: 0 <= i < |s| - 1 && f(s[1..][i]).Some? ==> i in inner
    requires |rest| == |inner| && forall k :: 0 <= k < |rest| ==> rest[k] == inner[k] + 1
    requires idx == if f(s[0]).Some? then [0] + rest else rest
    ensures Ascending(idx)
    ensures forall k :: 0 <= k < |idx| ==> idx[k] < |s| && f(s[idx[k]]).Some?
    ensures forall i :: 0 <= i < |s| && f(s[i]).Some? ==> i in idx
  {
    ShiftedKept(s, f, inner, rest);
    if f(s[0]).Some? {
      forall k | 0 <= k < |idx|
        ensures idx[k] < |s| && f(s[idx[k]]).Some?
      {
        if k > 0 {
          assert idx[k] == rest[k - 1];
        }
      }
    }
  }

  /** The positions kept in the tail, moved one place on, are the positions
      kept in the whole sequence after its head. */
  lemma ShiftedKept<T, U>(s: seq<T>, f: T -> Option<U>, inner: seq<nat>, rest: seq<nat>)
    requires |s| > 0
    requires Ascending(inner)
    requires forall k :: 0 <= k < |inner| ==> inner[k] < |s| - 1 && f(s[1..][inner[k]]).Some?
    requires forall i :: 0 <= i < |s| - 1 && f(s[1..][i]).Some? ==> i in inner
    requires |rest| == |inner| && forall k :: 0 <= k < |rest| ==> rest[k] == inner[k] + 1
    ensures Ascending(rest) && Ascending([0] + rest)
    ensures forall k :: 0 <= k < |rest| ==> 0 < rest[k] < |s| && f(s[rest[k]]).Some?
    ensures forall i :: 0 < i < |s| && f(s[i]).Some? ==> i in rest
  {
    ShiftedAscending(inner, rest);
    forall k | 0 <= k < |rest|
      ensures 0 < rest[k] < |s| && f(s[rest[k]]).Some?
    {
      assert s[rest[k]] == s[1..][inner[k]];
    }
    forall i | 0 < i < |s| && f(s[i]).Some?
      ensures i in rest
    {
      ShiftedHas(s, f, inner, rest, i);
    }
  }

  lemma ShiftedAscending(inner: seq<nat>, rest: seq<nat>)
    requires Ascending(inner)
    requires |rest| == |inner| && forall k :: 0 <= k < |rest| ==> rest[k] == inner[k] + 1
    ensures Ascending(rest) && Ascending([0] + rest)
  {
    var r := [0] + rest;
    forall i, j | 0 <= i < j < |r|
      ensures r[i] < r[j]
    {
      assert r[j] == rest[j - 1];
      if i > 0 {
        assert r[i] == rest[i - 1];
      }
    }
  }

  lemma ShiftedHas<T, U>(s: seq<T>, f: T -> Option<U>, inner: seq<nat>, rest: seq<nat>, i: nat)
    requires 0 < i < |s| && f(s[i]).Some?
    requires forall i :: 0 <= i < |s| - 1 && f(s[1..][i]).Some? ==> i in inner
    requires |rest| == |inner| && forall k :: 0 <= k < |rest| ==> rest[k] == inner[k] + 1
    ensures i in rest
  {
    assert s[1..][i - 1] == s[i];
    var k :| 0 <= k < |inner| && inner[k] == i - 1;
    assert rest[k] == i;
  }

  /** `r` is `f` applied at the kept positions of `s`, in their order: the
      values `f` gives, in order, without the records it drops. */
  ghost predicate MapsKept<T, U>(s: seq<T>, f: T -> Option<U>, r: seq<U>) {
    var idx := KeptIndices(s, f);
    |r| == |idx| && forall k :: 0 <= k < |r| ==> Some(r[k]) == f(s[idx[k]])
  }

  /** A filter-map of the tail, with the head's value in front when it has
      one, is a filter-map of the whole sequence. */
  lemma ConsKept<T, U>(s: seq<T>, f: T -> Option<U>, rest: seq<U>)
    requires |s| > 0 && MapsKept(s[1..], f, rest)
    ensures MapsKept(s, f, if f(s[0]).Some? then [f(s[0]).value] + rest else rest)
  {
    if f(s[0]).Some? {
      ConsKeptSome(s, f, rest);
    } else {
      ConsKeptNone(s, f, rest);
    }
  }

  lemma ConsKeptSome<T, U>(s: seq<T>, f: T -> Option<U>, rest: seq<U>)
    requires |s| > 0 && f(s[0]).Some? && MapsKept(s[1..], f, rest)
    ensures MapsKept(s, f, [f(s[0]).value] + rest)
  {
    var inner := KeptIndices(s[1..], f);
    assert KeptIndices(s, f) == [0] + ShiftUp(inner);
    PrependAt(s, f, rest, inner, 1);
  }

  lemma ConsKeptNone<T, U>(s: seq<T>, f: T -> Option<U>, rest: seq<U>)
    requires |s| > 0 && f(s[0]).None? && MapsKept(s[1..], f, rest)
    ensures MapsKept(s, f, rest)
  {
    var inner := KeptIndices(s[1..], f);
    assert KeptIndices(s, f) == ShiftUp(inner);
    PrependAt(s, f, rest, inner, 0);
  }

  /** A filter-map holds exactly the values `f` gives somewhere in `s`. */
  lemma MapsKeptMembers<T, U>(s: seq<T>, f: T -> Option<U>, r: seq<U>)
    requires MapsKept(s, f, r)
    ensures forall x :: x in r <==> exists i :: 0 <= i < |s| && f(s[i]) == Some(x)
  {
    var idx := KeptIndices(s, f);
    forall x | x in r
      ensures exists i :: 0 <= i < |s| && f(s[i]) == Some(x)
    {
      var k :| 0 <= k < |r| && r[k] == x;
      assert f(s[idx[k]]) == Some(x);
    }
    forall x | exists i :: 0 <= i < |s| && f(s[i]) == Some(x)
      ensures x in r
    {
      var i :| 0 <= i < |s| && f(s[i]) == Some(x);
      assert i in idx;
      var k :| 0 <= k < |idx| && idx[k] == i;
      assert Some(r[k]) == Some(x);
    }
  }

  /** One step of a filter-map: the tail's values with the head's value in
      front, when it has one, are the filter-map of the whole sequence, and
      hold exactly the values `f` gives somewhere in it. */
  lemma KeptStep<T, U>(s: seq<T>, f: T -> Option<U>, rest: seq<U>)
    requires |s| > 0 && MapsKept(s[1..], f, rest)
    ensures var r := if f(s[0]).Some? then [f(s[0]).value] + rest else rest;
            MapsKept(s, f, r) && forall x :: x in r <==> exists i :: 0 <= i < |s| && f(s[i]) == Some(x)
  {
    var r := if f(s[0]).Some? then [f(s[0]).value] + rest else rest;
    ConsKept(s, f, rest);
    MapsKeptMembers(s, f, r);
  }

  /** The values at the tail's kept positions, moved one place on, with the
      head's value in front when `keep` is 1. */
  lemma PrependAt<T, U>(s: seq<T>, f: T -> Option<U>, rest: seq<U>, inner: seq<nat>, keep: nat)
    requires |s| > 0 && keep <= 1 && (keep == 1 ==> f(s[0]).Some?)
    requires |rest| == |inner|
    requires forall k :: 0 <= k < |rest| ==> inner[k] < |s| - 1 && Some(rest[k]) == f(s[1..][inner[k]])
    ensures var r := if keep == 1 then [f(s[0]).value] + rest else rest;
            var idx := if keep == 1 then [0] + ShiftUp(inner) else ShiftUp(inner);
            |r| == |idx| && forall k :: 0 <= k < |r| ==> Some(r[k]) == f(s[idx[k]])
  {
    var r := if keep == 1 then [f(s[0]).value] + rest else rest;
    var up := ShiftUp(inner);
    var idx := if keep == 1 then [0] + up else up;
    forall k | 0 <= k < |r|
      ensures Some(r[k]) == f(s[idx[k]])
    {
      if k >= keep {
        var j := k - keep;
        assert r[k] == rest[j] && idx[k] == up[j];
        assert s[up[j]] == s[1..][inner[j]];
      }
    }
  }

  /** `slice(0, n)`: the first `n` elements, or all when there are fewer. */
  function Take<T>(s: seq<T>, n: nat): (r: seq<T>)
    ensures |r| == if |s| < n then |s| else n
    ensures r == s[..|r|]
  {
    if |s| < n then s else s[..n]
  }

  /** The first `n` of a sorted copy are sorted and come from the original. */
  lemma TopOfSorted<T>(s: seq<T>, key: T -> real, n: nat)
    ensures SortedBy(Take(SortBy(s, key), n), key)
    ensures forall x :: x in Take(SortBy(s, key), n) ==> x in s
  {
    var sorted := SortBy(s, key);
    var top := Take(sorted, n);
    forall x | x in top ensures x in s {
      assert x in multiset(sorted);
    }
  }

  /** The head of a sorted sequence holds its smallest keys: an element left
      out is preceded by `n` kept ones, none with a larger key. */
  lemma TakeTightest<T>(s: seq<T>, key: T -> real, n: nat, x: T)
    requires SortedBy(s, key) && x in s
    ensures x !in Take(s, n) ==> |Take(s, n)| == n
    ensures x !in Take(s, n) ==> forall y :: y in Take(s, n) ==> key(y) <= key(x)
  {
    var top := Take(s, n);
    if x !in top {
      var i :| 0 <= i < |s| && s[i] == x;
      assert i >= |top|;
      forall y | y in top ensures key(y) <= key(x) {
        var j :| 0 <= j < |top| && top[j] == y;
        assert s[j] == y;
      }
    }
  }

  // ---------------------------------------------------------------------------
  // Sorting distinct strings (Python's `sorted` on keys)
  // ---------------------------------------------------------------------------

  /** Strictly increasing in lexicographic order. */
  predicate StrictlySorted(s: seq<string>) {
    forall i, j :: 0 <= i < j < |s| ==> LexLess(s[i], s[j])
  }

  function InsertString(x: string, s: seq<string>): (r: seq<string>)
    requires StrictlySorted(s) && x !in s
    ensures StrictlySorted(r)
    ensures multiset(r) == multiset(s) + multiset{x}
    ensures |r| == |s| + 1
  {
    if |s| == 0 then [x]
    else if LexLess(x, s[0]) then
      assert forall j :: 0 < j < |s| ==> LexLess(x, s[j]) by {
        forall j | 0 < j < |s| ensures LexLess(x, s[j]) { LexTransitive(x, s[0], s[j]); }
      }
      [x] + s
    else
      LexTotal(x, s[0]);
      var t := InsertString(x, s[1..]);
      assert s == [s[0]] + s[1..];
      forall k | 0 <= k < |t| ensures LexLess(s[0], t[k]) {
        assert t[k] in multiset(t);
        if t[k] != x {
          assert t[k] in multiset(s[1..]);
          assert t[k] in s[1..];
        }
      }
      [s[0]] + t
  }

  /** `sorted(xs)` for distinct strings: the same strings, strictly increasing. */
  function SortStrings(s: seq<string>): (r: seq<string>)
    requires Distinct(s)
    ensures StrictlySorted(r)
    ensures multiset(r) == multiset(s)
    ensures |r| == |s|
    ensures Elems(r) == Elems(s)
  {
    if |s| == 0 then []
    else
      var t := SortStrings(s[1..]);
      assert s[0] !in s[1..];
      assert s[0] !in t by { assert s[0] !in multiset(s[1..]); }
      assert s == [s[0]] + s[1..];
      var r := InsertString(s[0], t);
      assert forall x :: x in r <==> x in s by {
        forall x ensures x in r <==> x in s {
          assert x in r <==> x in multiset(r);
          assert x in s <==> x in multiset(s);
        }
      }
      r
  }

  /** A strictly increasing sequence has no duplicates. */
  lemma StrictlySortedDistinct(s: seq<string>)
    requires StrictlySorted(s)
    ensures Distinct(s)
  {
    forall i, j | 0 <= i < j < |s| ensures s[i] != s[j] {
      LexIrreflexive(s[i]);
    }
  }

  /** Two strictly sorted sequences with the same elements are equal: `sorted`
      of a set does not depend on the order it was given in. */
  lemma {:induction false} StrictlySortedUnique(a: seq<string>, b: seq<string>)
    requires StrictlySorted(a) && StrictlySorted(b)
    requires Elems(a) == Elems(b)
    ensures a == b
    decreases |a| + |b|
  {
    if |a| > 0 {
      assert a[0] in Elems(a);
    }
    if |b| > 0 {
      assert b[0] in Elems(b);
    }
    if |a| > 0 && |b| > 0 {
      assert a[0] in Elems(b);
      assert b[0] in Elems(a);
      if a[0] != b[0] {
        var i :| 0 <= i < |b| && b[i] == a[0];
        var j :| 0 <= j < |a| && a[j] == b[0];
        LexAsymmetric(a[0], b[0]);
      }
      forall x | x in a[1..] ensures x in b[1..] {
        assert x in Elems(b);
        LexIrreflexive(a[0]);
      }
      forall x | x in b[1..] ensures x in a[1..] {
        assert x in Elems(a);
        LexIrreflexive(b[0]);
      }
      assert Elems(a[1..]) == Elems(b[1..]);
      StrictlySortedUnique(a[1..], b[1..]);
      assert a == [a[0]] + a[1..] && b == [b[0]] + b[1..];
    }
  }

  // ---------------------------------------------------------------------------
  // Sets of strings
  // ---------------------------------------------------------------------------

  /** Sequences with the same multiset have the same elements. */
  lemma MultisetElems<T>(a: seq<T>, b: seq<T>)
    requires multiset(a) == multiset(b)
    ensures Elems(a) == Elems(b)
  {
    forall x ensures x in a <==> x in b {
      assert x in a <==> x in multiset(a);
      assert x in b <==> x in multiset(b);
    }
  }

  /** The first occurrence of each element, in order. */
  function Dedupe<T(==)>(s: seq<T>): (r: seq<T>)
    ensures Distinct(r)
    ensures Elems(r) == Elems(s)
    ensures |r| <= |s|
  {
    if |s| == 0 then []
    else
      var init := s[..|s| - 1];
      var r := Dedupe(init);
      assert s == init + [s[|s| - 1]];
      assert Elems(s) == Elems(init) + {s[|s| - 1]};
      if s[|s| - 1] in r then
        assert s[|s| - 1] in Elems(r);
        r
      else
        assert Elems(r + [s[|s| - 1]]) == Elems(r) + {s[|s| - 1]};
        r + [s[|s| - 1]]
  }

  /** `sorted(set(xs))`: each string once, in increasing order. */
  function SortedSet(s: seq<string>): (r: seq<string>)
    ensures StrictlySorted(r)
    ensures Elems(r) == Elems(s)
    ensures Distinct(r)
  {
    var r := SortStrings(Dedupe(s));
    StrictlySortedDistinct(r);
    r
  }
}
