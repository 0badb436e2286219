/** `itertools.combinations`: the k-element selections of a sequence, each in the
    order its elements have in the input, listed in the library's order. */
module Combinations {
  import opened Sorting

  /** `c` is obtained from `s` by deleting elements, keeping the order. */
  predicate IsSubseq<T(==)>(c: seq<T>, s: seq<T>)
    decreases |s|
  {
    if |c| == 0 then true
    else if |s| == 0 then false
    else (c[0] == s[0] && IsSubseq(c[1..], s[1..])) || IsSubseq(c, s[1..])
  }

  /** Binomial coefficient, by Pascal's rule. */
  function Choose(n: nat, k: nat): nat {
    if k == 0 then 1
    else if n == 0 then 0
    else Choose(n - 1, k - 1) + Choose(n - 1, k)
  }

  function Prepend<T>(x: T, cs: seq<seq<T>>): (r: seq<seq<T>>)
    ensures |r| == |cs|
    ensures forall i :: 0 <= i < |r| ==> r[i] == [x] + cs[i]
  {
    seq(|cs|, i requires 0 <= i < |cs| => [x] + cs[i])
  }

  /** Putting `s[0]` in front of selections from `s[1..]` gives selections
      from `s`, one element longer. */
  lemma PrependSubseqs<T>(s: seq<T>, cs: seq<seq<T>>, k: nat)
    requires |s| > 0
    requires forall c :: c in cs ==> |c| == k && IsSubseq(c, s[1..])
    ensures forall c :: c in Prepend(s[0], cs) ==> |c| == k + 1 && IsSubseq(c, s)
  {
    var with := Prepend(s[0], cs);
    forall c | c in with
      ensures |c| == k + 1 && IsSubseq(c, s)
    {
      var i :| 0 <= i < |with| && with[i] == c;
      assert c[0] == s[0] && c[1..] == cs[i];
    }
  }

  /** The selections of `k` elements of `s`: first those that take `s[0]`, then
      those that skip it, which is the order `itertools.combinations` emits. */
  function Combos<T(==)>(s: seq<T>, k: nat): (r: seq<seq<T>>)
    ensures forall c :: c in r ==> |c| == k && IsSubseq(c, s)
    ensures |r| == Choose(|s|, k)
    decreases |s|
  {
    if k == 0 then [[]]
    else if |s| == 0 then []
    else
      var with := Prepend(s[0], Combos(s[1..], k - 1));
      var without := Combos(s[1..], k);
      PrependSubseqs(s, Combos(s[1..], k - 1), k - 1);
      with + without
  }

  /** Every order-preserving selection of `k` elements is among `Combos(s, k)`. */
  lemma {:induction false} CombosComplete<T>(s: seq<T>, k: nat, c: seq<T>)
    requires |c| == k && IsSubseq(c, s)
    ensures c in Combos(s, k)
    decreases |s|
  {
    if k == 0 {
      assert c == [];
    } else if c[0] == s[0] && IsSubseq(c[1..], s[1..]) {
      CombosComplete(s[1..], k - 1, c[1..]);
      TakeFirstIn(s, k, c);
    } else {
      CombosComplete(s[1..], k, c);
      SkipFirstIn(s, k, c);
    }
  }

  /** A selection starting with `s[0]` whose rest is a selection of `s[1..]`. */
  lemma TakeFirstIn<T>(s: seq<T>, k: nat, c: seq<T>)
    requires k > 0 && |s| > 0 && |c| == k && c[0] == s[0]
    requires c[1..] in Combos(s[1..], k - 1)
    ensures c in Combos(s, k)
  {
    var rest := Combos(s[1..], k - 1);
    var with := Prepend(s[0], rest);
    CombosStep(s, k);
    var i :| 0 <= i < |rest| && rest[i] == c[1..];
    assert c == [c[0]] + c[1..];
    assert with[i] == c;
  }

  /** A selection of `s[1..]` is a selection of `s`. */
  lemma SkipFirstIn<T>(s: seq<T>, k: nat, c: seq<T>)
    requires k > 0 && |s| > 0
    requires c in Combos(s[1..], k)
    ensures c in Combos(s, k)
  {
    CombosStep(s, k);
  }

  /** One unfolding of `Combos`. */
  lemma CombosStep<T>(s: seq<T>, k: nat)
    requires k > 0 && |s| > 0
    ensures Combos(s, k) == Prepend(s[0], Combos(s[1..], k - 1)) + Combos(s[1..], k)
  {
  }

  /** A selection only holds elements of the sequence. */
  lemma {:induction false} SubseqElems<T>(c: seq<T>, s: seq<T>, x: T)
    requires IsSubseq(c, s) && x in c
    ensures x in s
    decreases |s|
  {
    if c[0] == s[0] && IsSubseq(c[1..], s[1..]) {
      if x != c[0] {
        assert x in c[1..];
        SubseqElems(c[1..], s[1..], x);
      }
    } else {
      SubseqElems(c, s[1..], x);
    }
  }

  /** A selection from a duplicate-free sequence is duplicate-free. */
  lemma {:induction false} SubseqDistinct<T>(c: seq<T>, s: seq<T>)
    requires IsSubseq(c, s) && Distinct(s)
    ensures Distinct(c)
    decreases |s|
  {
    if |c| > 0 {
      if c[0] == s[0] && IsSubseq(c[1..], s[1..]) {
        SubseqDistinct(c[1..], s[1..]);
        forall j | 0 < j < |c| ensures c[0] != c[j] {
          assert c[j] in c[1..];
          SubseqElems(c[1..], s[1..], c[j]);
        }
      } else {
        SubseqDistinct(c, s[1..]);
      }
    }
  }

  /** A single element is a selection. */
  lemma {:induction false} SubseqOne<T>(s: seq<T>, j: nat)
    requires j < |s|
    ensures IsSubseq([s[j]], s)
    decreases j
  {
    if j > 0 {
      SubseqOne(s[1..], j - 1);
      assert s[1..][j - 1] == s[j];
    }
  }

  /** Two elements, in their order in `s`, are a selection. */
  lemma {:induction false} SubseqPair<T>(s: seq<T>, i: nat, j: nat)
    requires i < j < |s|
    ensures IsSubseq([s[i], s[j]], s)
    decreases i
  {
    if i == 0 {
      SubseqOne(s[1..], j - 1);
      assert [s[i], s[j]][1..] == [s[1..][j - 1]];
    } else {
      SubseqPair(s[1..], i - 1, j - 1);
      assert [s[1..][i - 1], s[1..][j - 1]] == [s[i], s[j]];
    }
  }

  /** An element of the first part followed by one of the second part is a
      selection of the concatenation. */
  lemma {:induction false} SubseqAcross<T>(a: seq<T>, b: seq<T>, x: T, y: T)
    requires x in a && y in b
    ensures IsSubseq([x, y], a + b)
    decreases |a|
  {
    if a[0] == x {
      var j :| 0 <= j < |b| && b[j] == y;
      SubseqOne(a[1..] + b, |a| - 1 + j);
      assert (a + b)[1..] == a[1..] + b;
      assert [x, y][1..] == [(a[1..] + b)[|a| - 1 + j]];
    } else {
      SubseqAcross(a[1..], b, x, y);
      assert (a + b)[1..] == a[1..] + b;
    }
  }
}
