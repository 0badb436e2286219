/** The six matchers that try every selection of three, four or six keys:
    T-square, grand trine, grand cross, grand sextile, mystic rectangle and
    trapeze. Each reports a key set at most once, and each has a completeness
    lemma: a selection with the shape is reported. */
module Matchers {
  import opened Wrappers
  import opened Sorting
  import opened Combinations
  import opened Tables
  import opened Aspects
  import opened Patterns

  // ---------------------------------------------------------------------------
  // T-square
  // ---------------------------------------------------------------------------

  /** `x` and `y` oppose each other and both square `focal`. */
  function TSquareEdges(x: string, focal: string, y: string): seq<Edge> {
    [Edge(x, y, "opposition"), Edge(x, focal, "square"), Edge(focal, y, "square")]
  }

  /** The roles `(x, focal, y)` the matcher tries on a triple `(a, b, c)`, in
      its order: `(a, b, c)`, `(a, c, b)`, `(b, a, c)`. */
  function Role(c: seq<string>, k: nat): (string, string, string)
    requires |c| == 3 && k < 3
  {
    if k == 0 then (c[0], c[1], c[2])
    else if k == 1 then (c[0], c[2], c[1])
    else (c[1], c[0], c[2])
  }

  predicate TSquareWith(pm: PairMap, c: seq<string>, k: nat)
    requires |c| == 3 && k < 3
  {
    var (x, focal, y) := Role(c, k);
    Holds(pm, TSquareEdges(x, focal, y))
  }

  function TSquareOf(pm: PairMap, c: seq<string>, k: nat): Pattern
    requires |c| == 3 && k < 3 && TSquareWith(pm, c, k)
  {
    var (x, focal, y) := Role(c, k);
    TSquare(SortedSet(c), Links(pm, TSquareEdges(x, focal, y)), focal)
  }

  /** One triple: the first role that fits. */
  function TSquareAt(pm: PairMap, c: seq<string>): (r: Option<Pattern>)
    ensures r.Some? <==> (|c| == 3 && exists k :: 0 <= k < 3 && TSquareWith(pm, c, k))
    ensures r.Some? ==> exists k :: 0 <= k < 3 && TSquareWith(pm, c, k) && r.value == TSquareOf(pm, c, k)
                                    && forall j :: 0 <= j < k ==> !TSquareWith(pm, c, j)
  {
    if |c| != 3 then None
    else if TSquareWith(pm, c, 0) then Some(TSquareOf(pm, c, 0))
    else if TSquareWith(pm, c, 1) then Some(TSquareOf(pm, c, 1))
    else if TSquareWith(pm, c, 2) then Some(TSquareOf(pm, c, 2))
    else None
  }

  /** The properties every reported T-square has: three selected keys in key
      order, and the opposition it lists first together with its focal point
      form the shape. */
  predicate IsTSquareOf(pm: PairMap, keys: seq<string>, p: Pattern) {
    p.TSquare? && |p.points| == 3 && Elems(p.points) <= Elems(keys) && StrictlySorted(p.points)
    && WellFormed(p, pm) && |p.links| == 3 && p.focal in p.points
    && Holds(pm, TSquareEdges(p.links[0].pair.0, p.focal, p.links[0].pair.1))
  }

  lemma TSquareEdgesSwap(pm: PairMap, x: string, focal: string, y: string)
    requires Holds(pm, TSquareEdges(x, focal, y))
    ensures Holds(pm, TSquareEdges(y, focal, x))
  {
    var es := TSquareEdges(x, focal, y);
    assert Has(pm, es[0].a, es[0].b, es[0].kind);
    assert Has(pm, es[1].a, es[1].b, es[1].kind);
    assert Has(pm, es[2].a, es[2].b, es[2].kind);
    HasSymmetric(pm, x, y, "opposition");
    HasSymmetric(pm, x, focal, "square");
    HasSymmetric(pm, focal, y, "square");
  }

  /** The roles are the three points of the triple. */
  lemma RolePoints(c: seq<string>, k: nat)
    requires |c| == 3 && k < 3 && Distinct(c)
    ensures Role(c, k).0 in c && Role(c, k).1 in c && Role(c, k).2 in c
    ensures Role(c, k).0 != Role(c, k).1 && Role(c, k).0 != Role(c, k).2 && Role(c, k).1 != Role(c, k).2
  {
  }

  lemma TSquareOfWellFormed(pm: PairMap, c: seq<string>, k: nat)
    requires |c| == 3 && Distinct(c) && k < 3 && TSquareWith(pm, c, k)
    ensures WellFormed(TSquareOf(pm, c, k), pm)
    ensures TSquareOf(pm, c, k).focal in TSquareOf(pm, c, k).points
  {
    var p := TSquareOf(pm, c, k);
    var r := Role(c, k);
    RolePoints(c, k);
    var es := TSquareEdges(r.0, r.1, r.2);
    assert EdgesWithin(es, c, Kinds(p));
    WellFormedFromEdges(pm, p, es, c);
    assert r.1 in Elems(p.points);
  }

  lemma TSquareOfShape(pm: PairMap, c: seq<string>, k: nat)
    requires |c| == 3 && k < 3 && TSquareWith(pm, c, k)
    ensures |TSquareOf(pm, c, k).links| == 3
    ensures var p := TSquareOf(pm, c, k);
            Holds(pm, TSquareEdges(p.links[0].pair.0, p.focal, p.links[0].pair.1))
  {
    var p := TSquareOf(pm, c, k);
    var (x, focal, y) := Role(c, k);
    assert p.links[0].pair == Canon(x, y);
    if p.links[0].pair != (x, y) {
      TSquareEdgesSwap(pm, x, focal, y);
    }
  }

  lemma TSquareOfProperties(pm: PairMap, keys: seq<string>, c: seq<string>, k: nat)
    requires Distinct(keys) && c in Combos(keys, 3) && k < 3 && TSquareWith(pm, c, k)
    ensures IsTSquareOf(pm, keys, TSquareOf(pm, c, k))
  {
    ComboOfKeys(keys, 3, c);
    SortedSetSize(c);
    TSquareOfWellFormed(pm, c, k);
    TSquareOfShape(pm, c, k);
  }

  /** `_match_t_square`. */
  function TSquares(pm: PairMap, keys: seq<string>): (r: seq<Pattern>)
    requires Distinct(keys)
    ensures forall p :: p in r ==> IsTSquareOf(pm, keys, p)
    ensures forall i, j :: 0 <= i < j < |r| ==> KeySet(r[i]) != KeySet(r[j])
  {
    var r := Scan(Combos(keys, 3), {}, c => TSquareAt(pm, c));
    assert forall p :: p in r ==> IsTSquareOf(pm, keys, p) by {
      forall p | p in r ensures IsTSquareOf(pm, keys, p) {
        var c :| c in Combos(keys, 3) && TSquareAt(pm, c) == Some(p);
        var k :| 0 <= k < 3 && TSquareWith(pm, c, k) && p == TSquareOf(pm, c, k);
        TSquareOfProperties(pm, keys, c, k);
      }
    }
    r
  }

  /** Every three keys, in key order, with one of the three roles fitting are
      reported. */
  lemma TSquaresComplete(pm: PairMap, keys: seq<string>, c: seq<string>, k: nat)
    requires Distinct(keys) && |c| == 3 && IsSubseq(c, keys)
    requires k < 3 && TSquareWith(pm, c, k)
    ensures exists p :: p in TSquares(pm, keys) && KeySet(p) == Elems(c)
  {
    CombosComplete(keys, 3, c);
    ScanComplete(Combos(keys, 3), {}, c => TSquareAt(pm, c), c);
  }

  // ---------------------------------------------------------------------------
  // Grand trine
  // ---------------------------------------------------------------------------

  function TrineEdges(a: string, b: string, c: string): seq<Edge> {
    [Edge(a, b, "trine"), Edge(a, c, "trine"), Edge(b, c, "trine")]
  }

  /** Every two of the points, in their order, are linked by this aspect. */
  predicate AllPairs(pm: PairMap, c: seq<string>, kind: string) {
    forall i, j :: 0 <= i < j < |c| ==> Has(pm, c[i], c[j], kind)
  }

  lemma TrineEdgesAllPairs(pm: PairMap, c: seq<string>)
    requires |c| == 3
    ensures Holds(pm, TrineEdges(c[0], c[1], c[2])) <==> AllPairs(pm, c, "trine")
  {
    var es := TrineEdges(c[0], c[1], c[2]);
    if Holds(pm, es) {
      assert Has(pm, es[0].a, es[0].b, es[0].kind);
      assert Has(pm, es[1].a, es[1].b, es[1].kind);
      assert Has(pm, es[2].a, es[2].b, es[2].kind);
    }
  }

  /** Whether all pairs are linked depends only on which points there are. */
  lemma AllPairsSameElems(pm: PairMap, c: seq<string>, d: seq<string>, kind: string)
    requires AllPairs(pm, c, kind) && Elems(c) == Elems(d) && Distinct(d)
    ensures AllPairs(pm, d, kind)
  {
    forall i, j | 0 <= i < j < |d| ensures Has(pm, d[i], d[j], kind) {
      assert d[i] in Elems(c) && d[j] in Elems(c);
      var a :| 0 <= a < |c| && c[a] == d[i];
      var b :| 0 <= b < |c| && c[b] == d[j];
      if b < a {
        HasSymmetric(pm, d[i], d[j], kind);
      }
    }
  }

  function GrandTrineOf(pm: PairMap, c: seq<string>): Pattern
    requires |c| == 3 && Holds(pm, TrineEdges(c[0], c[1], c[2]))
  {
    GrandTrine(SortedSet(c), Links(pm, TrineEdges(c[0], c[1], c[2])))
  }

  function GrandTrineAt(pm: PairMap, c: seq<string>): (r: Option<Pattern>)
    ensures r.Some? <==> (|c| == 3 && AllPairs(pm, c, "trine"))
    ensures r.Some? ==> (r.value.GrandTrine? && r.value.points == SortedSet(c))
  {
    if |c| != 3 then None
    else
      TrineEdgesAllPairs(pm, c);
      if Holds(pm, TrineEdges(c[0], c[1], c[2])) then Some(GrandTrineOf(pm, c)) else None
  }

  /** The properties every reported grand trine has. */
  predicate IsGrandTrineOf(pm: PairMap, keys: seq<string>, p: Pattern) {
    p.GrandTrine? && |p.points| == 3 && Elems(p.points) <= Elems(keys) && StrictlySorted(p.points)
    && AllPairs(pm, p.points, "trine") && WellFormed(p, pm)
  }

  lemma GrandTrineOfWellFormed(pm: PairMap, c: seq<string>)
    requires |c| == 3 && Distinct(c) && Holds(pm, TrineEdges(c[0], c[1], c[2]))
    ensures WellFormed(GrandTrineOf(pm, c), pm)
  {
    var p := GrandTrineOf(pm, c);
    var es := TrineEdges(c[0], c[1], c[2]);
    assert c[0] != c[1] && c[0] != c[2] && c[1] != c[2];
    assert c[0] in c && c[1] in c && c[2] in c;
    assert EdgesWithin(es, c, Kinds(p));
    WellFormedFromEdges(pm, p, es, c);
  }

  lemma GrandTrineAtProperties(pm: PairMap, keys: seq<string>, c: seq<string>)
    requires Distinct(keys) && c in Combos(keys, 3) && GrandTrineAt(pm, c).Some?
    ensures IsGrandTrineOf(pm, keys, GrandTrineAt(pm, c).value)
  {
    ComboOfKeys(keys, 3, c);
    SortedSetSize(c);
    TrineEdgesAllPairs(pm, c);
    GrandTrineOfWellFormed(pm, c);
    AllPairsSameElems(pm, c, SortedSet(c), "trine");
  }

  /** `_match_grand_trine`. */
  function GrandTrines(pm: PairMap, keys: seq<string>): (r: seq<Pattern>)
    requires Distinct(keys)
    ensures forall p :: p in r ==> IsGrandTrineOf(pm, keys, p)
    ensures forall i, j :: 0 <= i < j < |r| ==> KeySet(r[i]) != KeySet(r[j])
  {
    var r := Scan(Combos(keys, 3), {}, c => GrandTrineAt(pm, c));
    assert forall p :: p in r ==> IsGrandTrineOf(pm, keys, p) by {
      forall p | p in r ensures IsGrandTrineOf(pm, keys, p) {
        var c :| c in Combos(keys, 3) && GrandTrineAt(pm, c) == Some(p);
        GrandTrineAtProperties(pm, keys, c);
      }
    }
    r
  }

  /** Every three keys that are pairwise in trine are reported. */
  lemma GrandTrinesComplete(pm: PairMap, keys: seq<string>, c: seq<string>)
    requires Distinct(keys) && |c| == 3 && IsSubseq(c, keys) && AllPairs(pm, c, "trine")
    ensures exists p :: p in GrandTrines(pm, keys) && KeySet(p) == Elems(c)
  {
    CombosComplete(keys, 3, c);
    ScanComplete(Combos(keys, 3), {}, c => GrandTrineAt(pm, c), c);
  }

  // ---------------------------------------------------------------------------
  // Grand cross
  // ---------------------------------------------------------------------------

  /** Both axes opposed, each end of one square to both ends of the other. */
  function CrossEdges(o1: (string, string), o2: (string, string)): seq<Edge> {
    [Edge(o1.0, o1.1, "opposition"), Edge(o2.0, o2.1, "opposition"),
     Edge(o1.0, o2.0, "square"), Edge(o1.0, o2.1, "square"),
     Edge(o1.1, o2.0, "square"), Edge(o1.1, o2.1, "square")]
  }

  function AxisPoints(axes: ((string, string), (string, string))): set<string> {
    {axes.0.0, axes.0.1, axes.1.0, axes.1.1}
  }

  /** The pairs among `prs` that are oppositions, in order. */
  function OppPairs(pm: PairMap, prs: seq<seq<string>>): (r: seq<seq<string>>)
    requires forall pr :: pr in prs ==> |pr| == 2
    ensures forall pr :: pr in r ==> (pr in prs && Has(pm, pr[0], pr[1], "opposition"))
  {
    if |prs| == 0 then []
    else
      var rest := OppPairs(pm, prs[1..]);
      if Has(pm, prs[0][0], prs[0][1], "opposition") then [prs[0]] + rest else rest
  }

  lemma {:induction false} OppPairsKeepOne(pm: PairMap, prs: seq<seq<string>>, b: seq<string>)
    requires forall pr :: pr in prs ==> |pr| == 2
    requires |b| == 2 && IsSubseq([b], prs) && Has(pm, b[0], b[1], "opposition")
    ensures IsSubseq([b], OppPairs(pm, prs))
    decreases |prs|
  {
    var rest := OppPairs(pm, prs[1..]);
    if b == prs[0] {
      assert OppPairs(pm, prs) == [b] + rest;
      assert [b][1..] == [];
    } else {
      OppPairsKeepOne(pm, prs[1..], b);
      if Has(pm, prs[0][0], prs[0][1], "opposition") {
        assert OppPairs(pm, prs) == [prs[0]] + rest;
        assert ([prs[0]] + rest)[1..] == rest;
      }
    }
  }

  /** Filtering keeps the order of two opposed pairs. */
  lemma {:induction false} OppPairsKeepOrder(pm: PairMap, prs: seq<seq<string>>, a: seq<string>, b: seq<string>)
    requires forall pr :: pr in prs ==> |pr| == 2
    requires |a| == 2 && |b| == 2 && IsSubseq([a, b], prs)
    requires Has(pm, a[0], a[1], "opposition") && Has(pm, b[0], b[1], "opposition")
    ensures IsSubseq([a, b], OppPairs(pm, prs))
    decreases |prs|
  {
    var rest := OppPairs(pm, prs[1..]);
    if a == prs[0] && IsSubseq([a, b][1..], prs[1..]) {
      assert [a, b][1..] == [b];
      OppPairsKeepOne(pm, prs[1..], b);
      assert OppPairs(pm, prs) == [a] + rest;
      assert ([a] + rest)[1..] == rest;
    } else {
      OppPairsKeepOrder(pm, prs[1..], a, b);
      if Has(pm, prs[0][0], prs[0][1], "opposition") {
        assert OppPairs(pm, prs) == [prs[0]] + rest;
        assert ([prs[0]] + rest)[1..] == rest;
      }
    }
  }

  predicate IsPairOfPairs(cd: seq<seq<string>>) {
    |cd| == 2 && |cd[0]| == 2 && |cd[1]| == 2
  }

  function AxesOf(cd: seq<seq<string>>): ((string, string), (string, string))
    requires IsPairOfPairs(cd)
  {
    ((cd[0][0], cd[0][1]), (cd[1][0], cd[1][1]))
  }

  /** The candidates of a quadruple: two of its opposed pairs, in
      `combinations` order. */
  function CrossCandidates(pm: PairMap, c: seq<string>): (cands: seq<seq<seq<string>>>)
    ensures forall i :: 0 <= i < |cands| ==> (IsPairOfPairs(cands[i])
              && Has(pm, cands[i][0][0], cands[i][0][1], "opposition")
              && Has(pm, cands[i][1][0], cands[i][1][1], "opposition"))
  {
    var opps := OppPairs(pm, Combos(c, 2));
    var cands := Combos(opps, 2);
    forall i | 0 <= i < |cands|
      ensures IsPairOfPairs(cands[i])
              && Has(pm, cands[i][0][0], cands[i][0][1], "opposition")
              && Has(pm, cands[i][1][0], cands[i][1][1], "opposition")
    {
      assert cands[i] in cands;
      var cd := cands[i];
      assert cd[0] in cd && cd[1] in cd;
      SubseqElems(cd, opps, cd[0]);
      SubseqElems(cd, opps, cd[1]);
    }
    cands
  }

  /** Four values forming a set of four are pairwise different. */
  lemma FourDistinct<T>(a: T, b: T, c: T, d: T)
    requires |{a, b, c, d}| == 4
    ensures a != b && a != c && a != d && b != c && b != d && c != d
  {
  }

  /** The two opposed pairs cover the quadruple and are square across. */
  predicate CrossFits(pm: PairMap, quad: seq<string>, cd: seq<seq<string>>)
    requires IsPairOfPairs(cd)
  {
    Elems(cd[0]) + Elems(cd[1]) == Elems(quad)
    && Has(pm, cd[0][0], cd[1][0], "square") && Has(pm, cd[0][0], cd[1][1], "square")
    && Has(pm, cd[0][1], cd[1][0], "square") && Has(pm, cd[0][1], cd[1][1], "square")
  }

  /** The first candidate that fits. */
  function FirstCross(pm: PairMap, quad: seq<string>, cands: seq<seq<seq<string>>>): (r: Option<nat>)
    requires forall i :: 0 <= i < |cands| ==> IsPairOfPairs(cands[i])
    ensures r.Some? ==> (r.value < |cands| && CrossFits(pm, quad, cands[r.value]))
    ensures r.Some? ==> forall i :: 0 <= i < r.value ==> !CrossFits(pm, quad, cands[i])
    ensures r.None? ==> forall i :: 0 <= i < |cands| ==> !CrossFits(pm, quad, cands[i])
  {
    if |cands| == 0 then None
    else if CrossFits(pm, quad, cands[0]) then Some(0)
    else match FirstCross(pm, quad, cands[1..])
      case None => None
      case Some(i) => Some(i + 1)
  }

  function CrossOf(pm: PairMap, c: seq<string>, cd: seq<seq<string>>): (p: Pattern)
    requires IsPairOfPairs(cd) && CrossFits(pm, c, cd)
    requires Has(pm, cd[0][0], cd[0][1], "opposition") && Has(pm, cd[1][0], cd[1][1], "opposition")
    ensures p.GrandCross? && p.points == SortedSet(c)
    ensures p.axes == AxesOf(cd) && Holds(pm, CrossEdges(p.axes.0, p.axes.1))
    ensures AxisPoints(p.axes) == Elems(c)
  {
    var axes := AxesOf(cd);
    assert Elems(cd[0]) == {axes.0.0, axes.0.1} by { assert cd[0] == [axes.0.0, axes.0.1]; }
    assert Elems(cd[1]) == {axes.1.0, axes.1.1} by { assert cd[1] == [axes.1.0, axes.1.1]; }
    GrandCross(SortedSet(c), Links(pm, CrossEdges(axes.0, axes.1)), axes)
  }

  /** One quadruple: the first candidate pair of oppositions that fits. */
  function GrandCrossAt(pm: PairMap, c: seq<string>): (r: Option<Pattern>)
    ensures r.Some? ==> (|c| == 4 && exists i :: (0 <= i < |CrossCandidates(pm, c)|
                           && CrossFits(pm, c, CrossCandidates(pm, c)[i])
                           && r.value == CrossOf(pm, c, CrossCandidates(pm, c)[i])))
    ensures (|c| == 4 && r.None?) ==>
              forall i :: 0 <= i < |CrossCandidates(pm, c)| ==> !CrossFits(pm, c, CrossCandidates(pm, c)[i])
  {
    if |c| != 4 then None
    else
      var cands := CrossCandidates(pm, c);
      match FirstCross(pm, c, cands)
      case None => None
      case Some(i) => Some(CrossOf(pm, c, cands[i]))
  }

  /** The properties every reported grand cross has. */
  predicate IsGrandCrossOf(pm: PairMap, keys: seq<string>, p: Pattern) {
    p.GrandCross? && |p.points| == 4 && Elems(p.points) <= Elems(keys) && StrictlySorted(p.points)
    && Holds(pm, CrossEdges(p.axes.0, p.axes.1)) && AxisPoints(p.axes) == Elems(p.points)
    && WellFormed(p, pm)
  }

  lemma CrossEdgesWithin(o1: (string, string), o2: (string, string), c: seq<string>)
    requires o1.0 in c && o1.1 in c && o2.0 in c && o2.1 in c
    requires o1.0 != o1.1 && o1.0 != o2.0 && o1.0 != o2.1 && o1.1 != o2.0 && o1.1 != o2.1 && o2.0 != o2.1
    ensures EdgesWithin(CrossEdges(o1, o2), c, ["opposition", "square"])
  {
  }

  lemma CrossOfWellFormed(pm: PairMap, c: seq<string>, cd: seq<seq<string>>)
    requires |c| == 4 && Distinct(c) && IsPairOfPairs(cd) && CrossFits(pm, c, cd)
    requires Has(pm, cd[0][0], cd[0][1], "opposition") && Has(pm, cd[1][0], cd[1][1], "opposition")
    ensures WellFormed(CrossOf(pm, c, cd), pm)
  {
    var p := CrossOf(pm, c, cd);
    var ax := p.axes;
    DistinctCard(c);
    FourDistinct(ax.0.0, ax.0.1, ax.1.0, ax.1.1);
    assert ax.0.0 in Elems(c) && ax.0.1 in Elems(c) && ax.1.0 in Elems(c) && ax.1.1 in Elems(c);
    CrossEdgesWithin(ax.0, ax.1, c);
    WellFormedFromEdges(pm, p, CrossEdges(ax.0, ax.1), c);
  }

  lemma GrandCrossAtProperties(pm: PairMap, keys: seq<string>, c: seq<string>)
    requires Distinct(keys) && c in Combos(keys, 4) && GrandCrossAt(pm, c).Some?
    ensures IsGrandCrossOf(pm, keys, GrandCrossAt(pm, c).value)
  {
    ComboOfKeys(keys, 4, c);
    SortedSetSize(c);
    var cands := CrossCandidates(pm, c);
    var i :| 0 <= i < |cands| && CrossFits(pm, c, cands[i]) && GrandCrossAt(pm, c).value == CrossOf(pm, c, cands[i]);
    CrossOfWellFormed(pm, c, cands[i]);
  }

  /** `_match_grand_cross`. */
  function GrandCrosses(pm: PairMap, keys: seq<string>): (r: seq<Pattern>)
    requires Distinct(keys)
    ensures forall p :: p in r ==> IsGrandCrossOf(pm, keys, p)
    ensures forall i, j :: 0 <= i < j < |r| ==> KeySet(r[i]) != KeySet(r[j])
  {
    var r := Scan(Combos(keys, 4), {}, c => GrandCrossAt(pm, c));
    assert forall p :: p in r ==> IsGrandCrossOf(pm, keys, p) by {
      forall p | p in r ensures IsGrandCrossOf(pm, keys, p) {
        var c :| c in Combos(keys, 4) && GrandCrossAt(pm, c) == Some(p);
        GrandCrossAtProperties(pm, keys, c);
      }
    }
    r
  }

  /** The two points of a quadruple other than `c[0]` and `c[j]`, in order. */
  function Others(c: seq<string>, j: nat): seq<string>
    requires |c| == 4 && 1 <= j <= 3
  {
    if j == 1 then [c[2], c[3]] else if j == 2 then [c[1], c[3]] else [c[1], c[2]]
  }

  /** The pair holding `c[0]` comes before the pair of the other two among the
      pairs of the quadruple. */
  lemma CrossPairsOrdered(c: seq<string>, j: nat)
    requires |c| == 4 && 1 <= j <= 3
    ensures IsSubseq([[c[0], c[j]], Others(c, j)], Combos(c, 2))
  {
    var tail := c[1..];
    SubseqOne(tail, j - 1);
    CombosComplete(tail, 1, [tail[j - 1]]);
    var singles := Combos(tail, 1);
    var i :| 0 <= i < |singles| && singles[i] == [c[j]];
    var with := Prepend(c[0], singles);
    assert with[i] == [c[0], c[j]];
    if j == 1 { SubseqPair(tail, 1, 2); } else if j == 2 { SubseqPair(tail, 0, 2); } else { SubseqPair(tail, 0, 1); }
    CombosComplete(tail, 2, Others(c, j));
    assert Combos(c, 2) == with + Combos(tail, 2);
    SubseqAcross(with, Combos(tail, 2), [c[0], c[j]], Others(c, j));
  }

  lemma CrossFitsOthers(pm: PairMap, c: seq<string>, j: nat)
    requires |c| == 4 && 1 <= j <= 3
    requires Holds(pm, CrossEdges((c[0], c[j]), (Others(c, j)[0], Others(c, j)[1])))
    ensures CrossFits(pm, c, [[c[0], c[j]], Others(c, j)])
    ensures Has(pm, c[0], c[j], "opposition") && Has(pm, Others(c, j)[0], Others(c, j)[1], "opposition")
  {
    var o := Others(c, j);
    var es := CrossEdges((c[0], c[j]), (o[0], o[1]));
    assert Has(pm, es[0].a, es[0].b, es[0].kind) && Has(pm, es[1].a, es[1].b, es[1].kind);
    assert Has(pm, es[2].a, es[2].b, es[2].kind) && Has(pm, es[3].a, es[3].b, es[3].kind);
    assert Has(pm, es[4].a, es[4].b, es[4].kind) && Has(pm, es[5].a, es[5].b, es[5].kind);
    assert c == [c[0], c[1], c[2], c[3]];
    assert Elems([c[0], c[j]]) + Elems(o) == Elems(c);
  }

  /** Every four keys forming a grand cross, `c[0]` opposing `c[j]`, are reported. */
  lemma GrandCrossesComplete(pm: PairMap, keys: seq<string>, c: seq<string>, j: nat)
    requires Distinct(keys) && |c| == 4 && IsSubseq(c, keys) && 1 <= j <= 3
    requires Holds(pm, CrossEdges((c[0], c[j]), (Others(c, j)[0], Others(c, j)[1])))
    ensures exists p :: p in GrandCrosses(pm, keys) && KeySet(p) == Elems(c)
  {
    var cd := [[c[0], c[j]], Others(c, j)];
    CrossPairsOrdered(c, j);
    CrossFitsOthers(pm, c, j);
    var pairs := Combos(c, 2);
    OppPairsKeepOrder(pm, pairs, cd[0], cd[1]);
    assert [cd[0], cd[1]] == cd;
    CombosComplete(OppPairs(pm, pairs), 2, cd);
    var cands := CrossCandidates(pm, c);
    assert cd in cands;
    assert GrandCrossAt(pm, c).Some?;
    CombosComplete(keys, 4, c);
    ScanComplete(Combos(keys, 4), {}, c => GrandCrossAt(pm, c), c);
  }

  // ---------------------------------------------------------------------------
  // Grand sextile
  // ---------------------------------------------------------------------------

  /** The selection in order of position, stable for equal positions. */
  function ByPosition(points: Table<real>, c: seq<string>): (o: seq<string>)
    ensures |o| == |c| && multiset(o) == multiset(c)
    ensures SortedBy(o, (k: string) => Pos(points, k))
  {
    SortBy(c, (k: string) => Pos(points, k))
  }

  /** Six points in a ring: each sextile to the next and trine to the one after
      that, sextiles listed first. */
  function SextileEdges(o: seq<string>): seq<Edge>
    requires |o| == 6
  {
    [Edge(o[0], o[1], "sextile"), Edge(o[1], o[2], "sextile"), Edge(o[2], o[3], "sextile"),
     Edge(o[3], o[4], "sextile"), Edge(o[4], o[5], "sextile"), Edge(o[5], o[0], "sextile"),
     Edge(o[0], o[2], "trine"), Edge(o[1], o[3], "trine"), Edge(o[2], o[4], "trine"),
     Edge(o[3], o[5], "trine"), Edge(o[4], o[0], "trine"), Edge(o[5], o[1], "trine")]
  }

  predicate SextileRing(pm: PairMap, o: seq<string>) {
    |o| == 6 && Holds(pm, SextileEdges(o))
  }

  function GrandSextileOf(pm: PairMap, o: seq<string>): Pattern
    requires SextileRing(pm, o)
  {
    GrandSextile(o, Links(pm, SextileEdges(o)), ([o[0], o[2], o[4]], [o[1], o[3], o[5]]))
  }

  /** One selection of six, taken in order of position. */
  function GrandSextileAt(pm: PairMap, points: Table<real>, c: seq<string>): (r: Option<Pattern>)
    ensures r.Some? <==> (|c| == 6 && SextileRing(pm, ByPosition(points, c)))
    ensures r.Some? ==> r.value == GrandSextileOf(pm, ByPosition(points, c))
  {
    var o := ByPosition(points, c);
    if |c| == 6 && SextileRing(pm, o) then Some(GrandSextileOf(pm, o)) else None
  }

  lemma SextileEdgesWithin(o: seq<string>)
    requires |o| == 6 && Distinct(o)
    ensures EdgesWithin(SextileEdges(o), o, ["sextile", "trine"])
  {
    assert o[0] in o && o[1] in o && o[2] in o && o[3] in o && o[4] in o && o[5] in o;
  }

  /** The properties every reported grand sextile has: six selected keys in
      order of position forming the ring, the triples every other point. */
  predicate IsGrandSextileOf(pm: PairMap, points: Table<real>, keys: seq<string>, p: Pattern) {
    p.GrandSextile? && Elems(p.points) <= Elems(keys) && SextileRing(pm, p.points) && WellFormed(p, pm)
    && SortedBy(p.points, (k: string) => Pos(points, k))
    && p.triples == ([p.points[0], p.points[2], p.points[4]], [p.points[1], p.points[3], p.points[5]])
  }

  lemma GrandSextileAtProperties(pm: PairMap, points: Table<real>, keys: seq<string>, c: seq<string>)
    requires Distinct(keys) && c in Combos(keys, 6) && GrandSextileAt(pm, points, c).Some?
    ensures IsGrandSextileOf(pm, points, keys, GrandSextileAt(pm, points, c).value)
  {
    ComboOfKeys(keys, 6, c);
    var o := ByPosition(points, c);
    MultisetElems(o, c);
    DistinctPermutation(c, o);
    SextileEdgesWithin(o);
    WellFormedFromEdges(pm, GrandSextileOf(pm, o), SextileEdges(o), o);
  }

  /** `_match_grand_sextile`. */
  function GrandSextiles(pm: PairMap, points: Table<real>, keys: seq<string>): (r: seq<Pattern>)
    requires Distinct(keys)
    ensures forall p :: p in r ==> IsGrandSextileOf(pm, points, keys, p)
    ensures forall i, j :: 0 <= i < j < |r| ==> KeySet(r[i]) != KeySet(r[j])
  {
    var r := Scan(Combos(keys, 6), {}, c => GrandSextileAt(pm, points, c));
    assert forall p :: p in r ==> IsGrandSextileOf(pm, points, keys, p) by {
      forall p | p in r ensures IsGrandSextileOf(pm, points, keys, p) {
        var c :| c in Combos(keys, 6) && GrandSextileAt(pm, points, c) == Some(p);
        GrandSextileAtProperties(pm, points, keys, c);
      }
    }
    r
  }

  /** A grand sextile is two interlaced grand trines. */
  lemma GrandSextileTriples(pm: PairMap, points: Table<real>, keys: seq<string>, p: Pattern)
    requires IsGrandSextileOf(pm, points, keys, p)
    ensures AllPairs(pm, p.triples.0, "trine") && AllPairs(pm, p.triples.1, "trine")
  {
    var o := p.points;
    var es := SextileEdges(o);
    assert Has(pm, es[6].a, es[6].b, es[6].kind) && Has(pm, es[7].a, es[7].b, es[7].kind);
    assert Has(pm, es[8].a, es[8].b, es[8].kind) && Has(pm, es[9].a, es[9].b, es[9].kind);
    assert Has(pm, es[10].a, es[10].b, es[10].kind) && Has(pm, es[11].a, es[11].b, es[11].kind);
    HasSymmetric(pm, o[4], o[0], "trine");
    HasSymmetric(pm, o[5], o[1], "trine");
  }

  /** Every six keys whose order of position forms the ring are reported. */
  lemma GrandSextilesComplete(pm: PairMap, points: Table<real>, keys: seq<string>, c: seq<string>)
    requires Distinct(keys) && |c| == 6 && IsSubseq(c, keys) && SextileRing(pm, ByPosition(points, c))
    ensures exists p :: p in GrandSextiles(pm, points, keys) && KeySet(p) == Elems(c)
  {
    CombosComplete(keys, 6, c);
    ScanComplete(Combos(keys, 6), {}, c => GrandSextileAt(pm, points, c), c);
    MultisetElems(ByPosition(points, c), c);
  }

  // ---------------------------------------------------------------------------
  // Mystic rectangle
  // ---------------------------------------------------------------------------

  /** a-c and b-d opposed, a-b and c-d trine, b-c and d-a sextile. */
  function MysticEdges(a: string, b: string, c: string, d: string): seq<Edge> {
    [Edge(a, c, "opposition"), Edge(b, d, "opposition"), Edge(a, b, "trine"),
     Edge(c, d, "trine"), Edge(b, c, "sextile"), Edge(d, a, "sextile")]
  }

  function MysticRectangleOf(pm: PairMap, q: seq<string>): Pattern
    requires |q| == 4 && Holds(pm, MysticEdges(q[0], q[1], q[2], q[3]))
  {
    MysticRectangle(SortedSet(q), Links(pm, MysticEdges(q[0], q[1], q[2], q[3])), ((q[0], q[2]), (q[1], q[3])))
  }

  /** One selection of four, labelled a, b, c, d in key order. */
  function MysticRectangleAt(pm: PairMap, q: seq<string>): (r: Option<Pattern>)
    ensures r.Some? <==> (|q| == 4 && Holds(pm, MysticEdges(q[0], q[1], q[2], q[3])))
    ensures r.Some? ==> r.value == MysticRectangleOf(pm, q)
  {
    if |q| == 4 && Holds(pm, MysticEdges(q[0], q[1], q[2], q[3])) then Some(MysticRectangleOf(pm, q)) else None
  }

  lemma MysticEdgesWithin(q: seq<string>)
    requires |q| == 4 && Distinct(q)
    ensures EdgesWithin(MysticEdges(q[0], q[1], q[2], q[3]), q, ["opposition", "trine", "sextile"])
  {
    assert q[0] in q && q[1] in q && q[2] in q && q[3] in q;
  }

  /** The properties every reported mystic rectangle has: four selected keys,
      the two oppositions recorded, and the six aspects of the shape. */
  predicate IsMysticRectangleOf(pm: PairMap, keys: seq<string>, p: Pattern) {
    p.MysticRectangle? && |p.points| == 4 && Elems(p.points) <= Elems(keys) && StrictlySorted(p.points)
    && WellFormed(p, pm)
    && Holds(pm, MysticEdges(p.oppositions.0.0, p.oppositions.1.0, p.oppositions.0.1, p.oppositions.1.1))
  }

  lemma MysticRectangleAtProperties(pm: PairMap, keys: seq<string>, c: seq<string>)
    requires Distinct(keys) && c in Combos(keys, 4) && MysticRectangleAt(pm, c).Some?
    ensures IsMysticRectangleOf(pm, keys, MysticRectangleAt(pm, c).value)
  {
    ComboOfKeys(keys, 4, c);
    SortedSetSize(c);
    MysticEdgesWithin(c);
    WellFormedFromEdges(pm, MysticRectangleOf(pm, c), MysticEdges(c[0], c[1], c[2], c[3]), c);
  }

  /** `_match_mystic_rectangle`. */
  function MysticRectangles(pm: PairMap, keys: seq<string>): (r: seq<Pattern>)
    requires Distinct(keys)
    ensures forall p :: p in r ==> IsMysticRectangleOf(pm, keys, p)
    ensures forall i, j :: 0 <= i < j < |r| ==> KeySet(r[i]) != KeySet(r[j])
  {
    var r := Scan(Combos(keys, 4), {}, c => MysticRectangleAt(pm, c));
    assert forall p :: p in r ==> IsMysticRectangleOf(pm, keys, p) by {
      forall p | p in r ensures IsMysticRectangleOf(pm, keys, p) {
        var c :| c in Combos(keys, 4) && MysticRectangleAt(pm, c) == Some(p);
        MysticRectangleAtProperties(pm, keys, c);
      }
    }
    r
  }

  /** Every four keys that, labelled in key order, form the rectangle are reported. */
  lemma MysticRectanglesComplete(pm: PairMap, keys: seq<string>, c: seq<string>)
    requires Distinct(keys) && |c| == 4 && IsSubseq(c, keys) && Holds(pm, MysticEdges(c[0], c[1], c[2], c[3]))
    ensures exists p :: p in MysticRectangles(pm, keys) && KeySet(p) == Elems(c)
  {
    CombosComplete(keys, 4, c);
    ScanComplete(Combos(keys, 4), {}, c => MysticRectangleAt(pm, c), c);
  }

  // ---------------------------------------------------------------------------
  // Trapeze
  // ---------------------------------------------------------------------------

  /** a-b, b-c, c-d sextile and a-d opposed. */
  function TrapezeEdges(o: seq<string>): seq<Edge>
    requires |o| == 4
  {
    [Edge(o[0], o[1], "sextile"), Edge(o[1], o[2], "sextile"), Edge(o[2], o[3], "sextile"),
     Edge(o[0], o[3], "opposition")]
  }

  predicate TrapezeChain(pm: PairMap, o: seq<string>) {
    |o| == 4 && Holds(pm, TrapezeEdges(o))
  }

  /** One selection of four, labelled a, b, c, d in order of position. */
  function TrapezeAt(pm: PairMap, points: Table<real>, q: seq<string>): (r: Option<Pattern>)
    ensures r.Some? <==> (|q| == 4 && TrapezeChain(pm, ByPosition(points, q)))
    ensures r.Some? ==> r.value == Trapeze(ByPosition(points, q), Links(pm, TrapezeEdges(ByPosition(points, q))))
  {
    var o := ByPosition(points, q);
    if |q| == 4 && TrapezeChain(pm, o) then Some(Trapeze(o, Links(pm, TrapezeEdges(o)))) else None
  }

  lemma TrapezeEdgesWithin(o: seq<string>)
    requires |o| == 4 && Distinct(o)
    ensures EdgesWithin(TrapezeEdges(o), o, ["opposition", "sextile"])
  {
    assert o[0] in o && o[1] in o && o[2] in o && o[3] in o;
  }

  /** The properties every reported trapeze has: four selected keys in order
      of position forming the chain. */
  predicate IsTrapezeOf(pm: PairMap, points: Table<real>, keys: seq<string>, p: Pattern) {
    p.Trapeze? && Elems(p.points) <= Elems(keys) && WellFormed(p, pm) && TrapezeChain(pm, p.points)
    && SortedBy(p.points, (k: string) => Pos(points, k))
  }

  lemma TrapezeAtProperties(pm: PairMap, points: Table<real>, keys: seq<string>, c: seq<string>)
    requires Distinct(keys) && c in Combos(keys, 4) && TrapezeAt(pm, points, c).Some?
    ensures IsTrapezeOf(pm, points, keys, TrapezeAt(pm, points, c).value)
  {
    ComboOfKeys(keys, 4, c);
    var o := ByPosition(points, c);
    MultisetElems(o, c);
    DistinctPermutation(c, o);
    TrapezeEdgesWithin(o);
    WellFormedFromEdges(pm, TrapezeAt(pm, points, c).value, TrapezeEdges(o), o);
  }

  /** `_match_trapeze`. */
  function Trapezes(pm: PairMap, points: Table<real>, keys: seq<string>): (r: seq<Pattern>)
    requires Distinct(keys)
    ensures forall p :: p in r ==> IsTrapezeOf(pm, points, keys, p)
    ensures forall i, j :: 0 <= i < j < |r| ==> KeySet(r[i]) != KeySet(r[j])
  {
    var r := Scan(Combos(keys, 4), {}, c => TrapezeAt(pm, points, c));
    assert forall p :: p in r ==> IsTrapezeOf(pm, points, keys, p) by {
      forall p | p in r ensures IsTrapezeOf(pm, points, keys, p) {
        var c :| c in Combos(keys, 4) && TrapezeAt(pm, points, c) == Some(p);
        TrapezeAtProperties(pm, points, keys, c);
      }
    }
    r
  }

  /** Every four keys whose order of position forms the chain are reported. */
  lemma TrapezesComplete(pm: PairMap, points: Table<real>, keys: seq<string>, c: seq<string>)
    requires Distinct(keys) && |c| == 4 && IsSubseq(c, keys) && TrapezeChain(pm, ByPosition(points, c))
    ensures exists p :: p in Trapezes(pm, points, keys) && KeySet(p) == Elems(c)
  {
    CombosComplete(keys, 4, c);
    ScanComplete(Combos(keys, 4), {}, c => TrapezeAt(pm, points, c), c);
    MultisetElems(ByPosition(points, c), c);
  }
}
