/** `compute_patterns` and `compute_major_aspects`: the seven matchers run in
    catalogue order on the selected keys and their pair map, and each match
    is serialised with its configuration. */
module PatternSearch {
  import opened Sorting
  import opened Tables
  import opened Aspects
  import opened Patterns
  import opened Matchers
  import opened Stelliums

  /** Ranks never decrease, and no key set repeats within one rank. */
  predicate Grouped(r: seq<Pattern>) {
    forall i, j :: 0 <= i < j < |r| ==>
      (r[i].Rank() <= r[j].Rank() && (r[i].Rank() == r[j].Rank() ==> KeySet(r[i]) != KeySet(r[j])))
  }

  /** One matcher's output: all of rank `n`, no key set twice. */
  predicate Family(r: seq<Pattern>, n: nat) {
    (forall p :: p in r ==> p.Rank() == n)
    && forall i, j :: 0 <= i < j < |r| ==> KeySet(r[i]) != KeySet(r[j])
  }

  predicate RankAtLeast(r: seq<Pattern>, n: nat) {
    forall p :: p in r ==> p.Rank() >= n
  }

  lemma PrependFamily(a: seq<Pattern>, b: seq<Pattern>, n: nat)
    requires Family(a, n) && Grouped(b) && RankAtLeast(b, n + 1)
    ensures Grouped(a + b) && RankAtLeast(a + b, n)
  {
    var r := a + b;
    forall i, j | 0 <= i < j < |r|
      ensures r[i].Rank() <= r[j].Rank() && (r[i].Rank() == r[j].Rank() ==> KeySet(r[i]) != KeySet(r[j]))
    {
      if j < |a| {
        assert r[i] == a[i] && r[j] == a[j];
        assert a[i] in a && a[j] in a;
      } else if i < |a| {
        assert r[i] == a[i] && r[j] == b[j - |a|];
        assert a[i] in a && b[j - |a|] in b;
      } else {
        assert r[i] == b[i - |a|] && r[j] == b[j - |a|];
      }
    }
  }

  /** What a reported match is: one of the seven shapes, as its matcher
      promises. */
  predicate Reported(pm: PairMap, points: Table<real>, keys: seq<string>, p: Pattern) {
    match p
    case Stellium(_, _) => IsStelliumOf(pm, keys, p)
    case TSquare(_, _, _) => IsTSquareOf(pm, keys, p)
    case GrandTrine(_, _) => IsGrandTrineOf(pm, keys, p)
    case GrandCross(_, _, _) => IsGrandCrossOf(pm, keys, p)
    case GrandSextile(_, _, _) => IsGrandSextileOf(pm, points, keys, p)
    case MysticRectangle(_, _, _) => IsMysticRectangleOf(pm, keys, p)
    case Trapeze(_, _) => IsTrapezeOf(pm, points, keys, p)
  }

  /** Every match lies on the selected keys and is well formed. */
  lemma ReportedWellFormed(pm: PairMap, points: Table<real>, keys: seq<string>, p: Pattern)
    requires Reported(pm, points, keys, p)
    ensures Elems(p.points) <= Elems(keys) && WellFormed(p, pm)
  {
  }

  predicate AllReported(pm: PairMap, points: Table<real>, keys: seq<string>, r: seq<Pattern>) {
    forall p :: p in r ==> Reported(pm, points, keys, p)
  }

  lemma ConcatReported(pm: PairMap, points: Table<real>, keys: seq<string>, a: seq<Pattern>, b: seq<Pattern>)
    requires AllReported(pm, points, keys, a) && AllReported(pm, points, keys, b)
    ensures AllReported(pm, points, keys, a + b)
  {
  }

  /** Each matcher's output is a family of its rank whose members are reported. */
  lemma StelliumsFamily(pm: PairMap, points: Table<real>, keys: seq<string>)
    requires Distinct(keys)
    ensures Family(StelliumMatches(pm, points, keys), 0) && AllReported(pm, points, keys, StelliumMatches(pm, points, keys))
  {
    var f := StelliumMatches(pm, points, keys);
    forall p | p in f ensures p.Rank() == 0 && Reported(pm, points, keys, p) {
      assert IsStelliumOf(pm, keys, p);
    }
  }

  lemma TSquaresFamily(pm: PairMap, points: Table<real>, keys: seq<string>)
    requires Distinct(keys)
    ensures Family(TSquares(pm, keys), 1) && AllReported(pm, points, keys, TSquares(pm, keys))
  {
    var f := TSquares(pm, keys);
    forall p | p in f ensures p.Rank() == 1 && Reported(pm, points, keys, p) {
      assert IsTSquareOf(pm, keys, p);
    }
  }

  lemma GrandTrinesFamily(pm: PairMap, points: Table<real>, keys: seq<string>)
    requires Distinct(keys)
    ensures Family(GrandTrines(pm, keys), 2) && AllReported(pm, points, keys, GrandTrines(pm, keys))
  {
    var f := GrandTrines(pm, keys);
    forall p | p in f ensures p.Rank() == 2 && Reported(pm, points, keys, p) {
      assert IsGrandTrineOf(pm, keys, p);
    }
  }

  lemma GrandCrossesFamily(pm: PairMap, points: Table<real>, keys: seq<string>)
    requires Distinct(keys)
    ensures Family(GrandCrosses(pm, keys), 3) && AllReported(pm, points, keys, GrandCrosses(pm, keys))
  {
    var f := GrandCrosses(pm, keys);
    forall p | p in f ensures p.Rank() == 3 && Reported(pm, points, keys, p) {
      assert IsGrandCrossOf(pm, keys, p);
    }
  }

  lemma GrandSextilesFamily(pm: PairMap, points: Table<real>, keys: seq<string>)
    requires Distinct(keys)
    ensures Family(GrandSextiles(pm, points, keys), 4) && AllReported(pm, points, keys, GrandSextiles(pm, points, keys))
  {
    var f := GrandSextiles(pm, points, keys);
    forall p | p in f ensures p.Rank() == 4 && Reported(pm, points, keys, p) {
      assert IsGrandSextileOf(pm, points, keys, p);
    }
  }

  lemma MysticRectanglesFamily(pm: PairMap, points: Table<real>, keys: seq<string>)
    requires Distinct(keys)
    ensures Family(MysticRectangles(pm, keys), 5) && AllReported(pm, points, keys, MysticRectangles(pm, keys))
  {
    var f := MysticRectangles(pm, keys);
    forall p | p in f ensures p.Rank() == 5 && Reported(pm, points, keys, p) {
      assert IsMysticRectangleOf(pm, keys, p);
    }
  }

  lemma TrapezesFamily(pm: PairMap, points: Table<real>, keys: seq<string>)
    requires Distinct(keys)
    ensures Family(Trapezes(pm, points, keys), 6) && AllReported(pm, points, keys, Trapezes(pm, points, keys))
  {
    var f := Trapezes(pm, points, keys);
    forall p | p in f ensures p.Rank() == 6 && Reported(pm, points, keys, p) {
      assert IsTrapezeOf(pm, points, keys, p);
    }
  }

  /** The matchers' outputs in catalogue order. */
  function AllMatches(pm: PairMap, points: Table<real>, keys: seq<string>): seq<Pattern>
    requires Distinct(keys)
  {
    StelliumMatches(pm, points, keys) + (TSquares(pm, keys) + (GrandTrines(pm, keys)
      + (GrandCrosses(pm, keys) + (GrandSextiles(pm, points, keys)
      + (MysticRectangles(pm, keys) + Trapezes(pm, points, keys))))))
  }

  /** The result is grouped by rank and every match is reported. */
  lemma AllMatchesGrouped(pm: PairMap, points: Table<real>, keys: seq<string>)
    requires Distinct(keys)
    ensures Grouped(AllMatches(pm, points, keys))
    ensures AllReported(pm, points, keys, AllMatches(pm, points, keys))
  {
    var f0 := StelliumMatches(pm, points, keys);
    var f1 := TSquares(pm, keys);
    var f2 := GrandTrines(pm, keys);
    var f3 := GrandCrosses(pm, keys);
    var f4 := GrandSextiles(pm, points, keys);
    var f5 := MysticRectangles(pm, keys);
    var f6 := Trapezes(pm, points, keys);
    StelliumsFamily(pm, points, keys);
    TSquaresFamily(pm, points, keys);
    GrandTrinesFamily(pm, points, keys);
    GrandCrossesFamily(pm, points, keys);
    GrandSextilesFamily(pm, points, keys);
    MysticRectanglesFamily(pm, points, keys);
    TrapezesFamily(pm, points, keys);
    var t5 := f5 + f6;
    var t4 := f4 + t5;
    var t3 := f3 + t4;
    var t2 := f2 + t3;
    var t1 := f1 + t2;
    PrependFamily(f6, [], 6);
    assert f6 + [] == f6;
    PrependFamily(f5, f6, 5);
    PrependFamily(f4, t5, 4);
    PrependFamily(f3, t4, 3);
    PrependFamily(f2, t3, 2);
    PrependFamily(f1, t2, 1);
    PrependFamily(f0, t1, 0);
    ConcatReported(pm, points, keys, f5, f6);
    ConcatReported(pm, points, keys, f4, t5);
    ConcatReported(pm, points, keys, f3, t4);
    ConcatReported(pm, points, keys, f2, t3);
    ConcatReported(pm, points, keys, f1, t2);
    ConcatReported(pm, points, keys, f0, t1);
  }

  /** Each matcher's output is part of the result. */
  lemma AllMatchesIncludes(pm: PairMap, points: Table<real>, keys: seq<string>, p: Pattern)
    requires Distinct(keys)
    requires p in StelliumMatches(pm, points, keys) || p in TSquares(pm, keys) || p in GrandTrines(pm, keys)
          || p in GrandCrosses(pm, keys) || p in GrandSextiles(pm, points, keys)
          || p in MysticRectangles(pm, keys) || p in Trapezes(pm, points, keys)
    ensures p in AllMatches(pm, points, keys)
  {
  }

  /** `compute_patterns`: nothing without selected keys; otherwise the
      matchers' results on the pair map of the selected keys. */
  function ComputePatterns(table: seq<NormalAspect>, subject: Table<PyValue>, active: seq<string>)
    : (r: seq<Pattern>)
    requires subject.Valid()
    ensures |SelectedKeys(subject, active)| == 0 ==> r == []
    ensures Grouped(r)
    ensures AllReported(PairAspects(table, ExtractPoints(subject), SelectedKeys(subject, active)),
                        ExtractPoints(subject), SelectedKeys(subject, active), r)
  {
    var points := ExtractPoints(subject);
    var keys := SelectedKeys(subject, active);
    if |keys| == 0 then []
    else
      AllMatchesGrouped(PairAspects(table, points, keys), points, keys);
      AllMatches(PairAspects(table, points, keys), points, keys)
  }

  // ---------------------------------------------------------------------------
  // Serialisation
  // ---------------------------------------------------------------------------

  /** The `structure` entry of a serialised match. */
  datatype Structure =
    | Cluster(cluster: seq<string>)
    | Focal(focal: string)
    | Triple(triple: seq<string>)
    | Axes(axes: ((string, string), (string, string)))
    | Triples(triples: (seq<string>, seq<string>))
    | Oppositions(oppositions: ((string, string), (string, string)))
    | Chain(chain: seq<string>)

  function StructureOf(p: Pattern): Structure {
    match p
    case Stellium(pts, _) => Cluster(pts)
    case TSquare(_, _, f) => Focal(f)
    case GrandTrine(pts, _) => Triple(pts)
    case GrandCross(_, _, ax) => Axes(ax)
    case GrandSextile(_, _, t) => Triples(t)
    case MysticRectangle(_, _, o) => Oppositions(o)
    case Trapeze(pts, _) => Chain(pts)
  }

  /** `PtolemaicAspect.to_dict`: the configuration's fields, the points, the
      links and the structure entry. */
  datatype MajorAspect = MajorAspect(configuration: Configuration, points: seq<string>,
                                     links: seq<Link>, structure: Structure)

  function ToMajorAspect(p: Pattern): (m: MajorAspect)
    ensures m.configuration == p.Configuration() && m.points == p.points && m.links == p.links
  {
    MajorAspect(p.Configuration(), p.points, p.links, StructureOf(p))
  }

  /** `serialize_ptolemaic_aspects`: each match serialised, in order. */
  function Serialise(ps: seq<Pattern>): (r: seq<MajorAspect>)
    ensures |r| == |ps|
    ensures forall i :: 0 <= i < |ps| ==> r[i] == ToMajorAspect(ps[i])
  {
    seq(|ps|, i requires 0 <= i < |ps| => ToMajorAspect(ps[i]))
  }

  /** `compute_major_aspects`: the matches for the default aspect table,
      serialised. */
  function ComputeMajorAspects(subject: Table<PyValue>, active: seq<string>): (r: seq<MajorAspect>)
    requires subject.Valid()
    ensures |SelectedKeys(subject, active)| == 0 ==> r == []
    ensures SerialisedFrom(ComputePatterns(PtolemaicAspects, subject, active), r)
  {
    var ps := ComputePatterns(PtolemaicAspects, subject, active);
    SerialiseFields(ps);
    Serialise(ps)
  }

  /** `r` lists, for each match in order, its configuration, points and links. */
  predicate SerialisedFrom(ps: seq<Pattern>, r: seq<MajorAspect>) {
    |r| == |ps|
    && forall i :: 0 <= i < |r| ==>
         r[i].configuration == ps[i].Configuration() && r[i].points == ps[i].points && r[i].links == ps[i].links
  }

  lemma SerialiseFields(ps: seq<Pattern>)
    ensures SerialisedFrom(ps, Serialise(ps))
  {
  }

  /** Every serialised match names its configuration, lists the configuration
      in catalogue order, has only links of the kinds the configuration lists,
      and repeats its points where the structure is the cluster, the triple or
      the chain. */
  lemma MajorAspectsAgree(subject: Table<PyValue>, active: seq<string>, i: int, j: int)
    requires subject.Valid()
    requires 0 <= i < j < |ComputeMajorAspects(subject, active)|
    ensures var r := ComputeMajorAspects(subject, active);
            (forall l :: l in r[i].links ==> l.kind in r[i].configuration.aspects)
            && (r[i].structure.Cluster? ==> r[i].structure.cluster == r[i].points)
            && (r[i].structure.Triple? ==> r[i].structure.triple == r[i].points)
            && (r[i].structure.Chain? ==> r[i].structure.chain == r[i].points)
            && IndexOf(r[i].configuration) <= IndexOf(r[j].configuration)
  {
    var points := ExtractPoints(subject);
    var keys := SelectedKeys(subject, active);
    var pm := PairAspects(PtolemaicAspects, points, keys);
    var ps := ComputePatterns(PtolemaicAspects, subject, active);
    assert ps[i] in ps;
    ReportedWellFormed(pm, points, keys, ps[i]);
    SerialisedFacts(ps, pm, i, j);
  }

  /** The facts `MajorAspectsAgree` states, for any grouped list of matches
      whose `i`-th match is well formed. */
  lemma SerialisedFacts(ps: seq<Pattern>, pm: PairMap, i: int, j: int)
    requires 0 <= i < j < |ps| && Grouped(ps) && WellFormed(ps[i], pm)
    ensures var r := Serialise(ps);
            (forall l :: l in r[i].links ==> l.kind in r[i].configuration.aspects)
            && (r[i].structure.Cluster? ==> r[i].structure.cluster == r[i].points)
            && (r[i].structure.Triple? ==> r[i].structure.triple == r[i].points)
            && (r[i].structure.Chain? ==> r[i].structure.chain == r[i].points)
            && IndexOf(r[i].configuration) <= IndexOf(r[j].configuration)
  {
    KindsMatchCatalogue(ps[i]);
    CatalogueIndex(ps[i]);
    CatalogueIndex(ps[j]);
  }

  /** The position of a configuration in the catalogue (7 when absent). */
  function IndexOf(c: Configuration): nat {
    if c == PtolemaicPatterns[0] then 0
    else if c == PtolemaicPatterns[1] then 1
    else if c == PtolemaicPatterns[2] then 2
    else if c == PtolemaicPatterns[3] then 3
    else if c == PtolemaicPatterns[4] then 4
    else if c == PtolemaicPatterns[5] then 5
    else if c == PtolemaicPatterns[6] then 6
    else 7
  }

  lemma CatalogueIndex(p: Pattern)
    ensures IndexOf(p.Configuration()) == p.Rank()
  {
  }
}
