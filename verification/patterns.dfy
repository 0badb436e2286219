/** The Ptolemaic configuration detector (`compute_patterns`): seven matchers
    that read the pair map of the selected points and report stelliums,
    T-squares, grand trines, grand crosses, grand sextiles, mystic rectangles
    and trapezes, each key set at most once per configuration. */
module Patterns {
  import opened Wrappers
  import opened Text
  import opened Sorting
  import opened Tables
  import opened Combinations
  import opened Aspects

  // ---------------------------------------------------------------------------
  // Configuration catalogue
  // ---------------------------------------------------------------------------

  /** Static description of one configuration; `aspects` lists the kinds its
      links may have. */
  datatype Configuration = Configuration(
    id: string, name: string, planets: string, aspects: seq<string>,
    aspectsLabel: string, geometry: string, orb: string, construction: string)

  /** The seven configurations, in the order the matchers run. */
  const PtolemaicPatterns: seq<Configuration> := [
    Configuration("stellium", "Stellium", "3+ planets", ["conjunction"],
      "Conjunctions",
      "Clustered within ~30\U{B0} (often one sign) with overlapping 0\U{B0} links.",
      "Planets within ~5\U{2013}10\U{B0} of each other across the cluster.",
      "Conjunction-series bundle occupying one tight sector."),
    Configuration("t_square", "T-Square", "3 planets", ["opposition", "square"],
      "Opposition + Squares",
      "Opposition capped by two 90\U{B0} squares, forming a T spine.",
      "Squares/opposition typically \U{B1}8\U{2013}10\U{B0}.",
      "A \U{2194} B opposition with C square to both (C = focal)."),
    Configuration("grand_trine", "Grand Trine", "3 planets", ["trine"],
      "Trines",
      "Three 120\U{B0} links in an equilateral triangle.",
      "Trines usually \U{B1}6\U{2013}8\U{B0} (often ~\U{B1}7\U{B0}).",
      "A\U{2013}B\U{2013}C all 120\U{B0} apart forming a closed triangle."),
    Configuration("grand_cross", "Grand Cross", "4 planets", ["opposition", "square"],
      "Oppositions + Squares",
      "Four points every 90\U{B0}: two oppositions plus four squares.",
      "Squares/oppositions typically \U{B1}8\U{2013}10\U{B0}.",
      "A\U{2194}C and B\U{2194}D oppositions; each is square to its neighbors."),
    Configuration("grand_sextile", "Grand Sextile", "6 planets", ["sextile", "trine"],
      "Sextiles + Trines",
      "Hexagram/Star of David: alternating 60\U{B0} and 120\U{B0} points.",
      "Sextiles \U{B1}5\U{2013}6\U{B0}; trines \U{B1}6\U{2013}8\U{B0}.",
      "Two interlaced Grand Trines linked by six sextiles."),
    Configuration("mystic_rectangle", "Mystic Rectangle", "4 planets", ["opposition", "trine", "sextile"],
      "Oppositions, Trines, Sextiles",
      "Two oppositions stitched by trines and sextiles into a rectangle.",
      "Oppositions \U{B1}8\U{2013}10\U{B0}; trines 6\U{2013}8\U{B0}; sextiles 5\U{2013}6\U{B0}.",
      "A\U{2194}C and B\U{2194}D; A sextile D & trine B, C sextile B & trine D."),
    Configuration("trapeze", "Trapeze / Cradle", "4 planets", ["opposition", "sextile"],
      "Opposition + Sextiles",
      "Three sextiles in a row with an opposition across the open ends.",
      "Sextiles \U{B1}5\U{2013}6\U{B0}; opposition \U{B1}8\U{2013}10\U{B0}.",
      "A sextile B sextile C sextile D, with A\U{2194}D in opposition.")
  ]

  lemma CatalogueSize()
    ensures |PtolemaicPatterns| == 7
  {
  }

  // ---------------------------------------------------------------------------
  // Matches
  // ---------------------------------------------------------------------------

  /** An edge of a match: aspect kind, sorted pair, rounded orb, difference. */
  datatype Link = Link(kind: string, pair: (string, string), orb: real, difference: real)

  /** A match. Every shape has its points and links; the extra field is the
      shape's `structure` entry (a stellium's cluster, a grand trine's triple
      and a trapeze's chain are its points). */
  datatype Pattern =
    | Stellium(points: seq<string>, links: seq<Link>)
    | TSquare(points: seq<string>, links: seq<Link>, focal: string)
    | GrandTrine(points: seq<string>, links: seq<Link>)
    | GrandCross(points: seq<string>, links: seq<Link>, axes: ((string, string), (string, string)))
    | GrandSextile(points: seq<string>, links: seq<Link>, triples: (seq<string>, seq<string>))
    | MysticRectangle(points: seq<string>, links: seq<Link>, oppositions: ((string, string), (string, string)))
    | Trapeze(points: seq<string>, links: seq<Link>)
  {
    /** Position of the shape's matcher, and of its configuration. */
    function Rank(): (n: nat)
      ensures n < 7
    {
      match this
      case Stellium(_, _) => 0
      case TSquare(_, _, _) => 1
      case GrandTrine(_, _) => 2
      case GrandCross(_, _, _) => 3
      case GrandSextile(_, _, _) => 4
      case MysticRectangle(_, _, _) => 5
      case Trapeze(_, _) => 6
    }

    function Configuration(): Configuration {
      CatalogueSize();
      PtolemaicPatterns[Rank()]
    }
  }

  /** The kinds a shape's links may have. */
  function Kinds(p: Pattern): seq<string> {
    match p
    case Stellium(_, _) => ["conjunction"]
    case TSquare(_, _, _) => ["opposition", "square"]
    case GrandTrine(_, _) => ["trine"]
    case GrandCross(_, _, _) => ["opposition", "square"]
    case GrandSextile(_, _, _) => ["sextile", "trine"]
    case MysticRectangle(_, _, _) => ["opposition", "trine", "sextile"]
    case Trapeze(_, _) => ["opposition", "sextile"]
  }

  /** The kinds each shape's links may have are the ones its configuration lists. */
  lemma KindsMatchCatalogue(p: Pattern)
    ensures p.Configuration().aspects == Kinds(p)
  {
  }

  /** The key set a matcher remembers so as not to report a match twice. */
  function KeySet(p: Pattern): set<string> {
    Elems(p.points)
  }

  // ---------------------------------------------------------------------------
  // Pair map lookups and links
  // ---------------------------------------------------------------------------

  type PairMap = map<(string, string), PairInfo>

  /** The pair map records an aspect of this kind between `a` and `b`. */
  predicate Has(pm: PairMap, a: string, b: string, kind: string) {
    Canon(a, b) in pm && pm[Canon(a, b)].kind == kind
  }

  lemma HasSymmetric(pm: PairMap, a: string, b: string, kind: string)
    ensures Has(pm, a, b, kind) == Has(pm, b, a, kind)
  {
    CanonSymmetric(a, b);
  }

  /** The link copies the pair map's entry for its sorted pair. */
  predicate LinkAgrees(pm: PairMap, l: Link) {
    l.pair in pm && pm[l.pair].kind == l.kind && pm[l.pair].orb == l.orb
    && pm[l.pair].difference == l.difference && !LexLess(l.pair.1, l.pair.0)
  }

  /** `_make_link`: the entry of the sorted pair, under the sorted pair. */
  function MakeLink(pm: PairMap, a: string, b: string): (l: Link)
    requires Canon(a, b) in pm
    ensures LinkAgrees(pm, l)
    ensures l.pair == Canon(a, b)
  {
    var p := Canon(a, b);
    Link(pm[p].kind, p, pm[p].orb, pm[p].difference)
  }

  /** An aspect a shape requires between two of its points. */
  datatype Edge = Edge(a: string, b: string, kind: string)

  /** The pair map has every required aspect. */
  predicate Holds(pm: PairMap, es: seq<Edge>) {
    forall i :: 0 <= i < |es| ==> Has(pm, es[i].a, es[i].b, es[i].kind)
  }

  /** One link per required aspect, in order. */
  function Links(pm: PairMap, es: seq<Edge>): (ls: seq<Link>)
    requires Holds(pm, es)
    ensures |ls| == |es|
    ensures forall i :: 0 <= i < |es| ==>
              (LinkAgrees(pm, ls[i]) && ls[i].pair == Canon(es[i].a, es[i].b) && ls[i].kind == es[i].kind)
  {
    seq(|es|, i requires 0 <= i < |es| => MakeLink(pm, es[i].a, es[i].b))
  }

  /** The link joins two different points of `pts`, copies the pair map and has
      one of the listed kinds. */
  predicate LinkFitsIn(pm: PairMap, l: Link, pts: seq<string>, kinds: seq<string>) {
    LinkAgrees(pm, l) && l.pair.0 in pts && l.pair.1 in pts && l.pair.0 != l.pair.1 && l.kind in kinds
  }

  /** Every required aspect joins two different points of `pts` and has one of
      the listed kinds. */
  predicate EdgesWithin(es: seq<Edge>, pts: seq<string>, kinds: seq<string>) {
    forall i :: 0 <= i < |es| ==> (es[i].a in pts && es[i].b in pts && es[i].a != es[i].b && es[i].kind in kinds)
  }

  lemma EdgesWithinSameElems(es: seq<Edge>, pts: seq<string>, other: seq<string>, kinds: seq<string>)
    requires EdgesWithin(es, pts, kinds) && Elems(pts) == Elems(other)
    ensures EdgesWithin(es, other, kinds)
  {
    forall i | 0 <= i < |es| ensures es[i].a in other && es[i].b in other {
      assert es[i].a in Elems(pts) && es[i].b in Elems(pts);
    }
  }

  lemma LinksFit(pm: PairMap, es: seq<Edge>, pts: seq<string>, kinds: seq<string>)
    requires Holds(pm, es) && EdgesWithin(es, pts, kinds)
    ensures forall l :: l in Links(pm, es) ==> LinkFitsIn(pm, l, pts, kinds)
  {
    var ls := Links(pm, es);
    forall l | l in ls ensures LinkFitsIn(pm, l, pts, kinds) {
      var i :| 0 <= i < |ls| && ls[i] == l;
    }
  }

  /** What every match promises: distinct points, and links between two
      different points of the match that copy the pair map and have a kind
      its configuration lists. */
  predicate WellFormed(p: Pattern, pm: PairMap) {
    Distinct(p.points) && forall l :: l in p.links ==> LinkFitsIn(pm, l, p.points, Kinds(p))
  }

  /** A match whose links are those of its required aspects, all between its
      points, is well formed. */
  lemma WellFormedFromEdges(pm: PairMap, p: Pattern, es: seq<Edge>, c: seq<string>)
    requires Distinct(p.points) && Holds(pm, es) && p.links == Links(pm, es)
    requires EdgesWithin(es, c, Kinds(p)) && Elems(c) == Elems(p.points)
    ensures WellFormed(p, pm)
  {
    EdgesWithinSameElems(es, c, p.points, Kinds(p));
    LinksFit(pm, es, p.points, Kinds(p));
  }

  // ---------------------------------------------------------------------------
  // Scanning combinations
  // ---------------------------------------------------------------------------

  /** Try the matcher on each combination in turn, keeping a match only when
      its key set has not been reported yet. */
  function Scan(cs: seq<seq<string>>, seen: set<set<string>>, m: seq<string> -> Option<Pattern>)
    : (r: seq<Pattern>)
    ensures forall i :: 0 <= i < |r| ==> KeySet(r[i]) !in seen
    ensures forall i, j :: 0 <= i < j < |r| ==> KeySet(r[i]) != KeySet(r[j])
    ensures forall p :: p in r ==> exists c :: c in cs && m(c) == Some(p)
    decreases |cs|
  {
    if |cs| == 0 then []
    else
      var rest0 := Scan(cs[1..], seen, m);
      assert forall p :: p in rest0 ==> exists c :: c in cs && m(c) == Some(p) by {
        forall p | p in rest0 ensures exists c :: c in cs && m(c) == Some(p) {
          var c :| c in cs[1..] && m(c) == Some(p);
          assert c in cs;
        }
      }
      match m(cs[0])
      case None => rest0
      case Some(p) =>
        if KeySet(p) in seen then rest0
        else
          var rest := Scan(cs[1..], seen + {KeySet(p)}, m);
          assert forall q :: q in rest ==> exists c :: c in cs && m(c) == Some(q) by {
            forall q | q in rest ensures exists c :: c in cs && m(c) == Some(q) {
              var c :| c in cs[1..] && m(c) == Some(q);
              assert c in cs;
            }
          }
          [p] + rest
  }

  /** Whatever the matcher finds on one of the combinations is reported, unless
      its key set was already seen. */
  lemma {:induction false} ScanComplete(cs: seq<seq<string>>, seen: set<set<string>>,
                                        m: seq<string> -> Option<Pattern>, c: seq<string>)
    requires c in cs && m(c).Some?
    ensures KeySet(m(c).value) in seen
         || exists p :: p in Scan(cs, seen, m) && KeySet(p) == KeySet(m(c).value)
    decreases |cs|
  {
    if cs[0] == c {
      var p := m(c).value;
      if KeySet(p) !in seen {
        assert p in Scan(cs, seen, m);
      }
    } else {
      assert c in cs[1..];
      match m(cs[0])
      case None =>
        ScanComplete(cs[1..], seen, m, c);
      case Some(p) =>
        if KeySet(p) in seen {
          ScanComplete(cs[1..], seen, m, c);
        } else {
          ScanComplete(cs[1..], seen + {KeySet(p)}, m, c);
          if KeySet(m(c).value) == KeySet(p) {
            assert p in Scan(cs, seen, m);
          } else if KeySet(m(c).value) !in seen {
            var q :| q in Scan(cs[1..], seen + {KeySet(p)}, m) && KeySet(q) == KeySet(m(c).value);
            assert q in Scan(cs, seen, m);
          }
        }
    }
  }

  /** The number of distinct elements is the length. */
  lemma {:induction false} DistinctCard<T>(s: seq<T>)
    requires Distinct(s)
    ensures |Elems(s)| == |s|
    decreases |s|
  {
    if |s| > 0 {
      var init := s[..|s| - 1];
      DistinctCard(init);
      assert s == init + [s[|s| - 1]];
      assert Elems(s) == Elems(init) + {s[|s| - 1]};
      assert s[|s| - 1] !in Elems(init);
    }
  }

  /** A selection of `k` distinct keys, in key order. */
  lemma ComboOfKeys(keys: seq<string>, k: nat, c: seq<string>)
    requires Distinct(keys) && c in Combos(keys, k)
    ensures |c| == k && Distinct(c) && Elems(c) <= Elems(keys) && |Elems(c)| == k
  {
    SubseqDistinct(c, keys);
    DistinctCard(c);
    forall x | x in c ensures x in keys { SubseqElems(c, keys, x); }
  }

  /** Sorting the distinct keys of a selection keeps their number. */
  lemma SortedSetSize(c: seq<string>)
    requires Distinct(c)
    ensures |SortedSet(c)| == |c|
  {
    DistinctCard(c);
    DistinctCard(SortedSet(c));
  }
}
