/** The browser's own copy of the aspect arithmetic, as both front ends'
    render scripts carry it: the angular difference, first-match
    classification, point extraction from a subject object, the key-aspect
    and transit-to-natal row builders, the base-point selection, and the
    filter and sort of relationship rows. A subject object is an
    insertion-ordered table of JavaScript values. */
module ClientRender {
  import opened Wrappers
  import opened Text
  import opened Sorting
  import opened Tables
  import Aspects

  // ---------------------------------------------------------------------------
  // The aspect table and classification
  // ---------------------------------------------------------------------------

  /** One row of the client's `ASPECTS` table (no icon). */
  datatype ClientAspect = ClientAspect(name: string, angle: real, orb: real)

  const ClientTable: seq<ClientAspect> := [
    ClientAspect("conjunction", 0.0, 6.0),
    ClientAspect("sextile", 60.0, 4.0),
    ClientAspect("square", 90.0, 6.0),
    ClientAspect("trine", 120.0, 6.0),
    ClientAspect("opposition", 180.0, 6.0)
  ]

  function Strip(a: Aspects.NormalAspect): ClientAspect {
    ClientAspect(a.name, a.angle, a.orb)
  }

  function StripAll(t: seq<Aspects.NormalAspect>): (r: seq<ClientAspect>)
    ensures |r| == |t|
    ensures forall i :: 0 <= i < |t| ==> r[i] == Strip(t[i])
  {
    seq(|t|, i requires 0 <= i < |t| => Strip(t[i]))
  }

  /** The client table is the engine's table without the icons. */
  lemma ClientTableIsEngineTable()
    ensures ClientTable == StripAll(Aspects.PtolemaicAspects)
  {
  }

  /** JavaScript's `x % m` on numbers: the remainder takes the sign of `x`. */
  function JsFmod(x: real, m: real): (r: real)
    requires m > 0.0
    ensures x >= 0.0 ==> 0.0 <= r < m
  {
    if x >= 0.0 then FloorRem(x, m) else -FloorRem(-x, m)
  }

  /** The remainder of a non-negative number: what is left after taking out
      whole multiples of `m`. */
  function FloorRem(y: real, m: real): (r: real)
    requires y >= 0.0 && m > 0.0
    ensures 0.0 <= r < m
  {
    var q := y / m;
    var f := q - q.Floor as real;
    assert y - m * (q.Floor as real) == m * f;
    ScaleFraction(m, f);
    y - m * (q.Floor as real)
  }

  lemma ScaleFraction(m: real, f: real)
    requires m > 0.0 && 0.0 <= f < 1.0
    ensures 0.0 <= m * f < m
  {
  }

  /** `normalizeAngleDiff(a, b)`: `Math.abs(a - b) % 360`, folded onto [0, 180]. */
  function NormalizeAngleDiff(a: real, b: real): (r: real)
    ensures 0.0 <= r <= 180.0
  {
    var d := JsFmod(Aspects.Abs(a - b), 360.0);
    if d > 180.0 then 360.0 - d else d
  }

  /** The client's difference is the engine's `_angular_diff`: the remainder
      is taken of a non-negative number, where truncation and flooring agree. */
  lemma NormalizeAngleDiffAgrees(a: real, b: real)
    ensures NormalizeAngleDiff(a, b) == Aspects.AngularDiff(a, b)
  {
  }

  lemma NormalizeAngleDiffSymmetric(a: real, b: real)
    ensures NormalizeAngleDiff(a, b) == NormalizeAngleDiff(b, a)
    ensures a == b ==> NormalizeAngleDiff(a, b) == 0.0
  {
    NormalizeAngleDiffAgrees(a, b);
    NormalizeAngleDiffAgrees(b, a);
    Aspects.AngularDiffSymmetric(a, b);
  }

  /** A classified difference: `{ ...asp, orb: delta }`. */
  datatype ClientMatch = ClientMatch(name: string, angle: real, orb: real)

  predicate Fits(a: ClientAspect, diff: real) {
    Aspects.Abs(diff - a.angle) <= a.orb
  }

  /** The loop of `classifyAspect` over a table: the first row whose orb
      admits `diff`, with the distance to its angle. */
  function ClassifyIn(table: seq<ClientAspect>, diff: real): (r: Option<ClientMatch>)
    ensures r.None? <==> forall j :: 0 <= j < |table| ==> !Fits(table[j], diff)
    ensures r.Some? ==> r.value.orb == Aspects.Abs(diff - r.value.angle)
  {
    if |table| == 0 then None
    else if Fits(table[0], diff) then
      Some(ClientMatch(table[0].name, table[0].angle, Aspects.Abs(diff - table[0].angle)))
    else
      var r := ClassifyIn(table[1..], diff);
      assert forall j :: 1 <= j < |table| ==> table[j] == table[1..][j - 1];
      r
  }

  /** `classifyAspect(diff)`. */
  function ClassifyAspect(diff: real): (r: Option<ClientMatch>)
    ensures r.Some? ==> 0.0 <= r.value.orb <= 6.0
  {
    var r := ClassifyIn(ClientTable, diff);
    assert r.Some? ==> exists j :: (0 <= j < |ClientTable| && Fits(ClientTable[j], diff)
                                    && r.value.angle == ClientTable[j].angle) by {
      if r.Some? { ClassifyInPicks(ClientTable, diff); }
    }
    r
  }

  lemma {:induction false} ClassifyInPicks(table: seq<ClientAspect>, diff: real)
    requires ClassifyIn(table, diff).Some?
    ensures exists j :: 0 <= j < |table| && Fits(table[j], diff) && ClassifyIn(table, diff).value.angle == table[j].angle
    decreases |table|
  {
    if !Fits(table[0], diff) {
      ClassifyInPicks(table[1..], diff);
      var j :| 0 <= j < |table[1..]| && Fits(table[1..][j], diff) && ClassifyIn(table[1..], diff).value.angle == table[1..][j].angle;
      assert table[j + 1] == table[1..][j];
    }
  }

  /** The engine's classification seen through the client's record. */
  function FromEngine(m: Option<Aspects.AspectMatch>): Option<ClientMatch> {
    match m
    case None => None
    case Some(x) => Some(ClientMatch(x.aspect.name, x.aspect.angle, x.orb))
  }

  /** First-match classification over any table agrees with the engine's
      `_classify` over the same table. */
  lemma {:induction false} ClassifyInAgrees(t: seq<Aspects.NormalAspect>, diff: real)
    ensures ClassifyIn(StripAll(t), diff) == FromEngine(Aspects.Classify(t, diff))
    decreases |t|
  {
    if |t| > 0 && !Aspects.Within(t[0], diff) {
      ClassifyInAgrees(t[1..], diff);
      assert StripAll(t)[1..] == StripAll(t[1..]);
      match Aspects.FirstWithin(t[1..], diff)
      case None =>
      case Some(i) => assert t[1..][i] == t[i + 1];
    }
  }

  /** `classifyAspect` gives what the engine's `_classify` gives with the
      default table: the same kind, angle and orb, or nothing for both. */
  lemma ClassifyAspectAgrees(diff: real)
    ensures ClassifyAspect(diff) == FromEngine(Aspects.Classify(Aspects.PtolemaicAspects, diff))
  {
    ClientTableIsEngineTable();
    ClassifyInAgrees(Aspects.PtolemaicAspects, diff);
  }

  // ---------------------------------------------------------------------------
  // Points of a subject object
  // ---------------------------------------------------------------------------

  /** A property value of a subject object: an object with an own numeric
      `abs_pos`, another object, or a primitive with its truthiness. */
  datatype JsValue = JsPoint(absPos: real) | JsObject | JsPrimitive(truthy: bool)

  predicate Truthy(v: JsValue) {
    !v.JsPrimitive? || v.truthy
  }

  predicate IsPoint(subject: Table<JsValue>, k: string) {
    k in subject.vals && subject.vals[k].JsPoint?
  }

  function PosOf(subject: Table<JsValue>, k: string): real
    requires IsPoint(subject, k)
  {
    subject.vals[k].absPos
  }

  /** `extractPoints(subject)`: the entries that are objects with an own
      `abs_pos`, in the subject's key order. */
  function ExtractPoints(subject: Table<JsValue>): (p: Table<real>)
    requires subject.Valid()
    ensures p.Valid()
    ensures forall k :: k in p.vals <==> IsPoint(subject, k)
    ensures forall k :: k in p.vals ==> p.vals[k] == PosOf(subject, k)
    ensures p.keys == Filter(subject.keys, k => IsPoint(subject, k))
  {
    var keys := Filter(subject.keys, k => IsPoint(subject, k));
    var vals := map k | k in subject.vals && subject.vals[k].JsPoint? :: subject.vals[k].absPos;
    assert Elems(keys) == vals.Keys by {
      forall k ensures k in Elems(keys) <==> k in vals {
        assert k in subject.keys <==> k in Elems(subject.keys);
      }
    }
    Table(keys, vals)
  }

  // ---------------------------------------------------------------------------
  // computeKeyAspects
  // ---------------------------------------------------------------------------

  /** One row of `computeKeyAspects`. */
  datatype KeyRow = KeyRow(base: string, other: string, kind: string, exact: real, orb: real)

  function KeyOrb(r: KeyRow): real {
    r.orb
  }

  /** The row for a base and another point, when their difference classifies. */
  function KeyRowFor(base: string, other: string, baseDeg: real, otherDeg: real): (r: Option<KeyRow>)
    ensures r.Some? <==> ClassifyAspect(NormalizeAngleDiff(baseDeg, otherDeg)).Some?
    ensures r.Some? ==> r.value.base == base && r.value.other == other
  {
    match ClassifyAspect(NormalizeAngleDiff(baseDeg, otherDeg))
    case None => None
    case Some(m) => Some(KeyRow(base, other, m.name, m.angle, m.orb))
  }

  /** The pair passes the loop's two skips: not the base itself, and not a
      base name that sorts before the current base. */
  predicate Admits(baseNames: seq<string>, base: string, other: string) {
    other != base && !(other in baseNames && LexLess(other, base))
  }

  /** The inner loop for one base point. */
  function OtherRows(points: Table<real>, base: string, baseNames: seq<string>, keys: seq<string>): (rows: seq<KeyRow>)
    requires base in points.vals && forall k :: k in keys ==> k in points.vals
    ensures forall r :: r in rows ==> r.base == base && r.other in keys && Admits(baseNames, base, r.other)
    ensures forall r :: r in rows ==> KeyRowFor(base, r.other, points.vals[base], points.vals[r.other]) == Some(r)
    ensures Distinct(keys) ==> Distinct(rows)
  {
    if |keys| == 0 then []
    else
      var rest := OtherRows(points, base, baseNames, keys[1..]);
      var k := keys[0];
      var row := KeyRowFor(base, k, points.vals[base], points.vals[k]);
      if Admits(baseNames, base, k) && row.Some? then
        assert Distinct(keys) ==> k !in keys[1..];
        [row.value] + rest
      else rest
  }

  lemma {:induction false} OtherRowsComplete(points: Table<real>, base: string, baseNames: seq<string>, keys: seq<string>, other: string)
    requires base in points.vals && forall k :: k in keys ==> k in points.vals
    requires other in keys && Admits(baseNames, base, other)
    requires KeyRowFor(base, other, points.vals[base], points.vals[other]).Some?
    ensures KeyRowFor(base, other, points.vals[base], points.vals[other]).value in OtherRows(points, base, baseNames, keys)
    decreases |keys|
  {
    if keys[0] != other {
      OtherRowsComplete(points, base, baseNames, keys[1..], other);
    }
  }

  /** The outer loop over the base names still to visit. */
  function BaseRows(points: Table<real>, todo: seq<string>, baseNames: seq<string>, keys: seq<string>): (rows: seq<KeyRow>)
    requires forall k :: k in keys ==> k in points.vals
    ensures forall r :: r in rows ==> r.base in todo && r.base in points.vals && r.other in keys
    ensures forall r :: r in rows ==> Admits(baseNames, r.base, r.other)
    ensures forall r :: r in rows ==> KeyRowFor(r.base, r.other, points.vals[r.base], points.vals[r.other]) == Some(r)
    ensures Distinct(todo) && Distinct(keys) ==> Distinct(rows)
  {
    if |todo| == 0 then []
    else
      var here := if todo[0] in points.vals then OtherRows(points, todo[0], baseNames, keys) else [];
      var rest := BaseRows(points, todo[1..], baseNames, keys);
      assert Distinct(todo) && Distinct(keys) ==> Distinct(here + rest) by {
        if Distinct(todo) && Distinct(keys) {
          assert todo[0] !in todo[1..];
          DistinctAppend(here, rest);
        }
      }
      here + rest
  }

  lemma {:induction false} BaseRowsComplete(points: Table<real>, todo: seq<string>, baseNames: seq<string>, keys: seq<string>, base: string, other: string)
    requires forall k :: k in keys ==> k in points.vals
    requires base in todo && base in points.vals && other in keys && Admits(baseNames, base, other)
    requires KeyRowFor(base, other, points.vals[base], points.vals[other]).Some?
    ensures KeyRowFor(base, other, points.vals[base], points.vals[other]).value in BaseRows(points, todo, baseNames, keys)
    decreases |todo|
  {
    if todo[0] == base {
      OtherRowsComplete(points, base, baseNames, keys, other);
    } else {
      BaseRowsComplete(points, todo[1..], baseNames, keys, base, other);
    }
  }

  /** The target filter: every point, or those in `allowedTargets`. */
  predicate Allowed(allowed: Option<set<string>>, k: string) {
    allowed.None? || k in allowed.value
  }

  /** What a row of `computeKeyAspects` says, independently of the loops: a
      base name and another point of the subject, both with positions, the
      other allowed, the pair admitted, and the classification of their
      difference. */
  predicate KeyAspect(subject: Table<JsValue>, baseNames: seq<string>, allowed: Option<set<string>>, r: KeyRow) {
    r.base in baseNames && IsPoint(subject, r.base) && IsPoint(subject, r.other)
    && Allowed(allowed, r.other) && Admits(baseNames, r.base, r.other)
    && ClassifyAspect(NormalizeAngleDiff(PosOf(subject, r.base), PosOf(subject, r.other)))
       == Some(ClientMatch(r.kind, r.exact, r.orb))
  }

  /** The rows before sorting. */
  function KeyRowsUnsorted(subject: Table<JsValue>, baseNames: seq<string>, allowed: Option<set<string>>): (rows: seq<KeyRow>)
    requires subject.Valid()
    ensures forall r :: r in rows ==> KeyAspect(subject, baseNames, allowed, r)
    ensures Distinct(baseNames) ==> Distinct(rows)
  {
    var points := ExtractPoints(subject);
    var keys := Filter(points.keys, k => Allowed(allowed, k));
    assert forall k :: k in keys ==> k in points.vals by {
      forall k | k in keys ensures k in points.vals { assert k in Elems(points.keys); }
    }
    BaseRows(points, baseNames, baseNames, keys)
  }

  /** `computeKeyAspects(subject, baseNames, allowedTargets)`: every admitted
      (base, allowed point) pair whose difference classifies, sorted
      ascending by orb. */
  function ComputeKeyAspects(subject: Table<JsValue>, baseNames: seq<string>, allowed: Option<set<string>>): (rows: seq<KeyRow>)
    requires subject.Valid()
    ensures SortedBy(rows, KeyOrb)
    ensures forall r :: r in rows ==> KeyAspect(subject, baseNames, allowed, r)
    ensures multiset(rows) == multiset(KeyRowsUnsorted(subject, baseNames, allowed))
  {
    var rows := KeyRowsUnsorted(subject, baseNames, allowed);
    var sorted := SortBy(rows, KeyOrb);
    assert forall r :: r in sorted ==> r in rows by {
      forall r | r in sorted ensures r in rows { assert r in multiset(sorted); }
    }
    sorted
  }

  /** Every admitted pair whose difference classifies is reported. */
  lemma ComputeKeyAspectsComplete(subject: Table<JsValue>, baseNames: seq<string>, allowed: Option<set<string>>, r: KeyRow)
    requires subject.Valid()
    requires KeyAspect(subject, baseNames, allowed, r)
    ensures r in ComputeKeyAspects(subject, baseNames, allowed)
  {
    var points := ExtractPoints(subject);
    var keys := Filter(points.keys, k => Allowed(allowed, k));
    assert forall k :: k in keys ==> k in points.vals by {
      forall k | k in keys ensures k in points.vals { assert k in Elems(points.keys); }
    }
    assert r.other in Elems(points.keys);
    BaseRowsComplete(points, baseNames, baseNames, keys, r.base, r.other);
    var rows := KeyRowsUnsorted(subject, baseNames, allowed);
    assert r in multiset(rows);
  }

  /** The same unordered pair of points. */
  predicate SamePair(a: KeyRow, b: KeyRow) {
    (a.base == b.base && a.other == b.other) || (a.base == b.other && a.other == b.base)
  }

  /** Two rows that are both reported and name the same unordered pair are
      the same row: a pair of two base names is kept only from the base that
      sorts first. */
  lemma KeyAspectPairUnique(subject: Table<JsValue>, baseNames: seq<string>, allowed: Option<set<string>>, a: KeyRow, b: KeyRow)
    requires KeyAspect(subject, baseNames, allowed, a) && KeyAspect(subject, baseNames, allowed, b)
    requires SamePair(a, b)
    ensures a == b
  {
    if a.base != b.base {
      LexTotal(a.base, b.base);
    }
  }

  /** With distinct base names, each unordered pair of points appears in at
      most one row. */
  lemma ComputeKeyAspectsOncePerPair(subject: Table<JsValue>, baseNames: seq<string>, allowed: Option<set<string>>)
    requires subject.Valid() && Distinct(baseNames)
    ensures forall i, j :: 0 <= i < j < |ComputeKeyAspects(subject, baseNames, allowed)| ==>
      !SamePair(ComputeKeyAspects(subject, baseNames, allowed)[i], ComputeKeyAspects(subject, baseNames, allowed)[j])
  {
    var rows := ComputeKeyAspects(subject, baseNames, allowed);
    DistinctPermutation(KeyRowsUnsorted(subject, baseNames, allowed), rows);
    forall i, j | 0 <= i < j < |rows| ensures !SamePair(rows[i], rows[j]) {
      if SamePair(rows[i], rows[j]) {
        KeyAspectPairUnique(subject, baseNames, allowed, rows[i], rows[j]);
      }
    }
  }

  // ---------------------------------------------------------------------------
  // computeTransitNatalAspects
  // ---------------------------------------------------------------------------

  /** One row of `computeTransitNatalAspects` (the constant source tags
      "transit" and "natal" are left implicit). */
  datatype CrossRow = CrossRow(base: string, other: string, kind: string, orb: real)

  function CrossOrb(r: CrossRow): real {
    r.orb
  }

  function CrossRowFor(base: string, other: string, baseDeg: real, otherDeg: real): (r: Option<CrossRow>)
    ensures r.Some? <==> ClassifyAspect(NormalizeAngleDiff(baseDeg, otherDeg)).Some?
    ensures r.Some? ==> r.value.base == base && r.value.other == other
  {
    match ClassifyAspect(NormalizeAngleDiff(baseDeg, otherDeg))
    case None => None
    case Some(m) => Some(CrossRow(base, other, m.name, m.orb))
  }

  function TargetRows(transit: Table<real>, natal: Table<real>, base: string, targets: seq<string>): (rows: seq<CrossRow>)
    requires base in transit.vals && forall k :: k in targets ==> k in natal.vals
    ensures forall r :: r in rows ==> r.base == base && r.other in targets
    ensures forall r :: r in rows ==> CrossRowFor(base, r.other, transit.vals[base], natal.vals[r.other]) == Some(r)
  {
    if |targets| == 0 then []
    else
      var row := CrossRowFor(base, targets[0], transit.vals[base], natal.vals[targets[0]]);
      (if row.Some? then [row.value] else []) + TargetRows(transit, natal, base, targets[1..])
  }

  lemma {:induction false} TargetRowsComplete(transit: Table<real>, natal: Table<real>, base: string, targets: seq<string>, other: string)
    requires base in transit.vals && forall k :: k in targets ==> k in natal.vals
    requires other in targets && CrossRowFor(base, other, transit.vals[base], natal.vals[other]).Some?
    ensures CrossRowFor(base, other, transit.vals[base], natal.vals[other]).value in TargetRows(transit, natal, base, targets)
    decreases |targets|
  {
    if targets[0] != other {
      TargetRowsComplete(transit, natal, base, targets[1..], other);
    }
  }

  function TransitRows(transit: Table<real>, natal: Table<real>, todo: seq<string>, targets: seq<string>): (rows: seq<CrossRow>)
    requires forall k :: k in targets ==> k in natal.vals
    ensures forall r :: r in rows ==> r.base in todo && r.base in transit.vals && r.other in targets
    ensures forall r :: r in rows ==> CrossRowFor(r.base, r.other, transit.vals[r.base], natal.vals[r.other]) == Some(r)
  {
    if |todo| == 0 then []
    else
      (if todo[0] in transit.vals then TargetRows(transit, natal, todo[0], targets) else [])
      + TransitRows(transit, natal, todo[1..], targets)
  }

  lemma {:induction false} TransitRowsComplete(transit: Table<real>, natal: Table<real>, todo: seq<string>, targets: seq<string>, base: string, other: string)
    requires forall k :: k in targets ==> k in natal.vals
    requires base in todo && base in transit.vals && other in targets
    requires CrossRowFor(base, other, transit.vals[base], natal.vals[other]).Some?
    ensures CrossRowFor(base, other, transit.vals[base], natal.vals[other]).value in TransitRows(transit, natal, todo, targets)
    decreases |todo|
  {
    if todo[0] == base {
      TargetRowsComplete(transit, natal, base, targets, other);
    } else {
      TransitRowsComplete(transit, natal, todo[1..], targets, base, other);
    }
  }

  /** What a transit-to-natal row says: a base name with a transit position,
      an allowed natal point, and the classification of their difference. */
  predicate CrossAspect(natal: Table<JsValue>, transit: Table<JsValue>, baseNames: seq<string>, allowed: set<string>, r: CrossRow) {
    r.base in baseNames && IsPoint(transit, r.base) && IsPoint(natal, r.other) && r.other in allowed
    && var m := ClassifyAspect(NormalizeAngleDiff(PosOf(transit, r.base), PosOf(natal, r.other)));
       m.Some? && m.value.name == r.kind && m.value.orb == r.orb
  }

  function CrossRowsUnsorted(natal: Table<JsValue>, transit: Table<JsValue>, baseNames: seq<string>, allowed: set<string>): (rows: seq<CrossRow>)
    requires natal.Valid() && transit.Valid()
    ensures forall r :: r in rows ==> CrossAspect(natal, transit, baseNames, allowed, r)
  {
    var natalPoints := ExtractPoints(natal);
    var transitPoints := ExtractPoints(transit);
    var targets := Filter(natalPoints.keys, k => k in allowed);
    assert forall k :: k in targets ==> k in natalPoints.vals by {
      forall k | k in targets ensures k in natalPoints.vals { assert k in Elems(natalPoints.keys); }
    }
    TransitRows(transitPoints, natalPoints, baseNames, targets)
  }

  /** `computeTransitNatalAspects(natal, transit, baseNames, allowed)`: every
      (transit base, allowed natal point) pair whose difference classifies,
      sorted ascending by orb. An absent subject is passed as an empty table. */
  function TransitNatalAspects(natal: Table<JsValue>, transit: Table<JsValue>, baseNames: seq<string>, allowed: set<string>): (rows: seq<CrossRow>)
    requires natal.Valid() && transit.Valid()
    ensures SortedBy(rows, CrossOrb)
    ensures forall r :: r in rows ==> CrossAspect(natal, transit, baseNames, allowed, r)
    ensures multiset(rows) == multiset(CrossRowsUnsorted(natal, transit, baseNames, allowed))
  {
    var rows := CrossRowsUnsorted(natal, transit, baseNames, allowed);
    var sorted := SortBy(rows, CrossOrb);
    assert forall r :: r in sorted ==> r in rows by {
      forall r | r in sorted ensures r in rows { assert r in multiset(sorted); }
    }
    sorted
  }

  /** Every transit base and allowed natal point whose difference classifies
      is reported. */
  lemma TransitNatalAspectsComplete(natal: Table<JsValue>, transit: Table<JsValue>, baseNames: seq<string>, allowed: set<string>, r: CrossRow)
    requires natal.Valid() && transit.Valid()
    requires CrossAspect(natal, transit, baseNames, allowed, r)
    ensures r in TransitNatalAspects(natal, transit, baseNames, allowed)
  {
    var natalPoints := ExtractPoints(natal);
    var transitPoints := ExtractPoints(transit);
    var targets := Filter(natalPoints.keys, k => k in allowed);
    assert forall k :: k in targets ==> k in natalPoints.vals by {
      forall k | k in targets ensures k in natalPoints.vals { assert k in Elems(natalPoints.keys); }
    }
    assert r.other in Elems(natalPoints.keys);
    TransitRowsComplete(transitPoints, natalPoints, baseNames, targets, r.base, r.other);
    var rows := CrossRowsUnsorted(natal, transit, baseNames, allowed);
    assert r in multiset(rows);
  }

  // ---------------------------------------------------------------------------
  // The two front ends' point sets
  // ---------------------------------------------------------------------------

  /** `ALLOWED_POINTS` of the shared renderer: the ten planets. */
  const SharedAllowed: set<string> := {
    "sun", "moon", "mercury", "venus", "mars",
    "jupiter", "saturn", "uranus", "neptune", "pluto"
  }

  /** `ALLOWED_POINTS` of the home renderer: the ten planets and the ascendant. */
  const HomeAllowed: set<string> := SharedAllowed + {"ascendant"}

  lemma AllowedSets()
    ensures |SharedAllowed| == 10 && |HomeAllowed| == 11
    ensures "ascendant" !in SharedAllowed && SharedAllowed < HomeAllowed
  {
  }

  /** The shared renderer's transit-to-natal call: the given set, or its own
      ten planets when none is given. */
  function SharedTransitNatal(natal: Table<JsValue>, transit: Table<JsValue>, baseNames: seq<string>, allowedSet: Option<set<string>>): (rows: seq<CrossRow>)
    requires natal.Valid() && transit.Valid()
    ensures SortedBy(rows, CrossOrb)
    ensures forall r :: r in rows ==> r.other in allowedSet.GetOr(SharedAllowed)
  {
    TransitNatalAspects(natal, transit, baseNames, allowedSet.GetOr(SharedAllowed))
  }

  /** The home renderer's transit-to-natal call: always its eleven points, so
      aspects to the natal ascendant are included. */
  function HomeTransitNatal(natal: Table<JsValue>, transit: Table<JsValue>, baseNames: seq<string>): (rows: seq<CrossRow>)
    requires natal.Valid() && transit.Valid()
    ensures SortedBy(rows, CrossOrb)
    ensures forall r :: r in rows ==> r.other in HomeAllowed
  {
    TransitNatalAspects(natal, transit, baseNames, HomeAllowed)
  }

  /** The two front ends differ exactly by aspects to the natal ascendant: a
      row of the home list is in the shared default list unless its natal
      point is the ascendant. */
  lemma HomeTransitNatalExtendsShared(natal: Table<JsValue>, transit: Table<JsValue>, baseNames: seq<string>, r: CrossRow)
    requires natal.Valid() && transit.Valid()
    ensures r in SharedTransitNatal(natal, transit, baseNames, None) ==> r in HomeTransitNatal(natal, transit, baseNames)
    ensures r in HomeTransitNatal(natal, transit, baseNames) && r.other != "ascendant" ==> r in SharedTransitNatal(natal, transit, baseNames, None)
  {
    if r in SharedTransitNatal(natal, transit, baseNames, None) {
      TransitNatalAspectsComplete(natal, transit, baseNames, HomeAllowed, r);
    }
    if r in HomeTransitNatal(natal, transit, baseNames) && r.other != "ascendant" {
      TransitNatalAspectsComplete(natal, transit, baseNames, SharedAllowed, r);
    }
  }

  // ---------------------------------------------------------------------------
  // The home natal summary
  // ---------------------------------------------------------------------------

  const SummaryBases: seq<string> := ["sun", "moon", "ascendant"]

  predicate Present(subject: Table<JsValue>, k: string) {
    k in subject.vals && Truthy(subject.vals[k])
  }

  /** The aspect list of `renderNatalSummary`: nothing unless the subject has
      truthy sun, moon and ascendant entries; then the seven tightest key
      aspects of the three against the eleven home points. */
  function NatalSummaryAspects(subject: Table<JsValue>): (r: Option<seq<KeyRow>>)
    requires subject.Valid()
    ensures r.Some? <==> Present(subject, "sun") && Present(subject, "moon") && Present(subject, "ascendant")
    ensures r.Some? ==> |r.value| <= 7 && SortedBy(r.value, KeyOrb)
    ensures r.Some? ==> forall x :: x in r.value ==> x.base in SummaryBases && x.other in HomeAllowed
  {
    if Present(subject, "sun") && Present(subject, "moon") && Present(subject, "ascendant") then
      Some(TopKeyAspects(subject, SummaryBases, Some(HomeAllowed), 7))
    else None
  }

  /** The first `n` rows of `computeKeyAspects`. */
  function TopKeyAspects(subject: Table<JsValue>, baseNames: seq<string>, allowed: Option<set<string>>, n: nat): (top: seq<KeyRow>)
    requires subject.Valid()
    ensures |top| <= n && SortedBy(top, KeyOrb)
    ensures forall x :: x in top ==> KeyAspect(subject, baseNames, allowed, x)
  {
    var all := ComputeKeyAspects(subject, baseNames, allowed);
    var top := Take(all, n);
    assert forall x :: x in top ==> x in all;
    top
  }

  /** The summary keeps the tightest aspects: a key aspect that is not shown
      is no tighter than any shown one, and with at most seven key aspects all
      are shown, each unordered pair once. */
  lemma NatalSummaryTightest(subject: Table<JsValue>, x: KeyRow)
    requires subject.Valid() && NatalSummaryAspects(subject).Some?
    requires KeyAspect(subject, SummaryBases, Some(HomeAllowed), x)
    ensures x !in NatalSummaryAspects(subject).value ==> |NatalSummaryAspects(subject).value| == 7
    ensures x !in NatalSummaryAspects(subject).value ==> forall y :: y in NatalSummaryAspects(subject).value ==> y.orb <= x.orb
  {
    var all := ComputeKeyAspects(subject, SummaryBases, Some(HomeAllowed));
    ComputeKeyAspectsComplete(subject, SummaryBases, Some(HomeAllowed), x);
    TakeTightest(all, KeyOrb, 7, x);
  }


  // ---------------------------------------------------------------------------
  // getAspectBasePoints
  // ---------------------------------------------------------------------------

  function NonEmpty(p: string): bool {
    p != ""
  }

  /** Case-insensitive membership, as `allowedPool.some(...)` tests it. */
  predicate MatchesSome(pool: seq<string>, p: string) {
    exists ap :: ap in pool && Lower(ap) == Lower(p)
  }

  /** A point survives the filter: it is not empty and, when there are
      default points, matches one of them up to case. */
  predicate KeptBasePoint(fallback: seq<string>, p: string) {
    p != "" && (|fallback| == 0 || MatchesSome(fallback, p))
  }

  /** `getAspectBasePoints()` with the default active points as `fallback`
      and the form's active points as `vals` (`None` when the form gives no
      array): the non-empty chosen points that match a fallback point up to
      case, or the fallback when none remain. */
  function GetAspectBasePoints(fallback: seq<string>, vals: Option<seq<string>>): (r: seq<string>)
    ensures r == fallback || (|r| > 0 && forall p :: p in r ==> p != "")
    ensures |fallback| > 0 ==> forall p :: p in r ==> MatchesSome(fallback, p)
    ensures vals.Some? && |vals.value| > 0 && |fallback| > 0 ==>
      forall p :: p in vals.value && p != "" && MatchesSome(fallback, p) ==> p in r
    ensures vals.Some? && |vals.value| > 0 && (exists p :: p in vals.value && KeptBasePoint(fallback, p)) ==>
      forall p :: p in r <==> p in vals.value && KeptBasePoint(fallback, p)
    ensures vals.Some? && |vals.value| > 0 && (forall p :: p in vals.value ==> !KeptBasePoint(fallback, p)) ==>
      r == fallback
  {
    var chosen := if vals.Some? && |vals.value| > 0 then vals.value else fallback;
    var result := Filter(chosen, NonEmpty);
    var filtered := if |fallback| > 0 then Filter(result, p => MatchesSome(fallback, p)) else result;
    assert forall p :: p in filtered <==> p in chosen && KeptBasePoint(fallback, p);
    if |filtered| > 0 then
      assert filtered[0] in filtered;
      filtered
    else
      assert forall p :: p in fallback ==> MatchesSome(fallback, p);
      fallback
  }

  /** Without form input, non-empty default points are used as they are. */
  lemma GetAspectBasePointsDefault(fallback: seq<string>)
    requires forall p :: p in fallback ==> p != ""
    ensures GetAspectBasePoints(fallback, None) == fallback
    ensures GetAspectBasePoints(fallback, Some([])) == fallback
  {
    FilterAll(fallback, NonEmpty);
    assert forall p :: p in fallback ==> MatchesSome(fallback, p);
    FilterAll(fallback, p => MatchesSome(fallback, p));
  }

  // ---------------------------------------------------------------------------
  // Relationship rows of the shared renderer
  // ---------------------------------------------------------------------------

  /** A JSON field read from an aspect record: missing or null, a number, or
      a string. */
  datatype JsField = Absent | Num(x: real) | Str(s: string)

  /** A relationship aspect record as received, each field given by the
      values of its alternative names in the order the renderer tries them
      (`planet1`, `p1_name`, ...; a missing name is ""). */
  datatype RawAspect = RawAspect(
    baseNames: seq<string>, otherNames: seq<string>, typeNames: seq<string>, orbFields: seq<JsField>)

  /** A normalised relationship row. */
  datatype RelRow = RelRow(baseKey: string, otherKey: string, kind: string, orb: real)

  /** The `??` chain: the first field that is present. */
  function Coalesce(fields: seq<JsField>): (r: JsField)
    ensures r.Absent? <==> forall i :: 0 <= i < |fields| ==> fields[i].Absent?
    ensures !r.Absent? ==> r in fields
  {
    if |fields| == 0 then Absent
    else if !fields[0].Absent? then fields[0]
    else Coalesce(fields[1..])
  }

  /** `typeof orbRaw === "number" ? orbRaw : parseFloat(orbRaw || "9999")`,
      with `None` for `NaN`. */
  function OrbValue(raw: JsField): (r: Option<real>)
    ensures raw.Num? ==> r == Some(raw.x)
    ensures raw.Absent? || raw == Str("") ==> r == ParseFloat("9999")
    ensures raw.Str? && raw.s != "" ==> r == ParseFloat(raw.s)
  {
    match raw
    case Num(x) => Some(x)
    case Absent => ParseFloat("9999")
    case Str(s) => ParseFloat(if s == "" then "9999" else s)
  }

  /** One record through the `map` and the `filter`: `None` when a key is not
      one of the ten planets or the orb is not a finite number. */
  function NormalizeRaw(a: RawAspect): (r: Option<RelRow>)
    ensures r.Some? <==> (Lower(FirstTruthy(a.baseNames)) in SharedAllowed
                          && Lower(FirstTruthy(a.otherNames)) in SharedAllowed
                          && OrbValue(Coalesce(a.orbFields)).Some?)
    ensures r.Some? ==> r.value.baseKey == Lower(FirstTruthy(a.baseNames))
    ensures r.Some? ==> r.value.otherKey == Lower(FirstTruthy(a.otherNames))
    ensures r.Some? ==> r.value.kind == FirstTruthy(a.typeNames)
    ensures r.Some? ==> Some(r.value.orb) == OrbValue(Coalesce(a.orbFields))
  {
    var b := Lower(FirstTruthy(a.baseNames));
    var o := Lower(FirstTruthy(a.otherNames));
    var orb := OrbValue(Coalesce(a.orbFields));
    if b in SharedAllowed && o in SharedAllowed && orb.Some? then
      Some(RelRow(b, o, FirstTruthy(a.typeNames), orb.value))
    else None
  }

  /** `extractAspects(payload)` on a list of records. */
  function ExtractRelAspects(raw: seq<RawAspect>): (rows: seq<RelRow>)
    ensures |rows| <= |raw|
    ensures forall r :: r in rows ==> r.baseKey in SharedAllowed && r.otherKey in SharedAllowed
    ensures forall r :: r in rows <==> exists i :: 0 <= i < |raw| && NormalizeRaw(raw[i]) == Some(r)
    ensures MapsKept(raw, NormalizeRaw, rows)
  {
    if |raw| == 0 then []
    else
      var rest := ExtractRelAspects(raw[1..]);
      ExtractRelStep(raw, rest);
      if NormalizeRaw(raw[0]).Some? then [NormalizeRaw(raw[0]).value] + rest else rest
  }

  /** One record in front of the tail's rows. */
  lemma ExtractRelStep(raw: seq<RawAspect>, rest: seq<RelRow>)
    requires |raw| > 0 && |rest| <= |raw| - 1 && MapsKept(raw[1..], NormalizeRaw, rest)
    ensures var rows := if NormalizeRaw(raw[0]).Some? then [NormalizeRaw(raw[0]).value] + rest else rest;
            |rows| <= |raw| && MapsKept(raw, NormalizeRaw, rows)
            && (forall r :: r in rows <==> exists i :: 0 <= i < |raw| && NormalizeRaw(raw[i]) == Some(r))
            && forall r :: r in rows ==> r.baseKey in SharedAllowed && r.otherKey in SharedAllowed
  {
    var rows := if NormalizeRaw(raw[0]).Some? then [NormalizeRaw(raw[0]).value] + rest else rest;
    KeptStep(raw, NormalizeRaw, rest);
    forall r | r in rows
      ensures r.baseKey in SharedAllowed && r.otherKey in SharedAllowed
    {
      var i :| 0 <= i < |raw| && NormalizeRaw(raw[i]) == Some(r);
    }
  }

  /** The sort key `(a.orb || 999)`: an exact aspect ranks as 999. */
  function RelRank(r: RelRow): real {
    if r.orb == 0.0 then 999.0 else r.orb
  }

  /** The list the relationship summary shows, and how many there were:
      normalised rows sorted by rank, the first seven. */
  function RelationshipTop(raw: seq<RawAspect>): (r: (seq<RelRow>, nat))
    ensures r.1 == |ExtractRelAspects(raw)|
    ensures |r.0| <= 7 && |r.0| <= r.1
    ensures SortedBy(r.0, RelRank)
    ensures forall x :: x in r.0 ==> x in ExtractRelAspects(raw)
  {
    var rows := ExtractRelAspects(raw);
    var sorted := SortBy(rows, RelRank);
    TopOfSorted(rows, RelRank, 7);
    (Take(sorted, 7), |rows|)
  }

  /** A row left out of the seven shown ranks no better than any shown row. */
  lemma RelationshipTopTightest(raw: seq<RawAspect>, x: RelRow)
    requires x in ExtractRelAspects(raw)
    ensures x !in RelationshipTop(raw).0 ==> |RelationshipTop(raw).0| == 7
    ensures x !in RelationshipTop(raw).0 ==> forall y :: y in RelationshipTop(raw).0 ==> RelRank(y) <= RelRank(x)
  {
    var sorted := SortBy(ExtractRelAspects(raw), RelRank);
    assert x in multiset(sorted);
    TakeTightest(sorted, RelRank, 7, x);
  }


  /** Exact aspects (orb 0) are listed after every aspect with an orb in
      (0, 999): the `||` treats 0 as missing. */
  lemma RelationshipExactLast(raw: seq<RawAspect>, i: nat, j: nat)
    requires i < j < |RelationshipTop(raw).0|
    requires RelationshipTop(raw).0[i].orb == 0.0
    ensures RelationshipTop(raw).0[j].orb == 0.0 || RelationshipTop(raw).0[j].orb >= 999.0
  {
  }

  // ---------------------------------------------------------------------------
  // Relationship rows of the home renderer
  // ---------------------------------------------------------------------------

  /** An aspect record as the home renderer reads it: `planet1`, `planet2`
      ("" when missing), the orb (`None` when missing or null) and the type. */
  datatype HomeAspect = HomeAspect(planet1: string, planet2: string, orb: Option<real>, kind: string)

  function HomeRank(a: HomeAspect): real {
    if a.orb.None? || a.orb.value == 0.0 then 999.0 else a.orb.value
  }

  function HomeKeep(a: HomeAspect): bool {
    Lower(a.planet1) in HomeAllowed && Lower(a.planet2) in HomeAllowed
  }

  /** `renderRelationshipSummary`'s list: records whose two planets are home
      points in any case, sorted by rank (a missing or zero orb as 999), the
      first seven. */
  function HomeRelationshipTop(aspects: seq<HomeAspect>): (top: seq<HomeAspect>)
    ensures |top| <= 7
    ensures SortedBy(top, HomeRank)
    ensures forall a :: a in top ==> a in aspects && HomeKeep(a)
    ensures |Filter(aspects, HomeKeep)| <= 7 ==> multiset(top) == multiset(Filter(aspects, HomeKeep))
  {
    var kept := Filter(aspects, HomeKeep);
    var sorted := SortBy(kept, HomeRank);
    var top := Take(sorted, 7);
    assert forall a :: a in top ==> a in multiset(sorted);
    assert |kept| <= 7 ==> top == sorted by {
      if |kept| <= 7 { assert top == sorted[..|sorted|]; }
    }
    top
  }

  /** A kept record left out of the seven shown ranks no better than any shown
      record. */
  lemma HomeRelationshipTopTightest(aspects: seq<HomeAspect>, x: HomeAspect)
    requires x in aspects && HomeKeep(x)
    ensures x !in HomeRelationshipTop(aspects) ==> |HomeRelationshipTop(aspects)| == 7
    ensures x !in HomeRelationshipTop(aspects) ==> forall y :: y in HomeRelationshipTop(aspects) ==> HomeRank(y) <= HomeRank(x)
  {
    var sorted := SortBy(Filter(aspects, HomeKeep), HomeRank);
    assert x in multiset(sorted);
    TakeTightest(sorted, HomeRank, 7, x);
  }

}
