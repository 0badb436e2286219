/** The pairwise part of the Ptolemaic aspect engine (`PtolemaicAspectCalculator`):
    the aspect table, the circular angular difference, first-match
    classification, point extraction from a subject payload, selection of the
    active keys, the pair map the pattern matchers read, and the sorted list
    of aspect rows. Angles are exact reals. */
module Aspects {
  import opened Wrappers
  import opened Text
  import opened Sorting
  import opened Tables

  /** One aspect kind: name, exact angle in degrees, allowed orb, display icon. */
  datatype NormalAspect = NormalAspect(name: string, angle: real, orb: real, icon: string)

  /** The five major aspects, in the order classification tries them. */
  const PtolemaicAspects: seq<NormalAspect> := [
    NormalAspect("conjunction", 0.0, 6.0, "\U{25CE}"),
    NormalAspect("sextile", 60.0, 4.0, "\U{273A}"),
    NormalAspect("square", 90.0, 6.0, "\U{25A1}"),
    NormalAspect("trine", 120.0, 6.0, "\U{25B3}"),
    NormalAspect("opposition", 180.0, 6.0, "\U{260D}")
  ]

  /** The calculator's table: a custom table when one is given and non-empty,
      the five major aspects otherwise. */
  function CalculatorAspects(custom: seq<NormalAspect>): (t: seq<NormalAspect>)
    ensures |t| > 0
    ensures |custom| > 0 ==> t == custom
    ensures |custom| == 0 ==> t == PtolemaicAspects
  {
    if |custom| > 0 then custom else PtolemaicAspects
  }

  function Abs(x: real): real {
    if x < 0.0 then -x else x
  }

  // ---------------------------------------------------------------------------
  // Angular difference
  // ---------------------------------------------------------------------------

  /** `x % 360.0` with Python's floor semantics (the result is never negative). */
  function Mod360(x: real): (r: real)
    ensures 0.0 <= r < 360.0
    ensures 0.0 <= x < 360.0 ==> r == x
  {
    x - 360.0 * ((x / 360.0).Floor as real)
  }

  /** The shorter arc between two ecliptic longitudes, in [0, 180]. */
  function AngularDiff(a: real, b: real): (r: real)
    ensures 0.0 <= r <= 180.0
    ensures a == b ==> r == 0.0
    ensures 0.0 <= Abs(a - b) <= 180.0 ==> r == Abs(a - b)
    ensures 180.0 < Abs(a - b) < 360.0 ==> r == 360.0 - Abs(a - b)
  {
    var d := Mod360(Abs(a - b));
    if d > 180.0 then 360.0 - d else d
  }

  lemma AngularDiffSymmetric(a: real, b: real)
    ensures AngularDiff(a, b) == AngularDiff(b, a)
  {
    assert Abs(a - b) == Abs(b - a);
  }

  /** How far `a - b` is from `n` whole turns. */
  function TurnDistance(a: real, b: real, n: int): real {
    Abs(a - b - 360.0 * (n as real))
  }

  /** The difference is the distance from `a - b` to the nearest whole number of
      turns: no multiple of 360 is closer, and one is exactly that far. */
  lemma AngularDiffIsCircularDistance(a: real, b: real, k: int)
    ensures AngularDiff(a, b) <= TurnDistance(a, b, k)
    ensures exists n: int :: AngularDiff(a, b) == TurnDistance(a, b, n)
  {
    var x := Abs(a - b);
    var q := (x / 360.0).Floor;
    var d := x - 360.0 * (q as real);
    assert 0.0 <= d < 360.0;
    // work with |a - b| and a signed multiple of the turn
    var m := if a - b >= 0.0 then k else -k;
    assert Abs(a - b - 360.0 * (k as real)) == Abs(x - 360.0 * (m as real));
    if d <= 180.0 {
      assert AngularDiff(a, b) == d;
      if m > q {
        assert x - 360.0 * (m as real) <= d - 360.0;
      } else if m < q {
        assert x - 360.0 * (m as real) >= d + 360.0;
      }
      var n := if a - b >= 0.0 then q else -q;
      assert AngularDiff(a, b) == TurnDistance(a, b, n);
    } else {
      assert AngularDiff(a, b) == 360.0 - d;
      if m > q + 1 {
        assert x - 360.0 * (m as real) <= d - 720.0;
      } else if m < q {
        assert x - 360.0 * (m as real) >= d + 360.0;
      }
      var n := if a - b >= 0.0 then q + 1 else -(q + 1);
      assert AngularDiff(a, b) == TurnDistance(a, b, n);
    }
  }

  // ---------------------------------------------------------------------------
  // Classification
  // ---------------------------------------------------------------------------

  /** `diff` lies within the aspect's orb of its exact angle. */
  predicate Within(a: NormalAspect, diff: real) {
    Abs(diff - a.angle) <= a.orb
  }

  /** The index of the first table entry whose orb admits `diff`. */
  function FirstWithin(table: seq<NormalAspect>, diff: real): (r: Option<nat>)
    ensures r.Some? ==> r.value < |table| && Within(table[r.value], diff)
    ensures r.Some? ==> forall j :: 0 <= j < r.value ==> !Within(table[j], diff)
    ensures r.None? <==> forall j :: 0 <= j < |table| ==> !Within(table[j], diff)
  {
    if |table| == 0 then None
    else if Within(table[0], diff) then Some(0)
    else match FirstWithin(table[1..], diff)
      case None => None
      case Some(i) => Some(i + 1)
  }

  /** A classified difference: the aspect kind and the unrounded orb. */
  datatype AspectMatch = AspectMatch(aspect: NormalAspect, orb: real)

  /** The first aspect of the table within orb, with the distance to its angle. */
  function Classify(table: seq<NormalAspect>, diff: real): (r: Option<AspectMatch>)
    ensures r.None? <==> forall j :: 0 <= j < |table| ==> !Within(table[j], diff)
    ensures r.Some? ==> r.value.aspect in table && Within(r.value.aspect, diff)
    ensures r.Some? ==> r.value.orb == Abs(diff - r.value.aspect.angle) && 0.0 <= r.value.orb <= r.value.aspect.orb
  {
    match FirstWithin(table, diff)
    case None => None
    case Some(i) => Some(AspectMatch(table[i], Abs(diff - table[i].angle)))
  }

  /** The classification is the first row of the table whose window holds the
      difference: no earlier row admits it. */
  lemma ClassifyFirst(table: seq<NormalAspect>, diff: real)
    ensures var r := Classify(table, diff);
            r.Some? ==> exists i :: 0 <= i < |table| && table[i] == r.value.aspect &&
                                    forall j :: 0 <= j < i ==> !Within(table[j], diff)
  {
    var f := FirstWithin(table, diff);
    if f.Some? {
      assert table[f.value] == Classify(table, diff).value.aspect;
    }
  }

  /** The orb windows of the five major aspects do not overlap, so at most one
      of them admits any difference. */
  lemma DefaultWindowsDisjoint(diff: real, i: nat, j: nat)
    requires i < |PtolemaicAspects| && j < |PtolemaicAspects|
    requires Within(PtolemaicAspects[i], diff) && Within(PtolemaicAspects[j], diff)
    ensures i == j
  {
  }

  /** With the major aspects, a difference inside an aspect's window is
      classified as that aspect, whatever its position in the table. */
  lemma ClassifyDefault(diff: real, i: nat)
    requires i < |PtolemaicAspects| && Within(PtolemaicAspects[i], diff)
    ensures Classify(PtolemaicAspects, diff)
         == Some(AspectMatch(PtolemaicAspects[i], Abs(diff - PtolemaicAspects[i].angle)))
  {
    var f := FirstWithin(PtolemaicAspects, diff);
    assert f.Some?;
    DefaultWindowsDisjoint(diff, i, f.value);
  }

  /** The orb bound is inclusive: 174 degrees is an opposition with orb 6, and
      so is 174.01 (orb 5.99); 173.99 is no aspect at all. */
  lemma OppositionBoundary()
    ensures Classify(PtolemaicAspects, 174.0) == Some(AspectMatch(PtolemaicAspects[4], 6.0))
    ensures Classify(PtolemaicAspects, 174.01) == Some(AspectMatch(PtolemaicAspects[4], 5.99))
    ensures Classify(PtolemaicAspects, 173.99).None?
  {
    ClassifyDefault(174.0, 4);
    ClassifyDefault(174.01, 4);
  }

  // ---------------------------------------------------------------------------
  // Rounding (Python's `round(x, 2)` on exact values)
  // ---------------------------------------------------------------------------

  /** The nearest integer, ties to the even one. */
  function RoundHalfEven(x: real): (n: int)
    ensures -0.5 <= (n as real) - x <= 0.5
    ensures (n as real) - x == 0.5 || x - (n as real) == 0.5 ==> n % 2 == 0
  {
    var f := x.Floor;
    var d := x - f as real;
    if d < 0.5 then f
    else if d > 0.5 then f + 1
    else if f % 2 == 0 then f else f + 1
  }

  /** Two decimal places, ties to even. */
  function Round2(x: real): (r: real)
    ensures -0.005 <= r - x <= 0.005
    ensures x >= 0.0 ==> r >= 0.0
    ensures (r * 100.0).Floor as real == r * 100.0
  {
    var n := RoundHalfEven(x * 100.0);
    Hundredths(n);
    n as real / 100.0
  }

  lemma Hundredths(n: int)
    ensures (n as real / 100.0) * 100.0 == n as real
    ensures ((n as real / 100.0) * 100.0).Floor as real == (n as real / 100.0) * 100.0
  {
  }

  /** A value that already has two decimals is left alone, so rounding twice
      is rounding once. */
  lemma Round2Hundredths(n: int)
    ensures Round2((n as real) / 100.0) == (n as real) / 100.0
  {
    assert ((n as real) / 100.0) * 100.0 == n as real;
  }

  lemma Round2Idempotent(x: real)
    ensures Round2(Round2(x)) == Round2(x)
  {
    Round2Hundredths(RoundHalfEven(x * 100.0));
  }

  // ---------------------------------------------------------------------------
  // Point keys
  // ---------------------------------------------------------------------------

  /** Spaces and hyphens become underscores, then lower case. */
  function NormalizeKey(key: string): (r: string)
    ensures |r| == |key|
    ensures IsNormalKey(r)
  {
    Lower(ReplaceChar(ReplaceChar(key, ' ', '_'), '-', '_'))
  }

  /** The key is mapped character by character: a space or a hyphen becomes
      an underscore and every other character is lower-cased. */
  lemma NormalizeKeyChars(key: string)
    ensures forall i :: 0 <= i < |key| ==>
              NormalizeKey(key)[i] == (if key[i] == ' ' || key[i] == '-' then '_' else LowerChar(key[i]))
  {
  }

  /** Neither space, hyphen nor upper-case letter occurs. */
  predicate IsNormalKey(k: string) {
    forall i :: 0 <= i < |k| ==> k[i] != ' ' && k[i] != '-' && !('A' <= k[i] <= 'Z')
  }

  /** Normalisation leaves exactly the normal keys unchanged; in particular it is
      idempotent. */
  lemma NormalizeKeyFixes(k: string)
    ensures NormalizeKey(k) == k <==> IsNormalKey(k)
  {
    if IsNormalKey(k) {
      assert forall i :: 0 <= i < |k| ==> NormalizeKey(k)[i] == k[i];
    }
  }

  lemma NormalizeKeyIdempotent(k: string)
    ensures NormalizeKey(NormalizeKey(k)) == NormalizeKey(k)
  {
    NormalizeKeyFixes(NormalizeKey(k));
  }

  // ---------------------------------------------------------------------------
  // Subject payloads and point extraction
  // ---------------------------------------------------------------------------

  /** The `abs_pos` entry of a point record. */
  datatype AbsPos = NoAbsPos | PosNumber(x: real) | PosText(text: string) | PosUnconvertible

  /** A value of the subject payload: a point record, a list of point names,
      or anything else. */
  datatype PyValue = PyDict(absPos: AbsPos) | PyStrList(items: seq<string>) | PyOther

  /** `float(data.get("abs_pos"))` for a point record; `None` where Python
      raises `TypeError` or `ValueError`, and for values that are not records. */
  function PointPosition(v: PyValue): (r: Option<real>)
    ensures r.Some? ==> v.PyDict? && !v.absPos.NoAbsPos? && !v.absPos.PosUnconvertible?
    ensures v.PyDict? && v.absPos.PosNumber? ==> r == Some(v.absPos.x)
  {
    match v
    case PyDict(p) =>
      (match p
       case PosNumber(x) => Some(x)
       case PosText(t) => PyFloat(t)
       case _ => None)
    case _ => None
  }

  /** Entry `i` of `ks` carries a usable position. */
  predicate Usable(ks: seq<string>, d: map<string, PyValue>, i: int)
    requires forall k :: k in ks ==> k in d
  {
    0 <= i < |ks| && PointPosition(d[ks[i]]).Some?
  }

  /** Entry `i` is the last usable one whose key normalises like its own. */
  predicate LastUsable(ks: seq<string>, d: map<string, PyValue>, i: int)
    requires forall k :: k in ks ==> k in d
  {
    Usable(ks, d, i) &&
    forall j :: i < j < |ks| ==> !(Usable(ks, d, j) && NormalizeKey(ks[j]) == NormalizeKey(ks[i]))
  }

  /** The normalised keys of the usable entries. */
  function UsableNames(ks: seq<string>, d: map<string, PyValue>): set<string>
    requires forall k :: k in ks ==> k in d
  {
    set i | 0 <= i < |ks| && Usable(ks, d, i) :: NormalizeKey(ks[i])
  }

  lemma UsableNamesSnoc(ks: seq<string>, d: map<string, PyValue>)
    requires |ks| > 0 && forall k :: k in ks ==> k in d
    ensures UsableNames(ks, d) == UsableNames(ks[..|ks| - 1], d)
      + (if Usable(ks, d, |ks| - 1) then {NormalizeKey(ks[|ks| - 1])} else {})
  {
    var init := ks[..|ks| - 1];
    forall n | n in UsableNames(ks, d)
      ensures n in UsableNames(init, d) || (Usable(ks, d, |ks| - 1) && n == NormalizeKey(ks[|ks| - 1]))
    {
      var i :| 0 <= i < |ks| && Usable(ks, d, i) && NormalizeKey(ks[i]) == n;
      if i < |ks| - 1 {
        assert Usable(init, d, i) && NormalizeKey(init[i]) == n;
      }
    }
    forall n | n in UsableNames(init, d) ensures n in UsableNames(ks, d) {
      var i :| 0 <= i < |init| && Usable(init, d, i) && NormalizeKey(init[i]) == n;
      assert Usable(ks, d, i) && NormalizeKey(ks[i]) == n;
    }
    if Usable(ks, d, |ks| - 1) {
      var n := NormalizeKey(ks[|ks| - 1]);
      assert n in UsableNames(ks, d);
    }
  }

  /** Walk the payload entries in order, keeping those with a usable position
      under their normalised key; a later entry overwrites an earlier one. */
  function ExtractFrom(ks: seq<string>, d: map<string, PyValue>): (t: Table<real>)
    requires forall k :: k in ks ==> k in d
    ensures t.Valid()
    ensures t.vals.Keys == UsableNames(ks, d)
  {
    if |ks| == 0 then EmptyTable()
    else
      var last := ks[|ks| - 1];
      var t := ExtractFrom(ks[..|ks| - 1], d);
      UsableNamesSnoc(ks, d);
      match PointPosition(d[last])
      case None => t
      case Some(v) => t.Put(NormalizeKey(last), v)
  }

  /** Each extracted position is that of the last usable entry under its key. */
  lemma {:induction false} ExtractLatest(ks: seq<string>, d: map<string, PyValue>, i: int)
    requires forall k :: k in ks ==> k in d
    requires LastUsable(ks, d, i)
    ensures NormalizeKey(ks[i]) in ExtractFrom(ks, d).vals
    ensures ExtractFrom(ks, d).vals[NormalizeKey(ks[i])] == PointPosition(d[ks[i]]).value
    decreases |ks|
  {
    var last := ks[|ks| - 1];
    var init := ks[..|ks| - 1];
    var t := ExtractFrom(init, d);
    var n := NormalizeKey(ks[i]);
    if i < |ks| - 1 {
      assert init[i] == ks[i];
      assert LastUsable(init, d, i) by {
        forall j | i < j < |init|
          ensures !(Usable(init, d, j) && NormalizeKey(init[j]) == n)
        {
          assert init[j] == ks[j];
          assert !(Usable(ks, d, j) && NormalizeKey(ks[j]) == n);
        }
      }
      ExtractLatest(init, d, i);
      assert n in t.vals && t.vals[n] == PointPosition(d[ks[i]]).value;
      assert !(Usable(ks, d, |ks| - 1) && NormalizeKey(last) == n);
      match PointPosition(d[last])
      case None =>
        assert ExtractFrom(ks, d) == t;
      case Some(v) =>
        assert NormalizeKey(last) != n;
        assert ExtractFrom(ks, d) == t.Put(NormalizeKey(last), v);
    } else {
      assert ks[i] == last;
      assert ExtractFrom(ks, d) == t.Put(n, PointPosition(d[last]).value);
    }
  }

  /** `_extract_points`: the usable point records of the payload, by normalised
      key, in first-seen order. */
  function ExtractPoints(subject: Table<PyValue>): (t: Table<real>)
    requires subject.Valid()
    ensures t.Valid()
    ensures forall n :: n in t.vals ==> IsNormalKey(n)
  {
    assert forall k :: k in subject.keys ==> k in subject.vals by {
      forall k | k in subject.keys ensures k in subject.vals { assert k in Elems(subject.keys); }
    }
    ExtractFrom(subject.keys, subject.vals)
  }

  /** The extracted keys are the normalised keys of the usable entries, and
      each holds the position of the last such entry. */
  lemma ExtractPointsContents(subject: Table<PyValue>, i: int)
    requires subject.Valid()
    requires forall k :: k in subject.keys ==> k in subject.vals
    ensures ExtractPoints(subject).vals.Keys == UsableNames(subject.keys, subject.vals)
    ensures LastUsable(subject.keys, subject.vals, i) ==>
              ExtractPoints(subject).vals[NormalizeKey(subject.keys[i])]
              == PointPosition(subject.vals[subject.keys[i]]).value
  {
    if LastUsable(subject.keys, subject.vals, i) {
      ExtractLatest(subject.keys, subject.vals, i);
    }
  }

  /** The position of a selected key (keys are always taken from the points). */
  function Pos(points: Table<real>, k: string): real {
    if k in points.vals then points.vals[k] else 0.0
  }

  // ---------------------------------------------------------------------------
  // Active keys
  // ---------------------------------------------------------------------------

  /** The requested point names: the call's own when non-empty, else the
      payload's `active_points` list. */
  function ActiveFrom(subject: Table<PyValue>, active: seq<string>): (r: seq<string>)
    ensures |active| > 0 ==> r == active
  {
    if |active| > 0 then active
    else if "active_points" in subject.vals && subject.vals["active_points"].PyStrList? then
      subject.vals["active_points"].items
    else []
  }

  /** The normalised forms of the requested names. */
  function NormalizedNames(active: seq<string>): set<string> {
    set a | a in active :: NormalizeKey(a)
  }

  /** Every requested name normalised, in request order. */
  function NormalizedAll(active: seq<string>): (r: seq<string>)
    ensures |r| == |active|
    ensures forall i :: 0 <= i < |active| ==> r[i] == NormalizeKey(active[i])
  {
    seq(|active|, i requires 0 <= i < |active| => NormalizeKey(active[i]))
  }

  /** The test "names a point". */
  function InPoints(points: Table<real>): string -> bool {
    k => k in points.vals
  }

  /** The requested names, normalised, present among the points, in request
      order, repeats kept. */
  function Requested(points: Table<real>, active: seq<string>): seq<string> {
    Filter(NormalizedAll(active), InPoints(points))
  }

  /** The requested names, normalised, present among the points, first
      occurrence kept. */
  function SelectActive(points: Table<real>, active: seq<string>): (r: seq<string>)
    ensures Distinct(r)
    ensures Elems(r) == NormalizedNames(active) * points.vals.Keys
    ensures r == Dedupe(Requested(points, active))
  {
    RequestedElems(points, active);
    KeepFirst(points, active)
  }

  /** The loop of `_resolve_keys` over the requested names: a normalised
      name is appended when it names a point and is not listed yet. */
  function KeepFirst(points: Table<real>, active: seq<string>): (r: seq<string>)
    ensures r == Dedupe(Requested(points, active))
  {
    if |active| == 0 then []
    else
      var r := KeepFirst(points, active[..|active| - 1]);
      var n := NormalizeKey(active[|active| - 1]);
      RequestedStep(points, active);
      if n in points.vals && n !in r then r + [n] else r
  }

  /** The requested names that name points are the normalised names that
      are point keys. */
  lemma RequestedElems(points: Table<real>, active: seq<string>)
    ensures Elems(Requested(points, active)) == NormalizedNames(active) * points.vals.Keys
  {
    var all := NormalizedAll(active);
    forall x ensures x in Requested(points, active) <==> x in NormalizedNames(active) && x in points.vals {
      if x in NormalizedNames(active) {
        var b :| b in active && NormalizeKey(b) == x;
        var i :| 0 <= i < |active| && active[i] == b;
        assert all[i] == x;
      }
      if x in all {
        var i :| 0 <= i < |all| && all[i] == x;
        assert active[i] in active;
      }
    }
  }

  /** One more requested name extends the first-occurrence list by that
      name exactly when it names a point and is not listed yet. */
  lemma RequestedStep(points: Table<real>, active: seq<string>)
    requires |active| > 0
    ensures var d := Dedupe(Requested(points, active[..|active| - 1]));
            var n := NormalizeKey(active[|active| - 1]);
            Dedupe(Requested(points, active)) == if n in points.vals && n !in d then d + [n] else d
  {
    var init := active[..|active| - 1];
    var n := NormalizeKey(active[|active| - 1]);
    assert NormalizedAll(active) == NormalizedAll(init) + [n];
    FilterSnoc(NormalizedAll(init), n, InPoints(points));
    var q := Requested(points, init);
    if n in points.vals {
      assert Requested(points, active) == q + [n];
      assert (q + [n])[..|q + [n]| - 1] == q;
    } else {
      assert Requested(points, active) == q;
    }
  }

  /** `_resolve_keys`: the selected names, or, when none of them names a point,
      every point key in sorted order. */
  function ResolveKeys(points: Table<real>, active: seq<string>): (r: seq<string>)
    requires points.Valid()
    ensures Distinct(r)
    ensures Elems(r) <= points.vals.Keys
    ensures NormalizedNames(active) * points.vals.Keys != {} ==>
              Elems(r) == NormalizedNames(active) * points.vals.Keys
    ensures NormalizedNames(active) * points.vals.Keys != {} ==>
              r == Dedupe(Requested(points, active))
    ensures NormalizedNames(active) * points.vals.Keys == {} ==>
              StrictlySorted(r) && Elems(r) == points.vals.Keys
  {
    var keys := SelectActive(points, active);
    if |keys| > 0 then
      assert keys[0] in Elems(keys);
      keys
    else
      assert Elems(keys) == {};
      var r := SortStrings(points.keys);
      assert Elems(r) == points.vals.Keys;
      StrictlySortedDistinct(r);
      r
  }

  /** Names that are already normal, distinct and all present come back as given. */
  lemma {:induction false} SelectActiveNormal(points: Table<real>, active: seq<string>)
    requires Distinct(active)
    requires forall a :: a in active ==> IsNormalKey(a) && a in points.vals
    ensures SelectActive(points, active) == active
    decreases |active|
  {
    if |active| > 0 {
      var init := active[..|active| - 1];
      var a := active[|active| - 1];
      SelectActiveNormal(points, init);
      NormalizeKeyFixes(a);
      assert a !in init;
      assert a !in Elems(init);
      assert init + [a] == active;
    }
  }

  lemma ResolveKeysNormal(points: Table<real>, active: seq<string>)
    requires points.Valid() && |active| > 0 && Distinct(active)
    requires forall a :: a in active ==> IsNormalKey(a) && a in points.vals
    ensures ResolveKeys(points, active) == active
  {
    SelectActiveNormal(points, active);
  }

  // ---------------------------------------------------------------------------
  // Pairs
  // ---------------------------------------------------------------------------

  /** `tuple(sorted((a, b)))`. */
  function Canon(a: string, b: string): (p: (string, string))
    ensures (p.0 == a && p.1 == b) || (p.0 == b && p.1 == a)
    ensures !LexLess(p.1, p.0)
  {
    if LexLess(b, a) then
      LexAsymmetric(a, b);
      (b, a)
    else (a, b)
  }

  lemma CanonSymmetric(a: string, b: string)
    ensures Canon(a, b) == Canon(b, a)
  {
    LexTotal(a, b);
    LexAsymmetric(a, b);
  }

  /** What the pair map stores for one pair. */
  datatype PairInfo = PairInfo(kind: string, angle: real, orb: real, difference: real, icon: string)

  /** The aspect between two points, if any: kind, exact angle, orb rounded to
      two decimals, the unrounded difference, icon. */
  function PairClass(table: seq<NormalAspect>, points: Table<real>, a: string, b: string): (r: Option<PairInfo>)
    ensures r.Some? <==> Classify(table, AngularDiff(Pos(points, a), Pos(points, b))).Some?
    ensures r.Some? ==> r.value.difference == AngularDiff(Pos(points, a), Pos(points, b))
    ensures r.Some? ==> exists n :: n in table && n.name == r.value.kind && n.angle == r.value.angle
                                   && Within(n, r.value.difference)
  {
    var d := AngularDiff(Pos(points, a), Pos(points, b));
    match Classify(table, d)
    case None => None
    case Some(m) => Some(PairInfo(m.aspect.name, m.aspect.angle, Round2(m.orb), d, m.aspect.icon))
  }

  lemma PairClassSymmetric(table: seq<NormalAspect>, points: Table<real>, a: string, b: string)
    ensures PairClass(table, points, a, b) == PairClass(table, points, b, a)
  {
    AngularDiffSymmetric(Pos(points, a), Pos(points, b));
  }

  /** The sorted pairs of two different positions of `keys`. */
  function KeyPairs(keys: seq<string>): set<(string, string)> {
    set i, j | 0 <= i < j < |keys| :: Canon(keys[i], keys[j])
  }

  /** `_pair_aspects`: for every pair of selected keys that forms an aspect,
      its information under the sorted pair. */
  function PairAspects(table: seq<NormalAspect>, points: Table<real>, keys: seq<string>)
    : (pm: map<(string, string), PairInfo>)
    ensures forall p :: p in pm ==> p.0 in keys && p.1 in keys && !LexLess(p.1, p.0)
    ensures forall p :: p in pm ==> Some(pm[p]) == PairClass(table, points, p.0, p.1)
  {
    map p | p in KeyPairs(keys) && PairClass(table, points, p.0, p.1).Some?
      :: PairClass(table, points, p.0, p.1).value
  }

  /** Looking a pair of distinct selected keys up, in either order, finds
      exactly their classification. */
  lemma PairLookup(table: seq<NormalAspect>, points: Table<real>, keys: seq<string>, x: string, y: string)
    requires x in keys && y in keys && x != y
    ensures Canon(x, y) in PairAspects(table, points, keys) <==> PairClass(table, points, x, y).Some?
    ensures Canon(x, y) in PairAspects(table, points, keys) ==>
              PairAspects(table, points, keys)[Canon(x, y)] == PairClass(table, points, x, y).value
  {
    var i :| 0 <= i < |keys| && keys[i] == x;
    var j :| 0 <= j < |keys| && keys[j] == y;
    CanonSymmetric(x, y);
    if i < j {
      assert Canon(keys[i], keys[j]) in KeyPairs(keys);
    } else {
      assert Canon(keys[j], keys[i]) in KeyPairs(keys);
    }
    PairClassSymmetric(table, points, x, y);
  }

  // ---------------------------------------------------------------------------
  // Aspect rows
  // ---------------------------------------------------------------------------

  /** One result row of `compute` (point summaries left out). */
  datatype AspectRow = AspectRow(
    baseKey: string, otherKey: string, aspectType: string, angle: real,
    orb: real, angleDifference: real, icon: string)

  function RowOf(table: seq<NormalAspect>, points: Table<real>, a: string, b: string): (r: Option<AspectRow>)
    ensures r.Some? <==> PairClass(table, points, a, b).Some?
    ensures r.Some? ==> r.value.baseKey == a && r.value.otherKey == b
    ensures r.Some? ==> r.value.orb == PairClass(table, points, a, b).value.orb
                        && r.value.aspectType == PairClass(table, points, a, b).value.kind
  {
    match PairClass(table, points, a, b)
    case None => None
    case Some(info) => Some(AspectRow(a, b, info.kind, info.angle, info.orb, info.difference, info.icon))
  }

  /** The rows of `keys[i]` with each later key from position `j` on. */
  function RowsWith(table: seq<NormalAspect>, points: Table<real>, keys: seq<string>, i: nat, j: nat)
    : (rows: seq<AspectRow>)
    requires i < |keys| && i < j <= |keys|
    ensures forall r :: r in rows ==> r.baseKey == keys[i] && r.otherKey in keys[j..]
    ensures forall r :: r in rows ==> RowOf(table, points, r.baseKey, r.otherKey) == Some(r)
    ensures Distinct(keys) ==> Distinct(rows)
    decreases |keys| - j
  {
    if j == |keys| then []
    else
      var rest := RowsWith(table, points, keys, i, j + 1);
      assert forall r :: r in rest ==> r.otherKey in keys[j..] by {
        forall r | r in rest ensures r.otherKey in keys[j..] {
          var m :| j + 1 <= m < |keys| && keys[m] == r.otherKey;
          assert keys[j..][m - j] == r.otherKey;
        }
      }
      match RowOf(table, points, keys[i], keys[j])
      case None => rest
      case Some(r) =>
        assert r.otherKey in keys[j..] by { assert keys[j..][0] == keys[j]; }
        assert Distinct(keys) ==> r !in rest;
        [r] + rest
  }

  /** The rows of `keys[i]` followed by the rows of later base keys: every
      row joins two positions from `i` on, and no row repeats. */
  lemma JoinRows(keys: seq<string>, i: nat, now: seq<AspectRow>, later: seq<AspectRow>)
    requires i < |keys|
    requires forall r :: r in now ==> r.baseKey == keys[i] && r.otherKey in keys[i + 1..]
    requires forall r :: r in later ==> exists p, q :: i + 1 <= p < q < |keys| && keys[p] == r.baseKey && keys[q] == r.otherKey
    requires Distinct(keys) ==> Distinct(now) && Distinct(later)
    ensures forall r :: r in now + later ==> r.baseKey in keys[i..]
    ensures forall r :: r in now + later ==> exists p, q :: i <= p < q < |keys| && keys[p] == r.baseKey && keys[q] == r.otherKey
    ensures Distinct(keys) ==> Distinct(now + later)
  {
    forall r | r in now + later
      ensures r.baseKey in keys[i..]
      ensures exists p, q :: i <= p < q < |keys| && keys[p] == r.baseKey && keys[q] == r.otherKey
    {
      if r in now {
        var m :| 0 <= m < |keys[i + 1..]| && keys[i + 1..][m] == r.otherKey;
        assert keys[i + 1 + m] == r.otherKey;
        assert keys[i..][0] == keys[i];
      } else {
        var p, q :| i + 1 <= p < q < |keys| && keys[p] == r.baseKey && keys[q] == r.otherKey;
        assert keys[i..][p - i] == r.baseKey;
      }
    }
    if Distinct(keys) {
      forall a, b | 0 <= a < b < |now + later|
        ensures (now + later)[a] != (now + later)[b]
      {
        if a < |now| && b >= |now| {
          var r := (now + later)[b];
          assert r in later;
          var p, q :| i + 1 <= p < q < |keys| && keys[p] == r.baseKey && keys[q] == r.otherKey;
          assert (now + later)[a] in now;
        }
      }
    }
  }

  /** The rows of every pair of positions `i' < j'` with `i' >= i`, in the
      order of the nested loops. */
  function RowsFrom(table: seq<NormalAspect>, points: Table<real>, keys: seq<string>, i: nat)
    : (rows: seq<AspectRow>)
    requires i <= |keys|
    ensures forall r :: r in rows ==> r.baseKey in keys[i..] && RowOf(table, points, r.baseKey, r.otherKey) == Some(r)
    ensures forall r :: r in rows ==> exists p, q :: i <= p < q < |keys| && keys[p] == r.baseKey && keys[q] == r.otherKey
    ensures Distinct(keys) ==> Distinct(rows)
    decreases |keys| - i
  {
    if i == |keys| then []
    else
      var now := RowsWith(table, points, keys, i, i + 1);
      var later := RowsFrom(table, points, keys, i + 1);
      JoinRows(keys, i, now, later);
      now + later
  }

  /** `compute`: every aspect among the selected points, sorted by rounded orb;
      rows of equal orb keep the order of the nested loops. */
  function Compute(table: seq<NormalAspect>, subject: Table<PyValue>, active: seq<string>): (rows: seq<AspectRow>)
    requires subject.Valid()
    ensures SortedBy(rows, (r: AspectRow) => r.orb)
  {
    var points := ExtractPoints(subject);
    var keys := ResolveKeys(points, ActiveFrom(subject, active));
    SortBy(RowsFrom(table, points, keys, 0), (r: AspectRow) => r.orb)
  }

  /** The selected keys `compute` and `compute_patterns` work on. */
  function SelectedKeys(subject: Table<PyValue>, active: seq<string>): (keys: seq<string>)
    requires subject.Valid()
    ensures Distinct(keys)
    ensures forall k :: k in keys ==> k in ExtractPoints(subject).vals
  {
    ResolveKeys(ExtractPoints(subject), ActiveFrom(subject, active))
  }

  /** Each row of `compute` pairs a selected key with a later selected key and
      carries exactly their classification. */
  lemma ComputeSound(table: seq<NormalAspect>, subject: Table<PyValue>, active: seq<string>, r: AspectRow)
    requires subject.Valid()
    requires r in Compute(table, subject, active)
    ensures exists p, q :: 0 <= p < q < |SelectedKeys(subject, active)|
              && SelectedKeys(subject, active)[p] == r.baseKey && SelectedKeys(subject, active)[q] == r.otherKey
    ensures RowOf(table, ExtractPoints(subject), r.baseKey, r.otherKey) == Some(r)
  {
    var points := ExtractPoints(subject);
    var raw := RowsFrom(table, points, SelectedKeys(subject, active), 0);
    assert r in multiset(raw);
  }

  /** Every aspect between a selected key and a later one gets a row. */
  lemma ComputeComplete(table: seq<NormalAspect>, subject: Table<PyValue>, active: seq<string>, p: nat, q: nat)
    requires subject.Valid()
    requires p < q < |SelectedKeys(subject, active)|
    requires RowOf(table, ExtractPoints(subject), SelectedKeys(subject, active)[p], SelectedKeys(subject, active)[q]).Some?
    ensures RowOf(table, ExtractPoints(subject), SelectedKeys(subject, active)[p], SelectedKeys(subject, active)[q]).value
            in Compute(table, subject, active)
  {
    var points := ExtractPoints(subject);
    var keys := SelectedKeys(subject, active);
    var r := RowOf(table, points, keys[p], keys[q]).value;
    RowsCover(table, points, keys, 0, p, q);
    assert r in multiset(RowsFrom(table, points, keys, 0));
  }

  lemma {:induction false} RowsWithCover(table: seq<NormalAspect>, points: Table<real>, keys: seq<string>, i: nat, j: nat, q: nat)
    requires i < |keys| && i < j <= q < |keys|
    requires RowOf(table, points, keys[i], keys[q]).Some?
    ensures RowOf(table, points, keys[i], keys[q]).value in RowsWith(table, points, keys, i, j)
    decreases q - j
  {
    var r := RowOf(table, points, keys[i], keys[q]).value;
    var rest := RowsWith(table, points, keys, i, j + 1);
    if j < q {
      RowsWithCover(table, points, keys, i, j + 1, q);
      assert r in rest;
      match RowOf(table, points, keys[i], keys[j])
      case None =>
        assert RowsWith(table, points, keys, i, j) == rest;
      case Some(x) =>
        assert RowsWith(table, points, keys, i, j) == [x] + rest;
    } else {
      assert RowsWith(table, points, keys, i, j) == [r] + rest;
    }
  }

  lemma {:induction false} RowsCover(table: seq<NormalAspect>, points: Table<real>, keys: seq<string>, i: nat, p: nat, q: nat)
    requires i <= p < q < |keys|
    requires RowOf(table, points, keys[p], keys[q]).Some?
    ensures RowOf(table, points, keys[p], keys[q]).value in RowsFrom(table, points, keys, i)
    decreases p - i
  {
    var r := RowOf(table, points, keys[p], keys[q]).value;
    assert RowsFrom(table, points, keys, i)
        == RowsWith(table, points, keys, i, i + 1) + RowsFrom(table, points, keys, i + 1);
    if i < p {
      RowsCover(table, points, keys, i + 1, p, q);
      assert r in RowsFrom(table, points, keys, i + 1);
    } else {
      RowsWithCover(table, points, keys, i, i + 1, q);
      assert r in RowsWith(table, points, keys, i, i + 1);
    }
  }

  /** No unordered pair of points is reported twice, in either orientation. */
  lemma ComputeOnePerPair(table: seq<NormalAspect>, subject: Table<PyValue>, active: seq<string>, a: nat, b: nat)
    requires subject.Valid()
    requires a < b < |Compute(table, subject, active)|
    ensures {Compute(table, subject, active)[a].baseKey, Compute(table, subject, active)[a].otherKey}
         != {Compute(table, subject, active)[b].baseKey, Compute(table, subject, active)[b].otherKey}
  {
    var points := ExtractPoints(subject);
    var keys := SelectedKeys(subject, active);
    var raw := RowsFrom(table, points, keys, 0);
    var rows := Compute(table, subject, active);
    DistinctPermutation(raw, rows);
    var r1, r2 := rows[a], rows[b];
    ComputeSound(table, subject, active, r1);
    ComputeSound(table, subject, active, r2);
    var p1, q1 :| 0 <= p1 < q1 < |keys| && keys[p1] == r1.baseKey && keys[q1] == r1.otherKey;
    var p2, q2 :| 0 <= p2 < q2 < |keys| && keys[p2] == r2.baseKey && keys[q2] == r2.otherKey;
  }

  /** Sorting by orb is stable: rows with the same orb keep the loop order. */
  lemma ComputeStable(table: seq<NormalAspect>, subject: Table<PyValue>, active: seq<string>, v: real)
    requires subject.Valid()
    ensures WithKey(Compute(table, subject, active), (r: AspectRow) => r.orb, v)
         == WithKey(RowsFrom(table, ExtractPoints(subject), SelectedKeys(subject, active), 0), (r: AspectRow) => r.orb, v)
  {
    SortByStable(RowsFrom(table, ExtractPoints(subject), SelectedKeys(subject, active), 0), (r: AspectRow) => r.orb, v);
  }
}
