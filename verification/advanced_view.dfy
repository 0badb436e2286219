/** The data side of the advanced view: partitioning a chart object into
    points and houses, adapting aspect rows from the many payload shapes,
    choosing the major-aspect list, the aspect matrix (pair keys and cell
    placement), grouping the detected patterns, and the fallback and key
    filter of the structured view. `normalizePointKey`, `computeAspects` and
    `resolveActivePointKeys` are not defined in the shared scripts, so the
    first is a parameter and the other two's results are inputs. */
module AdvancedView {
  import opened Wrappers
  import opened Text
  import opened Sorting
  import opened Tables
  import Labels
  import ClientRender

  // ---------------------------------------------------------------------------
  // collectPoints
  // ---------------------------------------------------------------------------

  /** A property value of a chart object: an object with its `point_type`
      ("" when it has none) and `name`, or anything else. */
  datatype ChartValue = ChartObject(pointType: string, name: string) | ChartOther

  const PointType: string := "AstrologicalPoint"
  const HouseType: string := "House"

  predicate HasType(obj: Table<ChartValue>, k: string, t: string) {
    k in obj.vals && obj.vals[k].ChartObject? && obj.vals[k].pointType == t
  }

  function TypeTest(obj: Table<ChartValue>, t: string): string -> bool {
    k => HasType(obj, k, t)
  }

  /** `collectPoints(obj)`: the entries typed as astrological points, and the
      entries typed as houses, each in the object's key order. */
  function CollectPoints(obj: Table<ChartValue>): (r: (Table<ChartValue>, Table<ChartValue>))
    requires obj.Valid()
    ensures r.0.Valid() && r.1.Valid()
    ensures forall k :: k in r.0.vals <==> HasType(obj, k, PointType)
    ensures forall k :: k in r.1.vals <==> HasType(obj, k, HouseType)
    ensures forall k :: k in r.0.vals ==> k in obj.vals && r.0.vals[k] == obj.vals[k]
    ensures forall k :: k in r.1.vals ==> k in obj.vals && r.1.vals[k] == obj.vals[k]
    ensures r.0.keys == Filter(obj.keys, TypeTest(obj, PointType))
    ensures r.1.keys == Filter(obj.keys, TypeTest(obj, HouseType))
  {
    (Select(obj, TypeTest(obj, PointType)), Select(obj, TypeTest(obj, HouseType)))
  }

  /** Every entry lands in at most one of the two parts, and an entry that
      lands in neither is not typed as a point or a house. */
  lemma CollectPointsPartition(obj: Table<ChartValue>, k: string)
    requires obj.Valid()
    ensures !(k in CollectPoints(obj).0.vals && k in CollectPoints(obj).1.vals)
    ensures k in obj.vals && k !in CollectPoints(obj).0.vals && k !in CollectPoints(obj).1.vals ==>
      !obj.vals[k].ChartObject? || (obj.vals[k].pointType != PointType && obj.vals[k].pointType != HouseType)
  {
  }

  // ---------------------------------------------------------------------------
  // normalizeAspectRows
  // ---------------------------------------------------------------------------

  /** An aspect record as the advanced view reads it: the values of the
      alternative names of each field in the order they are tried ("" when
      missing), and the `orb_value` and `orb` fields. */
  datatype AdvRawAspect = AdvRawAspect(
    baseNames: seq<string>, otherNames: seq<string>, typeNames: seq<string>,
    orbValue: ClientRender.JsField, orb: ClientRender.JsField)

  /** A normalised aspect row (the point objects looked up for display are
      left out). */
  datatype AdvRow = AdvRow(baseKey: string, otherKey: string, name: string, icon: string, orb: Option<real>)

  const Star: string := "\U{2736}"

  /** `ASPECT_ICON_MAP[type] || "✶"`. */
  function AspectIcon(name: string): (r: string)
    ensures name in Labels.AspectIconMap ==> r == Labels.AspectIconMap[name]
    ensures name !in Labels.AspectIconMap ==> r == Star
  {
    if name in Labels.AspectIconMap then Labels.AspectIconMap[name] else Star
  }

  /** The icon of an aspect named as in the client table is that aspect's icon. */
  lemma AspectIconOfTable(i: nat)
    requires i < |Labels.ClientAspects|
    ensures AspectIcon(Labels.ClientAspects[i].name) == Labels.ClientAspects[i].icon
  {
    Labels.AspectIconMapAgrees();
    assert Labels.ClientAspects[i] in Labels.ClientAspects;
  }

  /** `Number.parseFloat(x)` of a field, with `None` for `NaN`. */
  function ParseField(f: ClientRender.JsField): (r: Option<real>)
    ensures f.Num? ==> r == Some(f.x)
    ensures f.Absent? ==> r.None?
    ensures f.Str? ==> r == ParseFloat(f.s)
  {
    match f
    case Num(x) => Some(x)
    case Absent => None
    case Str(s) => ParseFloat(s)
  }

  /** The orb: a numeric `orb_value` as it is, otherwise `orb` parsed, where a
      parsed 0 or `NaN` becomes `null` (`None`). */
  function AdvOrb(orbValue: ClientRender.JsField, orb: ClientRender.JsField): (r: Option<real>)
    ensures orbValue.Num? ==> r == Some(orbValue.x)
    ensures !orbValue.Num? ==> r != Some(0.0)
    ensures !orbValue.Num? && ParseField(orb).Some? && ParseField(orb) != Some(0.0) ==> r == ParseField(orb)
    ensures !orbValue.Num? && r.Some? ==> r == ParseField(orb)
  {
    if orbValue.Num? then Some(orbValue.x)
    else
      match ParseField(orb)
      case Some(x) => if x == 0.0 then None else Some(x)
      case None => None
  }

  /** One record through the adapter: `None` when the base key, the other key
      or the type comes out empty. */
  function NormalizeAdvRow(a: AdvRawAspect, normKey: string -> string): (r: Option<AdvRow>)
    ensures r.Some? <==> (normKey(FirstTruthy(a.baseNames)) != "" && normKey(FirstTruthy(a.otherNames)) != ""
                          && FirstTruthy(a.typeNames) != "")
    ensures r.Some? ==> r.value.baseKey == normKey(FirstTruthy(a.baseNames))
    ensures r.Some? ==> r.value.otherKey == normKey(FirstTruthy(a.otherNames))
    ensures r.Some? ==> r.value.name == Lower(FirstTruthy(a.typeNames)) && r.value.icon == AspectIcon(r.value.name)
    ensures r.Some? ==> r.value.orb == AdvOrb(a.orbValue, a.orb)
  {
    var b := normKey(FirstTruthy(a.baseNames));
    var o := normKey(FirstTruthy(a.otherNames));
    var t := Lower(FirstTruthy(a.typeNames));
    if b == "" || o == "" || t == "" then None
    else Some(AdvRow(b, o, t, AspectIcon(t), AdvOrb(a.orbValue, a.orb)))
  }

  /** The adapter as a value. */
  function Adapter(normKey: string -> string): AdvRawAspect -> Option<AdvRow> {
    a => NormalizeAdvRow(a, normKey)
  }

  /** `normalizeAspectRows(aspectList, points)`: the adapted records, in
      their order, without the ones that cannot be resolved. */
  function NormalizeAspectRows(list: seq<AdvRawAspect>, normKey: string -> string): (rows: seq<AdvRow>)
    ensures |rows| <= |list|
    ensures forall r :: r in rows ==> r.baseKey != "" && r.otherKey != "" && r.name != ""
    ensures forall r :: r in rows <==> exists i :: 0 <= i < |list| && NormalizeAdvRow(list[i], normKey) == Some(r)
    ensures MapsKept(list, Adapter(normKey), rows)
  {
    if |list| == 0 then []
    else
      var rest := NormalizeAspectRows(list[1..], normKey);
      AdvRowsStep(list, normKey, rest);
      if NormalizeAdvRow(list[0], normKey).Some? then [NormalizeAdvRow(list[0], normKey).value] + rest else rest
  }

  /** One record in front of the tail's rows. */
  lemma AdvRowsStep(list: seq<AdvRawAspect>, normKey: string -> string, rest: seq<AdvRow>)
    requires |list| > 0 && |rest| <= |list| - 1 && MapsKept(list[1..], Adapter(normKey), rest)
    ensures var rows := if NormalizeAdvRow(list[0], normKey).Some? then [NormalizeAdvRow(list[0], normKey).value] + rest else rest;
            |rows| <= |list| && MapsKept(list, Adapter(normKey), rows)
            && (forall r :: r in rows <==> exists i :: 0 <= i < |list| && NormalizeAdvRow(list[i], normKey) == Some(r))
            && forall r :: r in rows ==> r.baseKey != "" && r.otherKey != "" && r.name != ""
  {
    var f := Adapter(normKey);
    var rows := if NormalizeAdvRow(list[0], normKey).Some? then [NormalizeAdvRow(list[0], normKey).value] + rest else rest;
    assert f(list[0]) == NormalizeAdvRow(list[0], normKey);
    KeptStep(list, f, rest);
    AdapterMembers(list, normKey, rows);
  }

  /** Membership through the adapter value is membership through the adapter. */
  lemma AdapterMembers(list: seq<AdvRawAspect>, normKey: string -> string, rows: seq<AdvRow>)
    requires forall r :: r in rows <==> exists i :: 0 <= i < |list| && Adapter(normKey)(list[i]) == Some(r)
    ensures forall r :: r in rows <==> exists i :: 0 <= i < |list| && NormalizeAdvRow(list[i], normKey) == Some(r)
    ensures forall r :: r in rows ==> r.baseKey != "" && r.otherKey != "" && r.name != ""
  {
    var f := Adapter(normKey);
    forall r | r in rows
      ensures exists i :: 0 <= i < |list| && NormalizeAdvRow(list[i], normKey) == Some(r)
    {
      var i :| 0 <= i < |list| && f(list[i]) == Some(r);
      assert NormalizeAdvRow(list[i], normKey) == Some(r);
    }
    forall r | exists i :: 0 <= i < |list| && NormalizeAdvRow(list[i], normKey) == Some(r)
      ensures r in rows
    {
      var i :| 0 <= i < |list| && NormalizeAdvRow(list[i], normKey) == Some(r);
      assert f(list[i]) == Some(r);
    }
  }

  /** An adapted row's type is lower case. */
  lemma AdaptedTypeLower(a: AdvRawAspect, normKey: string -> string, r: AdvRow)
    requires NormalizeAdvRow(a, normKey) == Some(r)
    ensures Lower(r.name) == r.name
  {
    var t := FirstTruthy(a.typeNames);
    assert r.name == Lower(t);
    forall j | 0 <= j < |r.name| ensures Lower(r.name)[j] == r.name[j] {
      assert r.name[j] == LowerChar(t[j]);
    }
  }

  /** The adapted type is lower case: adapting it again changes nothing. */
  lemma NormalizedTypeLower(list: seq<AdvRawAspect>, normKey: string -> string, r: AdvRow)
    requires r in NormalizeAspectRows(list, normKey)
    ensures Lower(r.name) == r.name
  {
    var i :| 0 <= i < |list| && NormalizeAdvRow(list[i], normKey) == Some(r);
    AdaptedTypeLower(list[i], normKey, r);
  }

  // ---------------------------------------------------------------------------
  // extractMajorAspects / extractNatalMajorAspects
  // ---------------------------------------------------------------------------

  /** The places a payload may carry a list of detected patterns; `None`
      where the value there is not an array. */
  datatype MajorSource<T> = MajorSource(
    major: Option<seq<T>>, snapshotMajor: Option<seq<T>>, subjectMajor: Option<seq<T>>,
    natalMajor: Option<seq<T>>, snapshotNatalMajor: Option<seq<T>>)

  /** `extractMajorAspects(payload)`: the first array among the payload's
      own list, the snapshot's and the subject's; [] for a missing payload
      or when there is none. */
  function ExtractMajorAspects<T>(payload: Option<MajorSource<T>>): (r: seq<T>)
    ensures payload.None? ==> r == []
    ensures payload.Some? && payload.value.major.Some? ==> r == payload.value.major.value
    ensures payload.Some? && payload.value.major.None? && payload.value.snapshotMajor.Some? ==>
      r == payload.value.snapshotMajor.value
    ensures r != [] ==> payload.Some? && (Some(r) == payload.value.major || Some(r) == payload.value.snapshotMajor
                                          || Some(r) == payload.value.subjectMajor)
  {
    match payload
    case None => []
    case Some(p) =>
      if p.major.Some? then p.major.value
      else if p.snapshotMajor.Some? then p.snapshotMajor.value
      else if p.subjectMajor.Some? then p.subjectMajor.value
      else []
  }

  /** `extractNatalMajorAspects(payload)`: the payload's natal list, else the
      snapshot's, else []. */
  function ExtractNatalMajorAspects<T>(payload: Option<MajorSource<T>>): (r: seq<T>)
    ensures payload.None? ==> r == []
    ensures payload.Some? && payload.value.natalMajor.Some? ==> r == payload.value.natalMajor.value
    ensures payload.Some? && payload.value.natalMajor.None? && payload.value.snapshotNatalMajor.Some? ==>
      r == payload.value.snapshotNatalMajor.value
    ensures payload.Some? && payload.value.natalMajor.None? && payload.value.snapshotNatalMajor.None? ==> r == []
    ensures r != [] ==> payload.Some? && (Some(r) == payload.value.natalMajor || Some(r) == payload.value.snapshotNatalMajor)
  {
    match payload
    case None => []
    case Some(p) =>
      if p.natalMajor.Some? then p.natalMajor.value
      else if p.snapshotNatalMajor.Some? then p.snapshotNatalMajor.value
      else []
  }

  /** The subject's list is used only when neither the payload nor the
      snapshot carries one, and the natal lists are never mixed in. */
  lemma MajorAspectsPriority<T>(p: MajorSource<T>)
    ensures p.major.None? && p.snapshotMajor.None? && p.subjectMajor.Some? ==>
      ExtractMajorAspects(Some(p)) == p.subjectMajor.value
    ensures p.major.None? && p.snapshotMajor.None? && p.subjectMajor.None? ==> ExtractMajorAspects(Some(p)) == []
  {
  }

  /** The two extractors read disjoint places: the natal lists never change
      the pattern list, and the pattern lists never change the natal list. */
  lemma MajorListsSeparate<T>(p: MajorSource<T>, q: MajorSource<T>)
    ensures p.major == q.major && p.snapshotMajor == q.snapshotMajor && p.subjectMajor == q.subjectMajor ==>
      ExtractMajorAspects(Some(p)) == ExtractMajorAspects(Some(q))
    ensures p.natalMajor == q.natalMajor && p.snapshotNatalMajor == q.snapshotNatalMajor ==>
      ExtractNatalMajorAspects(Some(p)) == ExtractNatalMajorAspects(Some(q))
  {
  }

  // ---------------------------------------------------------------------------
  // renderAspectMatrix
  // ---------------------------------------------------------------------------

  /** `norm(a, b)`: the two keys in ascending order joined by "__". */
  function PairKey(a: string, b: string): (k: string)
    ensures |k| == |a| + |b| + 2
  {
    if LexLess(a, b) then a + "__" + b else b + "__" + a
  }

  /** The pair key does not depend on the order of the two keys. */
  lemma PairKeySymmetric(a: string, b: string)
    ensures PairKey(a, b) == PairKey(b, a)
  {
    LexTotal(a, b);
    LexAsymmetric(a, b);
  }

  /** The pair key is built from the smaller key first. */
  lemma PairKeyOrdered(a: string, b: string)
    ensures LexLess(a, b) ==> PairKey(a, b)[..|a|] == a && PairKey(a, b)[|a| + 2..] == b
    ensures !LexLess(a, b) ==> PairKey(a, b)[..|b|] == b && PairKey(a, b)[|b| + 2..] == a
  {
  }

  /** Keys that contain underscores can share a pair key: "a__b" with "c" and
      "a" with "b__c" both give "a__b__c". */
  lemma PairKeyCollision()
    ensures PairKey("a__b", "c") == PairKey("a", "b__c")
  {
    assert LexLess("a__b", "c");
    assert LexLess("a", "b__c");
  }

  /** What a matrix cell shows of an aspect. */
  datatype Hit = Hit(icon: string, name: string, orb: Option<real>)

  /** `{ icon: aspect.icon || "✶", name: aspect.name || "", orb }`. */
  function HitOf(a: AdvRow): (h: Hit)
    ensures h.icon != "" && h.name == a.name && h.orb == a.orb
  {
    Hit(if a.icon != "" then a.icon else Star, a.name, a.orb)
  }

  function RowKey(a: AdvRow): string {
    PairKey(a.baseKey, a.otherKey)
  }

  /** No later row has the same pair key as row `i`. */
  predicate LastForPair(aspects: seq<AdvRow>, i: int)
    requires 0 <= i < |aspects|
  {
    forall j :: i < j < |aspects| ==> RowKey(aspects[j]) != RowKey(aspects[i])
  }

  /** The `aspectMap` the matrix builds: every pair key of a row, holding the
      hit of the last row with that key. */
  function HitMap(aspects: seq<AdvRow>): (m: map<string, Hit>)
    ensures forall k :: k in m ==> exists a :: a in aspects && RowKey(a) == k
    ensures |aspects| > 0 ==> RowKey(aspects[|aspects| - 1]) in m
  {
    if |aspects| == 0 then map[]
    else
      var init := aspects[..|aspects| - 1];
      var last := aspects[|aspects| - 1];
      assert forall a :: a in init ==> a in aspects;
      HitMap(init)[RowKey(last) := HitOf(last)]
  }

  /** The map holds the hit of the last row for each pair key. */
  lemma {:induction false} HitMapLast(aspects: seq<AdvRow>, i: nat)
    requires i < |aspects| && LastForPair(aspects, i)
    ensures RowKey(aspects[i]) in HitMap(aspects) && HitMap(aspects)[RowKey(aspects[i])] == HitOf(aspects[i])
    decreases |aspects|
  {
    var init := aspects[..|aspects| - 1];
    if i < |aspects| - 1 {
      assert aspects[i] == init[i];
      assert LastForPair(init, i) by {
        forall j | i < j < |init| ensures RowKey(init[j]) != RowKey(init[i]) {
          assert init[j] == aspects[j];
        }
      }
      HitMapLast(init, i);
    }
  }

  /** Every row's pair key is in the map. */
  lemma {:induction false} HitMapHasRow(aspects: seq<AdvRow>, i: nat)
    requires i < |aspects|
    ensures RowKey(aspects[i]) in HitMap(aspects)
    decreases |aspects|
  {
    var init := aspects[..|aspects| - 1];
    if i < |aspects| - 1 {
      assert aspects[i] == init[i];
      HitMapHasRow(init, i);
    }
  }

  /** One cell of the matrix. */
  datatype Cell = Diagonal(pointIcon: string) | EmptyCell | IconCell(hit: Hit) | OrbCell(hit: Hit)

  /** The cell in row `i`, column `j`: the point's icon on the diagonal, the
      aspect's icon below it, its orb above it, and nothing when the pair has
      no aspect. */
  function MatrixCell(keys: seq<string>, hits: map<string, Hit>, pointIcon: string -> string, i: nat, j: nat): (c: Cell)
    requires i < |keys| && j < |keys|
    ensures c.Diagonal? <==> i == j
    ensures i != j ==> (c.EmptyCell? <==> PairKey(keys[i], keys[j]) !in hits)
    ensures j < i ==> !c.OrbCell?
    ensures i < j ==> !c.IconCell?
  {
    if i == j then Diagonal(pointIcon(keys[i]))
    else
      var pk := PairKey(keys[i], keys[j]);
      if pk !in hits then EmptyCell
      else if j < i then IconCell(hits[pk])
      else OrbCell(hits[pk])
  }

  /** `renderAspectMatrix(points, keys, aspects)`: nothing without keys or
      aspects, otherwise a square of cells, one row and one column per key. */
  function AspectMatrix(keys: seq<string>, aspects: seq<AdvRow>, pointIcon: string -> string): (r: Option<seq<seq<Cell>>>)
    ensures r.None? <==> |keys| == 0 || |aspects| == 0
    ensures r.Some? ==> |r.value| == |keys| && forall i :: 0 <= i < |keys| ==> |r.value[i]| == |keys|
    ensures r.Some? ==> forall i, j :: 0 <= i < |keys| && 0 <= j < |keys| ==>
      r.value[i][j] == MatrixCell(keys, HitMap(aspects), pointIcon, i, j)
  {
    if |keys| == 0 || |aspects| == 0 then None
    else
      var hits := HitMap(aspects);
      Some(seq(|keys|, i requires 0 <= i < |keys| =>
        seq(|keys|, j requires 0 <= j < |keys| => MatrixCell(keys, hits, pointIcon, i, j))))
  }

  /** Mirror cells show the same aspect: the icon below the diagonal and the
      orb above it come from one hit, and they are empty together. */
  lemma MatrixMirror(keys: seq<string>, hits: map<string, Hit>, pointIcon: string -> string, i: nat, j: nat)
    requires i < |keys| && j < |keys| && j < i
    ensures MatrixCell(keys, hits, pointIcon, i, j).EmptyCell? <==> MatrixCell(keys, hits, pointIcon, j, i).EmptyCell?
    ensures MatrixCell(keys, hits, pointIcon, i, j).IconCell? ==>
      MatrixCell(keys, hits, pointIcon, j, i) == OrbCell(MatrixCell(keys, hits, pointIcon, i, j).hit)
  {
    PairKeySymmetric(keys[i], keys[j]);
  }

  /** An aspect between two different matrix keys shows in both of its cells,
      and the last row for that pair is the one shown. */
  lemma MatrixShowsAspect(keys: seq<string>, aspects: seq<AdvRow>, pointIcon: string -> string, i: nat, j: nat, n: nat)
    requires i < |keys| && j < |keys| && i != j && n < |aspects|
    requires keys[i] == aspects[n].baseKey && keys[j] == aspects[n].otherKey
    requires LastForPair(aspects, n)
    ensures var c := MatrixCell(keys, HitMap(aspects), pointIcon, i, j);
      (c.IconCell? || c.OrbCell?) && c.hit == HitOf(aspects[n])
    ensures var c := MatrixCell(keys, HitMap(aspects), pointIcon, j, i);
      (c.IconCell? || c.OrbCell?) && c.hit == HitOf(aspects[n])
  {
    PairKeySymmetric(keys[i], keys[j]);
    HitMapLast(aspects, n);
  }

  // ---------------------------------------------------------------------------
  // renderMajorAspectsList: grouping
  // ---------------------------------------------------------------------------

  /** A detected pattern: its `id` and `name` ("" when missing) and the length
      of its `points` list (0 when missing). */
  datatype Pattern = Pattern(id: string, name: string, pointCount: nat)

  /** `p.id || p.name || "pattern"`. */
  function GroupKey(p: Pattern): (k: string)
    ensures k != ""
    ensures k == p.id || k == p.name || k == "pattern"
    ensures p.id != "" ==> k == p.id
    ensures p.id == "" && p.name != "" ==> k == p.name
    ensures p.id == "" && p.name == "" ==> k == "pattern"
  {
    if p.id != "" then p.id else if p.name != "" then p.name else "pattern"
  }

  /** The group key is `FirstTruthy` of the three candidates, in order. */
  lemma GroupKeyFirstTruthy(p: Pattern)
    ensures GroupKey(p) == FirstTruthy([p.id, p.name, "pattern"])
  {
    var candidates := [p.id, p.name, "pattern"];
    assert candidates[1..] == [p.name, "pattern"] && candidates[1..][1..] == ["pattern"];
    if p.id == "" && p.name == "" {
      assert FirstTruthy(["pattern"]) == "pattern";
      assert FirstTruthy([p.name, "pattern"]) == "pattern";
    }
  }

  /** The patterns with group key `k`, in their order. */
  function WithGroupKey(ps: seq<Pattern>, k: string): (r: seq<Pattern>)
    ensures forall p :: p in r <==> p in ps && GroupKey(p) == k
    ensures |r| <= |ps|
  {
    if |ps| == 0 then []
    else
      var init := ps[..|ps| - 1];
      var last := ps[|ps| - 1];
      assert forall p :: p in ps <==> p in init || p == last by {
        assert ps == init + [last];
      }
      WithGroupKey(init, k) + (if GroupKey(last) == k then [last] else [])
  }

  /** The `reduce` into `grouped`: one entry per group key in order of first
      appearance, holding that key's patterns in order. */
  function Group(ps: seq<Pattern>): (t: Table<seq<Pattern>>)
    ensures t.Valid()
  {
    if |ps| == 0 then EmptyTable()
    else
      var t := Group(ps[..|ps| - 1]);
      var k := GroupKey(ps[|ps| - 1]);
      t.Put(k, (if k in t.vals then t.vals[k] else []) + [ps[|ps| - 1]])
  }

  /** The groups are keyed by exactly the keys that occur, and each holds
      that key's patterns in order. */
  lemma {:induction false} GroupContents(ps: seq<Pattern>)
    ensures forall k :: k in Group(ps).vals <==> exists p :: p in ps && GroupKey(p) == k
    ensures forall k :: k in Group(ps).vals ==> Group(ps).vals[k] == WithGroupKey(ps, k) && |Group(ps).vals[k]| > 0
    decreases |ps|
  {
    if |ps| > 0 {
      var init := ps[..|ps| - 1];
      var last := ps[|ps| - 1];
      assert forall p :: p in ps <==> p in init || p == last by {
        assert ps == init + [last];
      }
      GroupContents(init);
      var t := Group(init);
      var k := GroupKey(last);
      if k !in t.vals {
        EmptyWithGroupKey(init, k);
      }
      forall k' | k' in Group(ps).vals ensures Group(ps).vals[k'] == WithGroupKey(ps, k') {
      }
    }
  }

  lemma EmptyWithGroupKey(ps: seq<Pattern>, k: string)
    requires forall p :: p in ps ==> GroupKey(p) != k
    ensures WithGroupKey(ps, k) == []
  {
    if WithGroupKey(ps, k) != [] {
      assert WithGroupKey(ps, k)[0] in WithGroupKey(ps, k);
    }
  }

  /** `Math.max(...counts, 0)`. */
  function MaxCount(g: seq<Pattern>): (m: nat)
    ensures forall p :: p in g ==> p.pointCount <= m
    ensures |g| > 0 ==> exists p :: p in g && p.pointCount == m
  {
    if |g| == 0 then 0
    else
      var rest := MaxCount(g[1..]);
      assert forall p :: p in g ==> p == g[0] || p in g[1..];
      if g[0].pointCount >= rest then g[0].pointCount else rest
  }

  /** The sort key: larger groups first. */
  function Descending(g: seq<Pattern>): real {
    -(MaxCount(g) as real)
  }

  /** `Object.values(grouped)`. */
  function Values<V>(t: Table<V>): (r: seq<V>)
    requires t.Valid()
    ensures |r| == |t.keys|
    ensures forall i :: 0 <= i < |t.keys| ==> t.keys[i] in t.vals && r[i] == t.vals[t.keys[i]]
  {
    assert forall i :: 0 <= i < |t.keys| ==> t.keys[i] in Elems(t.keys);
    seq(|t.keys|, i requires 0 <= i < |t.keys| && t.Valid() => t.vals[t.keys[i]])
  }

  /** A group as the list shows it: non-empty, every pattern of one key, and
      exactly the patterns with that key. */
  predicate IsGroup(ps: seq<Pattern>, g: seq<Pattern>) {
    |g| > 0 && g == WithGroupKey(ps, GroupKey(g[0]))
  }

  /** The groups of `renderMajorAspectsList`, sorted stably by their largest
      point count, largest first. */
  function GroupPatterns(ps: seq<Pattern>): (groups: seq<seq<Pattern>>)
    ensures forall i, j :: 0 <= i < j < |groups| ==> MaxCount(groups[i]) >= MaxCount(groups[j])
    ensures forall i :: 0 <= i < |groups| ==> |groups[i]| > 0 && IsGroup(ps, groups[i])
    ensures forall i, j :: 0 <= i < j < |groups| ==> GroupKey(groups[i][0]) != GroupKey(groups[j][0])
    ensures multiset(groups) == multiset(Values(Group(ps)))
  {
    var vs := Values(Group(ps));
    ValuesAreGroups(ps);
    var groups := SortBy(vs, Descending);
    SortedGroups(ps, vs, groups);
    groups
  }

  /** A sorted permutation of distinct groups lists distinct keys, largest
      groups first. */
  lemma SortedGroups(ps: seq<Pattern>, vs: seq<seq<Pattern>>, groups: seq<seq<Pattern>>)
    requires forall i :: 0 <= i < |vs| ==> IsGroup(ps, vs[i])
    requires Distinct(vs) && multiset(groups) == multiset(vs) && SortedBy(groups, Descending)
    ensures forall i, j :: 0 <= i < j < |groups| ==> MaxCount(groups[i]) >= MaxCount(groups[j])
    ensures forall i :: 0 <= i < |groups| ==> |groups[i]| > 0 && IsGroup(ps, groups[i])
    ensures forall i, j :: 0 <= i < j < |groups| ==> GroupKey(groups[i][0]) != GroupKey(groups[j][0])
  {
    SortedDescending(groups);
    DistinctPermutation(vs, groups);
    forall i | 0 <= i < |groups| ensures |groups[i]| > 0 && IsGroup(ps, groups[i]) {
      assert groups[i] in multiset(vs);
      var j :| 0 <= j < |vs| && vs[j] == groups[i];
    }
    GroupsOfDistinctKeys(ps, groups);
  }

  /** The grouped values are groups, and no two are the same. */
  lemma ValuesAreGroups(ps: seq<Pattern>)
    ensures forall i :: 0 <= i < |Values(Group(ps))| ==> IsGroup(ps, Values(Group(ps))[i])
    ensures Distinct(Values(Group(ps)))
  {
    var t := Group(ps);
    var vs := Values(t);
    GroupContents(ps);
    forall i | 0 <= i < |vs| ensures IsGroup(ps, vs[i]) {
      assert vs[i][0] in WithGroupKey(ps, t.keys[i]);
    }
    forall i, j | 0 <= i < j < |vs| ensures vs[i] != vs[j] {
      assert vs[i][0] in WithGroupKey(ps, t.keys[i]);
      assert vs[j][0] in WithGroupKey(ps, t.keys[j]);
    }
  }

  lemma SortedDescending(groups: seq<seq<Pattern>>)
    requires SortedBy(groups, Descending)
    ensures forall i, j :: 0 <= i < j < |groups| ==> MaxCount(groups[i]) >= MaxCount(groups[j])
  {
    forall i, j | 0 <= i < j < |groups| ensures MaxCount(groups[i]) >= MaxCount(groups[j]) {
      assert Descending(groups[i]) <= Descending(groups[j]);
    }
  }

  /** Distinct groups have distinct keys. */
  lemma GroupsOfDistinctKeys(ps: seq<Pattern>, groups: seq<seq<Pattern>>)
    requires Distinct(groups) && forall i :: 0 <= i < |groups| ==> |groups[i]| > 0 && IsGroup(ps, groups[i])
    ensures forall i, j :: 0 <= i < j < |groups| ==> GroupKey(groups[i][0]) != GroupKey(groups[j][0])
  {
    forall i, j | 0 <= i < j < |groups| ensures GroupKey(groups[i][0]) != GroupKey(groups[j][0]) {
      assert groups[i] in groups && groups[j] in groups;
    }
  }

  /** Every pattern is in exactly the group of its key. */
  lemma GroupPatternsComplete(ps: seq<Pattern>, p: Pattern)
    requires p in ps
    ensures exists g :: g in GroupPatterns(ps) && p in g && GroupKey(g[0]) == GroupKey(p)
  {
    var t := Group(ps);
    var k := GroupKey(p);
    GroupContents(ps);
    ValuesAreGroups(ps);
    assert k in t.vals;
    assert k in Elems(t.keys);
    var i :| 0 <= i < |t.keys| && t.keys[i] == k;
    var vs := Values(t);
    var g := vs[i];
    assert g in multiset(GroupPatterns(ps));
    assert g in GroupPatterns(ps);
    assert IsGroup(ps, g);
    assert GroupKey(g[0]) == k;
  }

  /** Groups of equal size keep the order of their keys' first appearance. */
  lemma GroupPatternsStable(ps: seq<Pattern>, v: real)
    ensures WithKey(GroupPatterns(ps), Descending, v) == WithKey(Values(Group(ps)), Descending, v)
  {
    SortByStable(Values(Group(ps)), Descending, v);
  }

  // ---------------------------------------------------------------------------
  // renderStructured: aspect source and matrix keys
  // ---------------------------------------------------------------------------

  /** The aspects the structured view shows: the computed ones, or the
      payload's adapted rows when none were computed. */
  function StructuredAspects(computed: seq<AdvRow>, payload: seq<AdvRawAspect>, normKey: string -> string): (r: seq<AdvRow>)
    ensures |computed| > 0 ==> r == computed
    ensures |computed| == 0 ==> forall a :: a in r <==> exists i :: 0 <= i < |payload| && NormalizeAdvRow(payload[i], normKey) == Some(a)
  {
    if |computed| > 0 then computed else NormalizeAspectRows(payload, normKey)
  }

  /** The key occurs as either end of some aspect. */
  predicate InSomeAspect(aspects: seq<AdvRow>, k: string) {
    exists a :: a in aspects && (a.baseKey == k || a.otherKey == k)
  }

  function OccursTest(aspects: seq<AdvRow>): string -> bool {
    k => InSomeAspect(aspects, k)
  }

  /** `matrixKeys`: the active keys, in order, that occur in some aspect. */
  function MatrixKeys(filtered: seq<string>, aspects: seq<AdvRow>): (keys: seq<string>)
    ensures forall k :: k in keys <==> k in filtered && InSomeAspect(aspects, k)
    ensures Distinct(filtered) ==> Distinct(keys)
    ensures keys == Filter(filtered, OccursTest(aspects))
  {
    Filter(filtered, OccursTest(aspects))
  }

  /** Every aspect between two distinct active keys has a row and a column of
      the matrix, so it shows in the matrix. */
  lemma MatrixKeysCoverAspects(filtered: seq<string>, aspects: seq<AdvRow>, n: nat)
    requires n < |aspects| && aspects[n].baseKey in filtered && aspects[n].otherKey in filtered
    ensures aspects[n].baseKey in MatrixKeys(filtered, aspects) && aspects[n].otherKey in MatrixKeys(filtered, aspects)
  {
    assert aspects[n] in aspects;
  }
}
