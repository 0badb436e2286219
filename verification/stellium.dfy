/** The stellium matcher: the selected points in order of position, followed
    by the same points a full turn later, are swept by a window at most 30
    degrees wide; every window holding three or more keys is a stellium. */
module Stelliums {
  import opened Wrappers
  import opened Sorting
  import opened Tables
  import opened Combinations
  import opened Aspects
  import opened Patterns

  /** A key with the position the sweep uses. */
  datatype Placed = Placed(key: string, pos: real)

  function PosKey(p: Placed): real {
    p.pos
  }

  /** The selected points in order of position (stable for equal positions). */
  function Ordered(points: Table<real>, keys: seq<string>): (o: seq<Placed>)
    ensures |o| == |keys| && SortedBy(o, PosKey)
    ensures forall i :: 0 <= i < |o| ==> (o[i].key in keys && o[i].pos == Pos(points, o[i].key))
  {
    var placed := seq(|keys|, i requires 0 <= i < |keys| => Placed(keys[i], Pos(points, keys[i])));
    var o := SortBy(placed, PosKey);
    forall i | 0 <= i < |o| ensures o[i].key in keys && o[i].pos == Pos(points, o[i].key) {
      assert o[i] in multiset(placed);
      assert o[i] in placed;
    }
    o
  }

  /** `ordered` followed by each entry a full turn later. */
  function Extended(points: Table<real>, keys: seq<string>): (ext: seq<Placed>)
    ensures |ext| == 2 * |keys|
    ensures forall i :: 0 <= i < |ext| ==> ext[i].key in keys
    ensures forall i :: 0 <= i < |keys| ==> ext[i].pos == Pos(points, ext[i].key)
    ensures forall i :: |keys| <= i < |ext| ==> ext[i].pos == Pos(points, ext[i].key) + 360.0
  {
    var o := Ordered(points, keys);
    o + seq(|o|, i requires 0 <= i < |o| => Placed(o[i].key, o[i].pos + 360.0))
  }

  /** With every position in [0, 360) the extended sequence is in order too. */
  lemma ExtendedSorted(points: Table<real>, keys: seq<string>)
    requires forall k :: k in keys ==> 0.0 <= Pos(points, k) < 360.0
    ensures SortedBy(Extended(points, keys), PosKey)
  {
    var o := Ordered(points, keys);
    var ext := Extended(points, keys);
    var n := |keys|;
    forall i, j | 0 <= i < j < |ext| ensures ext[i].pos <= ext[j].pos {
      if j < n {
        assert ext[i] == o[i] && ext[j] == o[j];
      } else if i >= n {
        assert ext[i].pos == o[i - n].pos + 360.0 && ext[j].pos == o[j - n].pos + 360.0;
      } else {
        assert ext[i].key in keys && ext[j].key in keys;
      }
    }
  }

  /** The `while` loop moving the window's start: the first index from `start`
      on whose position is within 30 degrees of `ext[end]`. */
  function Advance(ext: seq<Placed>, start: nat, end: nat): (s: nat)
    requires start <= end < |ext|
    ensures start <= s <= end
    ensures ext[end].pos - ext[s].pos <= 30.0
    ensures forall i :: start <= i < s ==> ext[end].pos - ext[i].pos > 30.0
    decreases end - start
  {
    if ext[end].pos - ext[start].pos > 30.0 then Advance(ext, start + 1, end) else start
  }

  function WindowKeys(w: seq<Placed>): (ks: seq<string>)
    ensures |ks| == |w| && forall i :: 0 <= i < |w| ==> ks[i] == w[i].key
  {
    seq(|w|, i requires 0 <= i < |w| => w[i].key)
  }

  /** The conjunction links among the given pairs, in order. */
  function ConjunctionLinks(pm: PairMap, prs: seq<seq<string>>): (ls: seq<Link>)
    requires forall pr :: pr in prs ==> |pr| == 2
    ensures forall l :: l in ls ==> (LinkAgrees(pm, l) && l.kind == "conjunction"
              && exists pr :: pr in prs && l.pair == Canon(pr[0], pr[1]))
  {
    if |prs| == 0 then []
    else
      assert prs[0] in prs;
      var rest := ConjunctionLinks(pm, prs[1..]);
      assert forall l :: l in rest ==> exists pr :: pr in prs && l.pair == Canon(pr[0], pr[1]) by {
        forall l | l in rest ensures exists pr :: pr in prs && l.pair == Canon(pr[0], pr[1]) {
          var pr :| pr in prs[1..] && l.pair == Canon(pr[0], pr[1]);
          assert pr in prs;
        }
      }
      if Has(pm, prs[0][0], prs[0][1], "conjunction") then [MakeLink(pm, prs[0][0], prs[0][1])] + rest
      else rest
  }

  /** Every conjunction among the pairs is linked. */
  lemma {:induction false} ConjunctionLinksComplete(pm: PairMap, prs: seq<seq<string>>, pr: seq<string>)
    requires forall q :: q in prs ==> |q| == 2
    requires pr in prs && Has(pm, pr[0], pr[1], "conjunction")
    ensures MakeLink(pm, pr[0], pr[1]) in ConjunctionLinks(pm, prs)
    decreases |prs|
  {
    if prs[0] != pr {
      assert pr in prs[1..];
      ConjunctionLinksComplete(pm, prs[1..], pr);
    }
  }

  /** One window: its keys, when there are three or more, sorted, with the
      conjunctions among them. */
  function StelliumAt(pm: PairMap, w: seq<Placed>): (r: Option<Pattern>)
    ensures r.Some? <==> |Elems(WindowKeys(w))| >= 3
    ensures r.Some? ==> (r.value.Stellium? && r.value.points == SortedSet(WindowKeys(w)))
    ensures r.Some? ==> r.value.links == ConjunctionLinks(pm, Combos(r.value.points, 2))
  {
    var u := SortedSet(WindowKeys(w));
    DistinctCard(u);
    if |u| < 3 then None else Some(Stellium(u, ConjunctionLinks(pm, Combos(u, 2))))
  }

  lemma StelliumAtWellFormed(pm: PairMap, w: seq<Placed>)
    requires StelliumAt(pm, w).Some?
    ensures WellFormed(StelliumAt(pm, w).value, pm)
  {
    var p := StelliumAt(pm, w).value;
    var u := p.points;
    forall l | l in p.links ensures LinkFitsIn(pm, l, u, Kinds(p)) {
      var pr :| pr in Combos(u, 2) && l.pair == Canon(pr[0], pr[1]);
      SubseqDistinct(pr, u);
      assert pr[0] in pr && pr[1] in pr;
      SubseqElems(pr, u, pr[0]);
      SubseqElems(pr, u, pr[1]);
    }
  }

  /** The window `ext[s..e]` (inclusive) is one the sweep looks at, and it
      yields `p`. */
  predicate FromWindow(pm: PairMap, ext: seq<Placed>, s: int, e: int, p: Pattern) {
    0 <= s <= e < |ext| && ext[e].pos - ext[s].pos <= 30.0 && StelliumAt(pm, ext[s..e + 1]) == Some(p)
  }

  /** `p` comes from some window the sweep looks at. */
  ghost predicate Windowed(pm: PairMap, ext: seq<Placed>, p: Pattern) {
    exists s, e :: FromWindow(pm, ext, s, e, p)
  }

  /** A pattern not seen before, in front of patterns new to both it and the
      seen sets, gives a list of patterns new to the seen sets, no two alike. */
  lemma ConsFresh(p: Pattern, rest: seq<Pattern>, seen: set<set<string>>)
    requires KeySet(p) !in seen
    requires forall i :: 0 <= i < |rest| ==> KeySet(rest[i]) !in seen + {KeySet(p)}
    requires forall i, j :: 0 <= i < j < |rest| ==> KeySet(rest[i]) != KeySet(rest[j])
    ensures forall i :: 0 <= i < |[p] + rest| ==> KeySet(([p] + rest)[i]) !in seen
    ensures forall i, j :: 0 <= i < j < |[p] + rest| ==> KeySet(([p] + rest)[i]) != KeySet(([p] + rest)[j])
  {
    forall i, j | 0 <= i < j < |[p] + rest|
      ensures KeySet(([p] + rest)[i]) != KeySet(([p] + rest)[j])
    {
      assert ([p] + rest)[j] == rest[j - 1];
      if i > 0 {
        assert ([p] + rest)[i] == rest[i - 1];
      }
    }
  }

  /** The sweep from window end `end` on, the window starting no earlier than
      `start`. */
  function Sweep(pm: PairMap, ext: seq<Placed>, start: nat, end: nat, seen: set<set<string>>)
    : (r: seq<Pattern>)
    requires start <= end <= |ext|
    ensures forall i :: 0 <= i < |r| ==> KeySet(r[i]) !in seen
    ensures forall i, j :: 0 <= i < j < |r| ==> KeySet(r[i]) != KeySet(r[j])
    ensures forall p :: p in r ==> Windowed(pm, ext, p)
    decreases |ext| - end
  {
    if end == |ext| then []
    else
      var s := Advance(ext, start, end);
      var m := StelliumAt(pm, ext[s..end + 1]);
      if m.None? || KeySet(m.value) in seen then Sweep(pm, ext, s, end + 1, seen)
      else
        var p := m.value;
        assert FromWindow(pm, ext, s, end, p);
        var rest := Sweep(pm, ext, s, end + 1, seen + {KeySet(p)});
        ConsFresh(p, rest, seen);
        [p] + rest
  }

  /** The properties every reported stellium has. */
  predicate IsStelliumOf(pm: PairMap, keys: seq<string>, p: Pattern) {
    p.Stellium? && |p.points| >= 3 && Elems(p.points) <= Elems(keys) && StrictlySorted(p.points)
    && WellFormed(p, pm)
  }

  lemma FromWindowStellium(pm: PairMap, ext: seq<Placed>, keys: seq<string>, s: int, e: int, p: Pattern)
    requires forall i :: 0 <= i < |ext| ==> ext[i].key in keys
    requires FromWindow(pm, ext, s, e, p)
    ensures IsStelliumOf(pm, keys, p)
  {
    var w := ext[s..e + 1];
    StelliumAtWellFormed(pm, w);
    DistinctCard(p.points);
    forall k | k in p.points ensures k in keys {
      assert k in Elems(WindowKeys(w));
      var i :| 0 <= i < |w| && WindowKeys(w)[i] == k;
      assert w[i] == ext[s + i];
    }
  }

  /** `_match_stellium`. */
  function StelliumMatches(pm: PairMap, points: Table<real>, keys: seq<string>): (r: seq<Pattern>)
    ensures forall p :: p in r ==> IsStelliumOf(pm, keys, p)
    ensures forall i, j :: 0 <= i < j < |r| ==> KeySet(r[i]) != KeySet(r[j])
  {
    var ext := Extended(points, keys);
    var r := Sweep(pm, ext, 0, 0, {});
    forall p | p in r ensures IsStelliumOf(pm, keys, p) {
      var s, e :| FromWindow(pm, ext, s, e, p);
      FromWindowStellium(pm, ext, keys, s, e, p);
    }
    r
  }

  /** Two entries of a window in the sorted extended sequence are within 30
      degrees of each other, counted with their turns. */
  lemma WindowClose(points: Table<real>, keys: seq<string>, s: int, e: int, i: int, j: int)
    requires forall k :: k in keys ==> 0.0 <= Pos(points, k) < 360.0
    requires 0 <= s <= i <= e < |Extended(points, keys)| && s <= j <= e
    requires Extended(points, keys)[e].pos - Extended(points, keys)[s].pos <= 30.0
    ensures var ext := Extended(points, keys);
            AngularDiff(Pos(points, ext[i].key), Pos(points, ext[j].key)) <= 30.0
  {
    var ext := Extended(points, keys);
    ExtendedSorted(points, keys);
    Between(ext, s, i, e);
    Between(ext, s, j, e);
    var a: int := if i < |keys| then 0 else 1;
    var b: int := if j < |keys| then 0 else 1;
    assert ext[i].pos == Pos(points, ext[i].key) + 360.0 * (a as real);
    assert ext[j].pos == Pos(points, ext[j].key) + 360.0 * (b as real);
    CloseByTurns(Pos(points, ext[i].key), Pos(points, ext[j].key), a, b, ext[i].pos, ext[j].pos);
  }

  /** In a sequence sorted by position, an entry between two others lies
      between their positions. */
  lemma Between(ext: seq<Placed>, s: int, i: int, e: int)
    requires SortedBy(ext, PosKey) && 0 <= s <= i <= e < |ext|
    ensures ext[s].pos <= ext[i].pos <= ext[e].pos
  {
    assert PosKey(ext[s]) <= PosKey(ext[i]);
    assert PosKey(ext[i]) <= PosKey(ext[e]);
  }

  /** Two longitudes whose unwrapped values are within 30 degrees are within 30
      degrees on the circle. */
  lemma CloseByTurns(x: real, y: real, a: int, b: int, px: real, py: real)
    requires px == x + 360.0 * (a as real) && py == y + 360.0 * (b as real)
    requires -30.0 <= px - py <= 30.0
    ensures AngularDiff(x, y) <= 30.0
  {
    assert TurnDistance(x, y, b - a) == Abs(px - py);
    AngularDiffIsCircularDistance(x, y, b - a);
  }

  /** Each point of a window's stellium sits at some index of the window. */
  lemma WindowMember(pm: PairMap, ext: seq<Placed>, s: int, e: int, p: Pattern, x: string)
    requires FromWindow(pm, ext, s, e, p) && x in p.points
    ensures exists i :: s <= i <= e && ext[i].key == x
  {
    var w := ext[s..e + 1];
    assert x in Elems(p.points);
    assert x in Elems(WindowKeys(w));
    var i :| 0 <= i < |w| && WindowKeys(w)[i] == x;
    assert w[i] == ext[s + i];
  }

  /** With positions in [0, 360), any two points of a reported stellium are
      at most 30 degrees apart. */
  lemma StelliumSpan(pm: PairMap, points: Table<real>, keys: seq<string>, p: Pattern, x: string, y: string)
    requires forall k :: k in keys ==> 0.0 <= Pos(points, k) < 360.0
    requires p in StelliumMatches(pm, points, keys) && x in p.points && y in p.points
    ensures AngularDiff(Pos(points, x), Pos(points, y)) <= 30.0
  {
    var ext := Extended(points, keys);
    assert p in Sweep(pm, ext, 0, 0, {});
    var s, e :| FromWindow(pm, ext, s, e, p);
    WindowMember(pm, ext, s, e, p, x);
    WindowMember(pm, ext, s, e, p, y);
    var i :| s <= i <= e && ext[i].key == x;
    var j :| s <= j <= e && ext[j].key == y;
    WindowClose(points, keys, s, e, i, j);
  }
}
