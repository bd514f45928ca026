/** Rankings of candidates whose scores are straight lines in one weight.

    Every blend method scores a candidate by a value on the lexical side plus the weight times its
    vector-minus-lexical gap, so a weight sweep moves along a family of lines. */
module Crossing {
  import opened Prelude
  import opened Sorting
  import Metrics

  /** Score at vector weight w: start + w * gap. */
  datatype Line = Line(start: real, gap: real)

  function At(l: Line, w: real): real {
    l.start + w * l.gap
  }

  /** x is ranked above y at weight w: a higher score, or the same score and a smaller id. */
  predicate AboveAt(lines: map<Text, Line>, w: real, x: Text, y: Text) {
    && x in lines && y in lines && x != y
    && (At(lines[x], w) > At(lines[y], w) || (At(lines[x], w) == At(lines[y], w) && TextLess(x, y)))
  }

  /** ids lists every candidate once, best first at weight w. */
  ghost predicate IsRanking(lines: map<Text, Line>, w: real, ids: seq<Text>) {
    && Distinct(ids)
    && (forall x :: x in ids <==> x in lines)
    && (forall i, j :: 0 <= i < j < |ids| ==> AboveAt(lines, w, ids[i], ids[j]))
  }

  // ----- two lines -----

  lemma Difference(a: Line, b: Line, w: real)
    ensures At(a, w) - At(b, w) == (a.start - b.start) + w * (a.gap - b.gap)
  {
    assert w * (a.gap - b.gap) == w * a.gap - w * b.gap;
  }

  /** From ahead at u to behind at v: the slope of the difference is negative. */
  lemma FallingSlope(d: real, g: real, u: real, v: real)
    requires u <= v
    requires d + u * g > d + v * g
    ensures g < 0.0
  {
    assert (v - u) * g < 0.0;
  }

  lemma FallsOn(d: real, g: real, v: real, w: real)
    requires v <= w && g < 0.0
    ensures d + w * g <= d + v * g
  {
    assert (w - v) * g <= 0.0;
  }

  lemma AboveIsTotal(lines: map<Text, Line>, w: real, x: Text, y: Text)
    requires x in lines && y in lines && x != y
    ensures AboveAt(lines, w, x, y) <==> !AboveAt(lines, w, y, x)
  {
    TextOrder();
  }

  /** If x is above y at u and below it at a later v, the vector side favours y strictly more. */
  lemma OvertakerHasLargerGap(lines: map<Text, Line>, u: real, v: real, x: Text, y: Text)
    requires u <= v
    requires AboveAt(lines, u, x, y) && AboveAt(lines, v, y, x)
    ensures lines[x].gap < lines[y].gap
  {
    var a, b := lines[x], lines[y];
    Difference(a, b, u);
    Difference(a, b, v);
    CharsLessTotal(x.chars, y.chars);
    FallingSlope(a.start - b.start, a.gap - b.gap, u, v);
  }

  /** Two candidates swap at most once: y, having overtaken x, stays above for all larger weights. */
  lemma SingleCrossing(lines: map<Text, Line>, u: real, v: real, w: real, x: Text, y: Text)
    requires u <= v <= w
    requires AboveAt(lines, u, x, y) && AboveAt(lines, v, y, x)
    ensures AboveAt(lines, w, y, x)
  {
    var a, b := lines[x], lines[y];
    OvertakerHasLargerGap(lines, u, v, x, y);
    Difference(a, b, v);
    Difference(a, b, w);
    FallsOn(a.start - b.start, a.gap - b.gap, v, w);
  }

  // ----- the first document of a ranking -----

  lemma FirstIsAbove(lines: map<Text, Line>, w: real, ids: seq<Text>, y: Text)
    requires IsRanking(lines, w, ids)
    requires y in lines && ids != [] && y != ids[0]
    ensures AboveAt(lines, w, ids[0], y)
  {
    var k :| 0 <= k < |ids| && ids[k] == y;
  }

  /** A document that loses the first place as the weight rises never regains it. */
  lemma FirstNeverReturns(lines: map<Text, Line>, u: real, a: seq<Text>, v: real, b: seq<Text>, w: real, c: seq<Text>)
    requires u <= v <= w
    requires IsRanking(lines, u, a) && IsRanking(lines, v, b) && IsRanking(lines, w, c)
    requires a != [] && b != [] && c != [] && a[0] == c[0]
    ensures b[0] == a[0]
  {
    if b[0] != a[0] {
      var x, y := a[0], b[0];
      assert x in a && y in b;
      FirstIsAbove(lines, u, a, y);
      FirstIsAbove(lines, v, b, x);
      FirstIsAbove(lines, w, c, y);
      SingleCrossing(lines, u, v, w, x, y);
      AboveIsTotal(lines, w, x, y);
    }
  }

  /** The gap of the first document never decreases, and strictly grows when the document changes. */
  lemma FirstGapGrows(lines: map<Text, Line>, u: real, a: seq<Text>, v: real, b: seq<Text>)
    requires u <= v
    requires IsRanking(lines, u, a) && IsRanking(lines, v, b)
    requires a != [] && b != []
    ensures a[0] in lines && b[0] in lines
    ensures a[0] != b[0] ==> lines[a[0]].gap < lines[b[0]].gap
  {
    assert a[0] in a && b[0] in b;
    if a[0] != b[0] {
      FirstIsAbove(lines, u, a, b[0]);
      FirstIsAbove(lines, v, b, a[0]);
      OvertakerHasLargerGap(lines, u, v, a[0], b[0]);
    }
  }

  lemma FirstIsBest(lines: map<Text, Line>, w: real, ids: seq<Text>, y: Text)
    requires IsRanking(lines, w, ids)
    requires ids != [] && y in lines
    ensures ids[0] in lines && At(lines[y], w) <= At(lines[ids[0]], w)
  {
    assert ids[0] in ids;
    if y != ids[0] { FirstIsAbove(lines, w, ids, y); }
  }

  /** At v the value r is at most the straight connection of p at u and q at w. */
  predicate UnderChord(u: real, p: real, v: real, r: real, w: real, q: real) {
    (w - u) * r <= (w - v) * p + (v - u) * q
  }

  /** The best score is a convex function of the weight: the upper envelope of the lines. */
  lemma FirstScoreIsEnvelope(lines: map<Text, Line>, u: real, a: seq<Text>, v: real, b: seq<Text>, w: real,
      c: seq<Text>)
    requires u <= v <= w
    requires IsRanking(lines, u, a) && IsRanking(lines, v, b) && IsRanking(lines, w, c)
    requires a != [] && b != [] && c != []
    ensures a[0] in lines && b[0] in lines && c[0] in lines
    ensures UnderChord(u, At(lines[a[0]], u), v, At(lines[b[0]], v), w, At(lines[c[0]], w))
  {
    assert b[0] in b;
    FirstIsBest(lines, u, a, b[0]);
    FirstIsBest(lines, w, c, b[0]);
    FirstIsBest(lines, v, b, b[0]);
    BelowChord(lines[b[0]], u, v, w, At(lines[a[0]], u), At(lines[c[0]], w));
  }

  lemma BelowChord(l: Line, u: real, v: real, w: real, p: real, q: real)
    requires u <= v <= w && At(l, u) <= p && At(l, w) <= q
    ensures UnderChord(u, p, v, At(l, v), w, q)
  {
    Chord(l, u, v, w);
    ScaledBound(w - v, At(l, u), p);
    ScaledBound(v - u, At(l, w), q);
  }

  lemma Chord(l: Line, u: real, v: real, w: real)
    ensures (w - u) * At(l, v) == (w - v) * At(l, u) + (v - u) * At(l, w)
  {
  }

  lemma ScaledBound(k: real, x: real, y: real)
    requires k >= 0.0 && x <= y
    ensures k * x <= k * y
  {
  }

  // ----- whole rankings -----

  /** Being listed earlier is exactly being above. */
  lemma PositionIsAbove(lines: map<Text, Line>, w: real, ids: seq<Text>, x: Text, y: Text)
    requires IsRanking(lines, w, ids)
    requires x in lines && y in lines && x != y
    ensures Metrics.Rank(ids, x) >= 0 && Metrics.Rank(ids, y) >= 0
    ensures Metrics.Rank(ids, x) < Metrics.Rank(ids, y) <==> AboveAt(lines, w, x, y)
    ensures Metrics.Rank(ids, y) < Metrics.Rank(ids, x) <==> AboveAt(lines, w, y, x)
  {
    var i, j := Metrics.Rank(ids, x), Metrics.Rank(ids, y);
    AboveIsTotal(lines, w, x, y);
    if i < j {
      assert AboveAt(lines, w, ids[i], ids[j]);
    } else {
      assert AboveAt(lines, w, ids[j], ids[i]);
    }
  }

  /** A pair turned round against the first ranking stays turned round for all larger weights. */
  lemma DiscordanceOnlyGrows(lines: map<Text, Line>, u: real, a: seq<Text>, v: real, b: seq<Text>, w: real,
      c: seq<Text>, x: Text, y: Text)
    requires u <= v <= w
    requires IsRanking(lines, u, a) && IsRanking(lines, v, b) && IsRanking(lines, w, c)
    requires Metrics.OrderIs(a, b, x, y, false)
    requires x in lines && y in lines
    ensures Metrics.OrderIs(a, c, x, y, false)
  {
    PositionIsAbove(lines, u, a, x, y);
    PositionIsAbove(lines, v, b, x, y);
    PositionIsAbove(lines, w, c, x, y);
    if AboveAt(lines, u, x, y) {
      SingleCrossing(lines, u, v, w, x, y);
    } else {
      SingleCrossing(lines, u, v, w, y, x);
    }
  }

  lemma AgreementOnlyShrinks(lines: map<Text, Line>, u: real, a: seq<Text>, v: real, b: seq<Text>, w: real,
      c: seq<Text>, x: Text, y: Text)
    requires u <= v <= w
    requires IsRanking(lines, u, a) && IsRanking(lines, v, b) && IsRanking(lines, w, c)
    requires Metrics.OrderIs(a, c, x, y, true)
    requires x in lines && y in lines
    ensures Metrics.OrderIs(a, b, x, y, true)
  {
    PositionIsAbove(lines, u, a, x, y);
    PositionIsAbove(lines, v, b, x, y);
    AboveIsTotal(lines, v, x, y);
    if Metrics.OrderIs(a, b, x, y, false) {
      DiscordanceOnlyGrows(lines, u, a, v, b, w, c, x, y);
    }
  }

  lemma SameMembers(lines: map<Text, Line>, u: real, a: seq<Text>, v: real, b: seq<Text>)
    requires IsRanking(lines, u, a) && IsRanking(lines, v, b)
    ensures Elements(a) == Elements(b) == lines.Keys
    ensures |a| == |b| == Metrics.OverlapAtK(a, b) == |lines|
  {
    assert Elements(a) == lines.Keys && Elements(b) == lines.Keys;
    DistinctCardinality(a);
    DistinctCardinality(b);
    assert Elements(a) * Elements(b) == Elements(a);
  }

  /** Kendall's tau against the first ranking never increases with the weight. */
  lemma TauNeverIncreases(lines: map<Text, Line>, u: real, a: seq<Text>, v: real, b: seq<Text>, w: real, c: seq<Text>)
    requires u <= v <= w
    requires IsRanking(lines, u, a) && IsRanking(lines, v, b) && IsRanking(lines, w, c)
    requires |lines| >= 2
    ensures Metrics.Tau(a, b).Some? && Metrics.Tau(a, c).Some?
    ensures Metrics.Tau(a, c).value <= Metrics.Tau(a, b).value
  {
    SameMembers(lines, u, a, v, b);
    SameMembers(lines, u, a, w, c);
    forall x, y | x in a && y in a && Metrics.OrderIs(a, c, x, y, true) ensures Metrics.OrderIs(a, b, x, y, true) {
      AgreementOnlyShrinks(lines, u, a, v, b, w, c, x, y);
    }
    Metrics.TauFollowsAgreements(a, b, c);
  }

  /** Lines and weight determine the ranking. */
  lemma {:induction false} RankingIsUnique(lines: map<Text, Line>, w: real, a: seq<Text>, b: seq<Text>)
    requires IsRanking(lines, w, a) && IsRanking(lines, w, b)
    ensures a == b
  {
    SameMembers(lines, w, a, w, b);
    FirstDifference(lines, w, a, b, |a|);
  }

  lemma {:induction false} FirstDifference(lines: map<Text, Line>, w: real, a: seq<Text>, b: seq<Text>, n: nat)
    requires IsRanking(lines, w, a) && IsRanking(lines, w, b)
    requires n <= |a| == |b|
    ensures forall i :: 0 <= i < n ==> a[i] == b[i]
  {
    if n > 0 {
      var k := n - 1;
      FirstDifference(lines, w, a, b, k);
      if a[k] != b[k] {
        NextStandsLater(lines, w, a, b, k);
        NextStandsLater(lines, w, b, a, k);
        AboveIsTotal(lines, w, a[k], b[k]);
      }
    }
  }

  /** Below a common prefix, the next id of a stands later in b. */
  lemma NextStandsLater(lines: map<Text, Line>, w: real, a: seq<Text>, b: seq<Text>, k: nat)
    requires IsRanking(lines, w, a) && IsRanking(lines, w, b)
    requires k < |a| == |b| && a[k] != b[k]
    requires forall i :: 0 <= i < k ==> a[i] == b[i]
    ensures a[k] in lines && b[k] in lines && AboveAt(lines, w, b[k], a[k])
  {
    assert a[k] in a && b[k] in b;
    assert a[k] in b;
    var i :| 0 <= i < |b| && b[i] == a[k];
    if i < k {
      assert false;
    }
  }
}
