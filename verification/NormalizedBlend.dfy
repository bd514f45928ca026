/** Score normalization: its range, its moments, and why blending then ignores the score scale. */
module NormalizedBlend {
  import opened Prelude
  import opened Sorting
  import opened Stats
  import opened Blend
  import opened BlendOrder
  import opened Crossing

  // ----- the library square root -----

  lemma RootUnique(x: real, y: real)
    requires x >= 0.0 && y >= 0.0 && x * x == y * y
    ensures x == y
  {
    Distribute(x + y, x, y);
    assert (x + y) * (x - y) == 0.0;
    if x + y != 0.0 { ZeroProduct(x - y, x + y); }
  }

  lemma RootOfScaled(sqrt: real -> real, v: real, a: real, s: real, k: real)
    requires IsSquareRoot(sqrt) && v >= 0.0 && a > 0.0 && s == sqrt(v) && k == a * a
    ensures sqrt(k * v) == a * s
  {
    assert s >= 0.0 && s * s == v;
    var w := k * v;
    PositiveProducts(a, v, k);
    SquareOfProduct(a, s);
    assert a * s >= 0.0;
    RootUnique(sqrt(w), a * s);
  }

  lemma PositiveProducts(a: real, v: real, k: real)
    requires a > 0.0 && v >= 0.0 && k == a * a
    ensures k > 0.0 && k * v >= 0.0
  {
    PositiveProduct(a, a, k);
    if v > 0.0 { PositiveProduct(k, v, k * v); }
  }

  // ----- rescaling a dictionary -----

  function ApplyMap(f: real -> real, values: map<Text, real>): map<Text, real> {
    map x | x in values :: f(values[x])
  }

  lemma {:induction false} PickOfApply(f: real -> real, ids: seq<Text>, values: map<Text, real>)
    requires forall x :: x in ids ==> x in values
    ensures Pick(ids, ApplyMap(f, values)) == Apply(f, Pick(ids, values))
  {
    if ids != [] {
      assert ids[0] in ids && forall x :: x in ids[1..] ==> x in ids;
      PickOfApply(f, ids[1..], values);
      assert Pick(ids, values)[1..] == Pick(ids[1..], values);
    }
  }

  lemma ScoresOfApply(f: real -> real, values: map<Text, real>)
    ensures Scores(ApplyMap(f, values)) == Apply(f, Scores(values))
  {
    SortedTextsLists(values.Keys);
    assert ApplyMap(f, values).Keys == values.Keys;
    PickOfApply(f, SortedTexts(values.Keys), values);
  }

  /** f turns ratios about (centre, spread) into the same ratios about (centre', spread'). */
  ghost predicate SameRatios(f: real -> real, centre: real, spread: real, centre': real, spread': real) {
    forall x :: Ratio(f(x), centre', spread') == Ratio(x, centre, spread)
  }

  lemma AffineKeepsRatios(f: real -> real, a: real, b: real, centre: real, spread: real)
    requires IsAffine(f, a, b) && a > 0.0
    ensures SameRatios(f, centre, spread, f(centre), a * spread)
  {
    forall x ensures Ratio(f(x), f(centre), a * spread) == Ratio(x, centre, spread) {
      RatioOfScaled(x, centre, spread, a, b, f(x), f(centre));
    }
  }

  lemma RatioOfScaled(x: real, centre: real, spread: real, a: real, b: real, y: real, centre': real)
    requires a > 0.0 && y == a * x + b && centre' == a * centre + b
    ensures Ratio(y, centre', a * spread) == Ratio(x, centre, spread)
  {
    if spread == 0.0 {
      assert a * spread == 0.0;
    } else {
      var q := (x - centre) / spread;
      TimesBack(x - centre, spread);
      Regroup(q, a, spread);
      Regroup(a, q, spread);
      Distribute(a, x, centre);
      if a * spread == 0.0 { ZeroProduct(spread, a); }
      DivideBack(y - centre', a * spread, q);
    }
  }

  lemma RescaledIsInvariant(f: real -> real, values: map<Text, real>, centre: real, spread: real, centre': real,
      spread': real)
    requires SameRatios(f, centre, spread, centre', spread')
    ensures Rescaled(ApplyMap(f, values), centre', spread') == Rescaled(values, centre, spread)
  {
  }

  /** The centre and spread a normalization measures. */
  function CentreOf(how: Normalization, xs: seq<real>): real
    requires xs != [] && !how.NoNormalization?
  {
    if how.MinMax? then Min(xs) else Mean(xs)
  }

  function SpreadOf(how: Normalization, xs: seq<real>, sqrt: real -> real): real
    requires xs != [] && !how.NoNormalization?
  {
    if how.MinMax? then Max(xs) - Min(xs) else sqrt(Variance(xs))
  }

  lemma CentreAndSpreadOfApply(f: real -> real, a: real, b: real, how: Normalization, xs: seq<real>,
      sqrt: real -> real, spread: real)
    requires IsAffine(f, a, b) && a > 0.0 && xs != [] && !how.NoNormalization?
    requires how.ZScore? ==> IsSquareRoot(sqrt)
    ensures CentreOf(how, Apply(f, xs)) == f(CentreOf(how, xs))
    requires spread == SpreadOf(how, xs, sqrt)
    ensures SpreadOf(how, Apply(f, xs), sqrt) == a * spread
  {
    if how.MinMax? {
      AffineKeepsOrder(f, a, b);
      MinOfApply(f, xs);
      MaxOfApply(f, xs);
      DifferenceOfApply(f, a, b, Max(xs), Min(xs), spread);
    } else {
      var v, k := Variance(xs), a * a;
      MeanOfApply(f, xs, a, b);
      VarianceOfApply(f, xs, a, b, v, k);
      VarianceNonNegative(xs);
      RootOfScaled(sqrt, v, a, spread, k);
    }
  }

  lemma DifferenceOfApply(f: real -> real, a: real, b: real, x: real, y: real, d: real)
    requires IsAffine(f, a, b) && d == x - y
    ensures f(x) - f(y) == a * d
  {
    Distribute(a, x, y);
  }

  lemma NormalizeByCentreAndSpread(values: map<Text, real>, how: Normalization, sqrt: real -> real)
    requires values != map[] && !how.NoNormalization?
    ensures Scores(values) != []
    ensures Normalize(values, how, sqrt)
         == Rescaled(values, CentreOf(how, Scores(values)), SpreadOf(how, Scores(values), sqrt))
  {
    ScoresNonEmpty(values);
  }

  /** Replacing every score by a*x + b with a > 0 does not change a minmax or zscore normalization. */
  lemma NormalizationIgnoresScale(f: real -> real, a: real, b: real, values: map<Text, real>, how: Normalization,
      sqrt: real -> real)
    requires IsAffine(f, a, b) && a > 0.0 && !how.NoNormalization?
    requires how.ZScore? ==> IsSquareRoot(sqrt)
    ensures Normalize(ApplyMap(f, values), how, sqrt) == Normalize(values, how, sqrt)
  {
    if values == map[] {
      assert ApplyMap(f, values) == map[];
    } else {
      var x :| x in values;
      assert x in ApplyMap(f, values);
      NormalizeByCentreAndSpread(values, how, sqrt);
      NormalizeByCentreAndSpread(ApplyMap(f, values), how, sqrt);
      ScoresOfApply(f, values);
      var centre, spread := CentreOf(how, Scores(values)), SpreadOf(how, Scores(values), sqrt);
      CentreAndSpreadOfApply(f, a, b, how, Scores(values), sqrt, spread);
      AffineKeepsRatios(f, a, b, centre, spread);
      RescaledIsInvariant(f, values, centre, spread, f(centre), a * spread);
    }
  }

  // ----- the documents behind the dictionary -----

  function ScaleDoc(f: real -> real, doc: Doc): Doc {
    Doc(doc.id, if doc.score.Some? then Some(f(doc.score.value)) else None)
  }

  /** Every score the response carries is changed by f; a missing score stays missing. */
  function ScaleDocs(f: real -> real, docs: seq<Doc>): (r: seq<Doc>)
    ensures |r| == |docs|
  {
    if docs == [] then [] else ScaleDocs(f, docs[..|docs| - 1]) + [ScaleDoc(f, docs[|docs| - 1])]
  }

  /** Each id is marked with whether its last occurrence, the one that counts, carries a score. */
  function Scored(docs: seq<Doc>): map<Text, bool> {
    if docs == [] then map[]
    else
      var before, doc := Scored(docs[..|docs| - 1]), docs[|docs| - 1];
      if doc.id.None? then before else before[doc.id.value := doc.score.Some?]
  }

  predicate AllScored(docs: seq<Doc>) {
    forall x :: x in Scored(docs) ==> Scored(docs)[x]
  }

  predicate NoneScored(docs: seq<Doc>) {
    forall x :: x in Scored(docs) ==> !Scored(docs)[x]
  }

  /** Of the documents that count, either every one carries a score or none does. */
  predicate AllOrNoneScored(docs: seq<Doc>) {
    AllScored(docs) || NoneScored(docs)
  }

  ghost predicate ScaledEntry(f: real -> real, docs: seq<Doc>, x: Text) {
    && (x in ScoreMap(ScaleDocs(f, docs)) <==> x in ScoreMap(docs))
    && (x in Scored(docs) <==> x in ScoreMap(docs))
    && (x in ScoreMap(docs) ==>
          && ScoreMap(ScaleDocs(f, docs))[x] == (if Scored(docs)[x] then f(ScoreMap(docs)[x]) else 0.0)
          && (!Scored(docs)[x] ==> ScoreMap(docs)[x] == 0.0))
  }

  lemma {:induction false} ScaledDictionary(f: real -> real, docs: seq<Doc>, x: Text)
    ensures ScaledEntry(f, docs, x)
  {
    if docs != [] {
      var init := docs[..|docs| - 1];
      ScaledDictionary(f, init, x);
      assert ScaleDocs(f, docs)[..|docs| - 1] == ScaleDocs(f, init);
    }
  }

  lemma {:induction false} ScaledRanks(f: real -> real, docs: seq<Doc>)
    ensures RankMap(ScaleDocs(f, docs)) == RankMap(docs)
  {
    if docs != [] {
      var init := docs[..|docs| - 1];
      ScaledRanks(f, init);
      assert ScaleDocs(f, docs)[..|docs| - 1] == ScaleDocs(f, init);
    }
  }

  /** The dictionary is rescaled exactly when no missing score, which counts as 0.0, is moved by f. */
  lemma ScaledExactlyWhenScored(f: real -> real, docs: seq<Doc>)
    ensures ScoreMap(ScaleDocs(f, docs)) == ApplyMap(f, ScoreMap(docs)) <==> f(0.0) == 0.0 || AllScored(docs)
  {
    var scaled, applied := ScoreMap(ScaleDocs(f, docs)), ApplyMap(f, ScoreMap(docs));
    forall x ensures ScaledEntry(f, docs, x) { ScaledDictionary(f, docs, x); }
    assert forall x :: ScaledEntry(f, docs, x) ==> (x in scaled <==> x in applied);
    if f(0.0) == 0.0 || AllScored(docs) {
      forall x | x in applied ensures scaled[x] == applied[x] {
        assert ScaledEntry(f, docs, x);
      }
    } else {
      var x :| x in Scored(docs) && !Scored(docs)[x];
      assert ScaledEntry(f, docs, x);
      assert scaled[x] != applied[x];
    }
  }

  /** Without any score there is nothing to rescale. */
  lemma UnscoredUnchanged(f: real -> real, docs: seq<Doc>)
    requires NoneScored(docs)
    ensures ScoreMap(ScaleDocs(f, docs)) == ScoreMap(docs)
  {
    var scaled, plain := ScoreMap(ScaleDocs(f, docs)), ScoreMap(docs);
    forall x ensures ScaledEntry(f, docs, x) { ScaledDictionary(f, docs, x); }
    assert forall x :: ScaledEntry(f, docs, x) ==> (x in scaled <==> x in plain);
    forall x | x in plain ensures scaled[x] == plain[x] {
      assert ScaledEntry(f, docs, x);
    }
  }

  lemma {:induction false} ScalePrefix(f: real -> real, docs: seq<Doc>, n: nat)
    requires n <= |docs|
    ensures ScaleDocs(f, docs)[..n] == ScaleDocs(f, docs[..n])
  {
    if n < |docs| {
      var init := docs[..|docs| - 1];
      ScalePrefix(f, init, n);
      assert ScaleDocs(f, docs)[..|docs| - 1] == ScaleDocs(f, init);
      assert init[..n] == docs[..n];
      assert ScaleDocs(f, docs)[..n] == ScaleDocs(f, init)[..n];
    } else {
      TakeAll(docs);
      TakeAll(ScaleDocs(f, docs));
    }
  }

  /** f rescales what a normalization sees of these documents. */
  ghost predicate Rescales(f: real -> real, a: real, b: real, docs: seq<Doc>) {
    IsAffine(f, a, b) && a > 0.0 && (b == 0.0 || AllOrNoneScored(docs))
  }

  lemma ScaledDocsNormalizeAlike(f: real -> real, a: real, b: real, docs: seq<Doc>, how: Normalization,
      sqrt: real -> real)
    requires Rescales(f, a, b, docs) && !how.NoNormalization?
    requires how.ZScore? ==> IsSquareRoot(sqrt)
    ensures ScoreMap(ScaleDocs(f, docs)).Keys == ScoreMap(docs).Keys
    ensures Normalize(ScoreMap(ScaleDocs(f, docs)), how, sqrt) == Normalize(ScoreMap(docs), how, sqrt)
  {
    if NoneScored(docs) {
      UnscoredUnchanged(f, docs);
    } else {
      assert f(0.0) == a * 0.0 + b;
      ScaledExactlyWhenScored(f, docs);
      assert ApplyMap(f, ScoreMap(docs)).Keys == ScoreMap(docs).Keys;
      NormalizationIgnoresScale(f, a, b, ScoreMap(docs), how, sqrt);
    }
  }

  function Pool(docs: seq<Doc>, q: Query): seq<Doc> {
    SliceTo(docs, q.config.candidatePool)
  }

  lemma ScaledPool(f: real -> real, docs: seq<Doc>, q: Query)
    ensures Pool(ScaleDocs(f, docs), q) == ScaleDocs(f, Pool(docs, q))
  {
    ScalePrefix(f, docs, |Pool(docs, q)|);
  }

  /** The query with every reported lexical score changed by f and every vector score by g. */
  function ScaledQuery(q: Query, f: real -> real, g: real -> real): Query {
    Query(q.config, ScaleDocs(f, q.lexicalDocs), ScaleDocs(g, q.vectorDocs))
  }

  /** With normalize_linear and minmax or zscore, rescaling the raw scores of both inputs, each by its
      own a*x + b, leaves every blended score and the whole ranking unchanged, at every weight. */
  lemma BlendIgnoresScoreScale(q: Query, sqrt: real -> real, f: real -> real, a: real, b: real, g: real -> real,
      c: real, d: real)
    requires q.config.blend.NormalizeLinear? && !q.config.normalization.NoNormalization?
    requires q.config.normalization.ZScore? ==> IsSquareRoot(sqrt)
    requires Rescales(f, a, b, Pool(q.lexicalDocs, q)) && Rescales(g, c, d, Pool(q.vectorDocs, q))
    ensures var before, after := TablesOf(q, sqrt), TablesOf(ScaledQuery(q, f, g), sqrt);
            && Divides(q.config, before) && Divides(q.config, after)
            && LinesOf(q.config, after) == LinesOf(q.config, before)
            && forall w :: OrderAt(q.config, after, w) == OrderAt(q.config, before, w)
  {
    ScaledPool(f, q.lexicalDocs, q);
    ScaledPool(g, q.vectorDocs, q);
    ScaledDocsNormalizeAlike(f, a, b, Pool(q.lexicalDocs, q), q.config.normalization, sqrt);
    ScaledDocsNormalizeAlike(g, c, d, Pool(q.vectorDocs, q), q.config.normalization, sqrt);
    var before, after := TablesOf(q, sqrt), TablesOf(ScaledQuery(q, f, g), sqrt);
    SameLines(q.config, before, after);
    forall w ensures OrderAt(q.config, after, w) == OrderAt(q.config, before, w) {
      SameLinesSameOrder(q.config, before, after, w);
    }
  }

  /** Reciprocal rank fusion ignores the scores altogether: any change of them leaves the ranking alone. */
  lemma RrfIgnoresScores(q: Query, sqrt: real -> real, f: real -> real, g: real -> real, w: real)
    requires q.config.blend.Rrf?
    ensures var before, after := TablesOf(q, sqrt), TablesOf(ScaledQuery(q, f, g), sqrt);
            && (Divides(q.config, before) <==> Divides(q.config, after))
            && (Divides(q.config, before) ==> OrderAt(q.config, after, w) == OrderAt(q.config, before, w))
  {
    var before, after := TablesOf(q, sqrt), TablesOf(ScaledQuery(q, f, g), sqrt);
    ScaledPool(f, q.lexicalDocs, q);
    ScaledPool(g, q.vectorDocs, q);
    ScaledRanks(f, Pool(q.lexicalDocs, q));
    ScaledRanks(g, Pool(q.vectorDocs, q));
    SameRanksSameLines(q.config, before, after);
    if Divides(q.config, before) {
      SameLinesSameOrder(q.config, before, after, w);
    }
  }

  lemma SameRanksSameLines(config: Config, t: Tables, t': Tables)
    requires config.blend.Rrf? && t.lRank == t'.lRank && t.vRank == t'.vRank
    requires t.lScore.Keys == t.lRank.Keys && t.vScore.Keys == t.vRank.Keys
    requires t'.lScore.Keys == t'.lRank.Keys && t'.vScore.Keys == t'.vRank.Keys
    ensures Divides(config, t) <==> Divides(config, t')
    ensures Divides(config, t) ==> LinesOf(config, t) == LinesOf(config, t')
  {
    assert CandidateSet(t) == CandidateSet(t');
    forall id | id in CandidateSet(t) ensures Scorable(config, t, id) <==> Scorable(config, t', id) {}
    if Divides(config, t) {
      forall id | id in CandidateSet(t) ensures LineOf(config, t, id) == LineOf(config, t', id) {}
    }
  }

  lemma SameLines(config: Config, t: Tables, t': Tables)
    requires !config.blend.Rrf?
    requires CandidateSet(t) == CandidateSet(t') && t.lNormal == t'.lNormal && t.vNormal == t'.vNormal
    ensures Divides(config, t) && Divides(config, t') && LinesOf(config, t) == LinesOf(config, t')
  {
  }

  /** A ranking is determined by the lines. */
  lemma SameLinesSameOrder(config: Config, t: Tables, t': Tables, w: real)
    requires Divides(config, t) && Divides(config, t') && LinesOf(config, t) == LinesOf(config, t')
    ensures OrderAt(config, t, w) == OrderAt(config, t', w)
  {
    BlendIsRanking(config, t, w);
    BlendIsRanking(config, t', w);
    RankingIsUnique(LinesOf(config, t), w, OrderAt(config, t, w), OrderAt(config, t', w));
  }

  // ----- the range of minmax -----

  /** minmax lands in [0, 1]. */
  lemma MinMaxRange(values: map<Text, real>, sqrt: real -> real, x: Text)
    requires x in values
    ensures x in Normalize(values, MinMax, sqrt)
    ensures 0.0 <= Normalize(values, MinMax, sqrt)[x] <= 1.0
  {
    ScoresNonEmpty(values);
    var xs := Scores(values);
    ScoreIsListed(values, x);
    RatioRange(values[x], Min(xs), Max(xs) - Min(xs));
  }

  lemma RatioRange(x: real, centre: real, spread: real)
    requires centre <= x <= centre + spread
    ensures 0.0 <= Ratio(x, centre, spread) <= 1.0
  {
    if spread != 0.0 {
      var q := (x - centre) / spread;
      TimesBack(x - centre, spread);
      ScaleOrder(spread, 0.0, q);
      ScaleOrder(spread, q, 1.0);
    }
  }

  lemma ScoreIsListed(values: map<Text, real>, x: Text)
    requires x in values
    ensures Scores(values) != []
    ensures Min(Scores(values)) <= values[x] <= Max(Scores(values))
  {
    SortedTextsLists(values.Keys);
    var ids := SortedTexts(values.Keys);
    assert x in ids;
    var i :| 0 <= i < |ids| && ids[i] == x;
    PickAt(ids, values, i);
  }

  lemma {:induction false} PickAt(ids: seq<Text>, values: map<Text, real>, i: nat)
    requires forall x :: x in ids ==> x in values
    requires i < |ids|
    ensures i < |Pick(ids, values)| && Pick(ids, values)[i] == values[ids[i]]
  {
    assert ids[0] in ids && forall x :: x in ids[1..] ==> x in ids;
    if i > 0 {
      PickAt(ids[1..], values, i - 1);
    }
  }

  /** minmax keeps the order of the scores. */
  lemma MinMaxKeepsOrder(values: map<Text, real>, sqrt: real -> real, x: Text, y: Text)
    requires x in values && y in values && values[x] < values[y]
    ensures x in Normalize(values, MinMax, sqrt) && y in Normalize(values, MinMax, sqrt)
    ensures Normalize(values, MinMax, sqrt)[x] < Normalize(values, MinMax, sqrt)[y]
  {
    ScoresNonEmpty(values);
    ScoreIsListed(values, x);
    ScoreIsListed(values, y);
    var xs := Scores(values);
    RatioOrder(values[x], values[y], Min(xs), Max(xs) - Min(xs));
  }

  lemma ScorePosition(values: map<Text, real>, x: Text) returns (i: nat)
    requires x in values
    ensures i < |Scores(values)| && Scores(values)[i] == values[x]
  {
    SortedTextsLists(values.Keys);
    var ids := SortedTexts(values.Keys);
    assert x in ids;
    i :| 0 <= i < |ids| && ids[i] == x;
    PickAt(ids, values, i);
  }

  /** zscore keeps the order of the scores. */
  lemma ZScoreKeepsOrder(values: map<Text, real>, sqrt: real -> real, x: Text, y: Text)
    requires IsSquareRoot(sqrt) && x in values && y in values && values[x] < values[y]
    ensures x in Normalize(values, ZScore, sqrt) && y in Normalize(values, ZScore, sqrt)
    ensures Normalize(values, ZScore, sqrt)[x] < Normalize(values, ZScore, sqrt)[y]
  {
    NormalizeByCentreAndSpread(values, ZScore, sqrt);
    var xs := Scores(values);
    var i := ScorePosition(values, x);
    var j := ScorePosition(values, y);
    var centre, spread := CentreOf(ZScore, xs), SpreadOf(ZScore, xs, sqrt);
    SpreadPositive(xs, sqrt, i, j, spread);
    RatioOrder(values[x], values[y], centre, spread);
  }

  lemma SpreadPositive(xs: seq<real>, sqrt: real -> real, i: nat, j: nat, spread: real)
    requires IsSquareRoot(sqrt) && i < |xs| && j < |xs| && xs[i] != xs[j] && spread == sqrt(Variance(xs))
    ensures spread > 0.0
  {
    VariancePositive(xs, i, j);
    RootPositive(sqrt, Variance(xs));
  }

  lemma RootPositive(sqrt: real -> real, v: real)
    requires IsSquareRoot(sqrt) && v > 0.0
    ensures sqrt(v) > 0.0
  {
    var s := sqrt(v);
    assert s >= 0.0 && s * s == v;
  }

  lemma NormalizeKeepsOrder(values: map<Text, real>, how: Normalization, sqrt: real -> real, x: Text, y: Text)
    requires !how.NoNormalization? && (how.ZScore? ==> IsSquareRoot(sqrt))
    requires x in values && y in values && values[x] < values[y]
    ensures x in Normalize(values, how, sqrt) && y in Normalize(values, how, sqrt)
    ensures Normalize(values, how, sqrt)[x] < Normalize(values, how, sqrt)[y]
  {
    if how.MinMax? { MinMaxKeepsOrder(values, sqrt, x, y); } else { ZScoreKeepsOrder(values, sqrt, x, y); }
  }

  lemma RatioOrder(x: real, y: real, centre: real, spread: real)
    requires spread > 0.0 && x < y
    ensures Ratio(x, centre, spread) < Ratio(y, centre, spread)
  {
    var q, r := (x - centre) / spread, (y - centre) / spread;
    TimesBack(x - centre, spread);
    TimesBack(y - centre, spread);
    ScaleOrder(spread, r, q);
  }

  // ----- the moments of zscore -----

  lemma {:induction false} PickLength(ids: seq<Text>, values: map<Text, real>)
    requires forall x :: x in ids ==> x in values
    ensures |Pick(ids, values)| == |ids|
  {
    if ids != [] {
      assert ids[0] in ids && forall x :: x in ids[1..] ==> x in ids;
      PickLength(ids[1..], values);
    }
  }

  lemma ScoresLength(values: map<Text, real>)
    ensures |Scores(values)| == |values|
  {
    var ids := SortedTexts(values.Keys);
    SortedTextsLists(values.Keys);
    PickLength(ids, values);
    DistinctCardinality(ids);
    assert Elements(ids) == values.Keys;
    assert |values| == |values.Keys|;
  }

  function RatioBy(centre: real, spread: real): real -> real {
    x => Ratio(x, centre, spread)
  }

  lemma RatioStandardizes(centre: real, spread: real)
    requires spread != 0.0
    ensures Standardizes(RatioBy(centre, spread), centre, spread)
  {
    forall x ensures RatioBy(centre, spread)(x) * spread == x - centre {
      TimesBack(x - centre, spread);
    }
  }

  /** The scores of a rescaled dictionary are the standardized scores. */
  lemma ScoresOfRescaled(values: map<Text, real>, centre: real, spread: real)
    ensures Scores(Rescaled(values, centre, spread)) == Apply(RatioBy(centre, spread), Scores(values))
  {
    ScoresOfApply(RatioBy(centre, spread), values);
    assert ApplyMap(RatioBy(centre, spread), values) == Rescaled(values, centre, spread);
  }

  /** Non-degenerate zscores sum to 0, their squares sum to their number n, and no square exceeds n - 1. */
  lemma ZScoreMoments(values: map<Text, real>, sqrt: real -> real, k: nat, z: real)
    requires IsSquareRoot(sqrt) && k < |values|
    requires Scores(values) != [] && sqrt(Variance(Scores(values))) != 0.0
    requires k < |Scores(Normalize(values, ZScore, sqrt))| && z == Scores(Normalize(values, ZScore, sqrt))[k]
    ensures var zs := Scores(Normalize(values, ZScore, sqrt));
            && |zs| == |values| && Sum(zs) == 0.0 && Sum(Squares(zs, 0.0)) == |values| as real
    ensures z * z <= |values| as real - 1.0
  {
    var xs := Scores(values);
    var m, v, n := Mean(xs), Variance(xs), |xs| as real;
    var s := sqrt(v);
    NormalizeByCentreAndSpread(values, ZScore, sqrt);
    ScoresOfRescaled(values, m, s);
    ScoresLength(values);
    VarianceNonNegative(xs);
    NamedZScores(xs, m, v, s, n, Apply(RatioBy(m, s), xs), k, z);
  }

  lemma NamedZScores(xs: seq<real>, m: real, v: real, s: real, n: real, zs: seq<real>, k: nat, z: real)
    requires xs != [] && m == Mean(xs) && v == Variance(xs)
    requires s != 0.0 && s * s == v && n == |xs| as real
    requires zs == Apply(RatioBy(m, s), xs) && k < |zs| && z == zs[k]
    ensures Sum(zs) == 0.0 && Sum(Squares(zs, 0.0)) == n && z * z <= n - 1.0
  {
    MeanTimesCount(xs, m, n);
    VarianceTimesCount(xs, m, v, n);
    RatioStandardizes(m, s);
    StandardizedList(xs, m, v, s, n, RatioBy(m, s), zs, k, z);
  }

  lemma StandardizedList(xs: seq<real>, m: real, v: real, s: real, n: real, f: real -> real, zs: seq<real>, k: nat,
      z: real)
    requires s != 0.0 && s * s == v && n == |xs| as real
    requires m * n == Sum(xs) && v * n == Sum(Squares(xs, m))
    requires Standardizes(f, m, s) && zs == Apply(f, xs) && k < |zs| && z == zs[k]
    ensures Sum(zs) == 0.0 && Sum(Squares(zs, 0.0)) == n && z * z <= n - 1.0
  {
    StandardMoments(f, xs, m, v, s, n);
    StandardBound(zs, k, n, z);
  }

  // ----- exactly when the score scale is ignored -----

  function Shift(b: real): real -> real {
    x => x + b
  }

  /** One document carries a score and one does not: a shift can put them in either order. */
  lemma ShiftDecides(docs: seq<Doc>, how: Normalization, sqrt: real -> real, x: Text, y: Text, b: real)
    requires !how.NoNormalization? && (how.ZScore? ==> IsSquareRoot(sqrt))
    requires x in Scored(docs) && Scored(docs)[x] && y in Scored(docs) && !Scored(docs)[y]
    ensures x in ScoreMap(docs) && y in ScoreMap(docs)
    ensures var after := Normalize(ScoreMap(ScaleDocs(Shift(b), docs)), how, sqrt);
            && x in after && y in after
            && (ScoreMap(docs)[x] + b < 0.0 ==> after[x] < after[y])
            && (ScoreMap(docs)[x] + b > 0.0 ==> after[y] < after[x])
  {
    ScaledDictionary(Shift(b), docs, x);
    ScaledDictionary(Shift(b), docs, y);
    var values := ScoreMap(ScaleDocs(Shift(b), docs));
    assert values[x] == ScoreMap(docs)[x] + b && values[y] == 0.0;
    if values[x] < 0.0 { NormalizeKeepsOrder(values, how, sqrt, x, y); }
    if values[x] > 0.0 { NormalizeKeepsOrder(values, how, sqrt, y, x); }
    if values[x] == 0.0 { assert values != map[]; }
  }

  lemma ShiftIsAffine(b: real)
    ensures IsAffine(Shift(b), 1.0, b)
  {
  }

  /** The shift that makes the document with a score come out on the other side of the one without. */
  function TurningShift(docs: seq<Doc>, x: Text, xIsAbove: bool): real
    requires x in ScoreMap(docs)
  {
    if xIsAbove then -1.0 - ScoreMap(docs)[x] else 1.0 - ScoreMap(docs)[x]
  }

  /** Every change of unit with a > 0 leaves the normalized scores alone. */
  ghost predicate NormalizationIgnoresUnits(docs: seq<Doc>, how: Normalization, sqrt: real -> real) {
    forall f: real -> real, a: real, b: real :: IsAffine(f, a, b) && a > 0.0 ==>
      Normalize(ScoreMap(ScaleDocs(f, docs)), how, sqrt) == Normalize(ScoreMap(docs), how, sqrt)
  }

  lemma MixedScores(docs: seq<Doc>) returns (x: Text, y: Text)
    requires !AllOrNoneScored(docs)
    ensures x in Scored(docs) && Scored(docs)[x] && y in Scored(docs) && !Scored(docs)[y]
    ensures x in ScoreMap(docs) && y in ScoreMap(docs)
  {
    x :| x in Scored(docs) && Scored(docs)[x];
    y :| y in Scored(docs) && !Scored(docs)[y];
    ScaledDictionary(Shift(0.0), docs, x);
    ScaledDictionary(Shift(0.0), docs, y);
  }

  /** minmax and zscore ignore every change of unit if and only if all counted documents carry a score,
      or none does. */
  lemma IgnoresUnitsExactly(docs: seq<Doc>, how: Normalization, sqrt: real -> real)
    requires !how.NoNormalization? && (how.ZScore? ==> IsSquareRoot(sqrt))
    ensures NormalizationIgnoresUnits(docs, how, sqrt) <==> AllOrNoneScored(docs)
  {
    if AllOrNoneScored(docs) {
      forall f: real -> real, a: real, b: real | IsAffine(f, a, b) && a > 0.0
        ensures Normalize(ScoreMap(ScaleDocs(f, docs)), how, sqrt) == Normalize(ScoreMap(docs), how, sqrt)
      {
        ScaledDocsNormalizeAlike(f, a, b, docs, how, sqrt);
      }
    } else {
      var x, y := MixedScores(docs);
      var before := Normalize(ScoreMap(docs), how, sqrt);
      assert x in before && y in before;
      var b := TurningShift(docs, x, before[x] >= before[y]);
      ShiftDecides(docs, how, sqrt, x, y, b);
      ShiftIsAffine(b);
      assert Normalize(ScoreMap(ScaleDocs(Shift(b), docs)), how, sqrt) != before;
    }
  }

  /** Every change of unit of either input leaves the ranking alone, at every weight. */
  ghost predicate RankingIgnoresUnits(q: Query, sqrt: real -> real)
    requires q.config.blend.NormalizeLinear?
  {
    forall f: real -> real, a: real, b: real, g: real -> real, c: real, d: real, w: real ::
      IsAffine(f, a, b) && a > 0.0 && IsAffine(g, c, d) && c > 0.0 ==>
        OrderAt(q.config, TablesOf(ScaledQuery(q, f, g), sqrt), w) == OrderAt(q.config, TablesOf(q, sqrt), w)
  }

  lemma AloneOnLexicalSide(config: Config, t: Tables, id: Text)
    requires config.blend.NormalizeLinear? && id in CandidateSet(t) && id in t.lNormal
    ensures id in LinesOf(config, t) && At(LinesOf(config, t)[id], 0.0) == t.lNormal[id]
  {
  }

  lemma AloneOnVectorSide(config: Config, t: Tables, id: Text)
    requires config.blend.NormalizeLinear? && id in CandidateSet(t) && id in t.vNormal
    ensures id in LinesOf(config, t) && At(LinesOf(config, t)[id], 1.0) == t.vNormal[id]
  {
  }

  lemma TurnedPairChangesOrder(config: Config, t: Tables, t': Tables, w: real, x: Text, y: Text)
    requires Divides(config, t) && Divides(config, t')
    requires AboveAt(LinesOf(config, t), w, x, y) && AboveAt(LinesOf(config, t'), w, y, x)
    ensures OrderAt(config, t, w) != OrderAt(config, t', w)
  {
    BlendIsRanking(config, t, w);
    BlendIsRanking(config, t', w);
    PositionIsAbove(LinesOf(config, t), w, OrderAt(config, t, w), x, y);
    PositionIsAbove(LinesOf(config, t'), w, OrderAt(config, t', w), x, y);
  }

  lemma MixedLexicalScoresShow(q: Query, sqrt: real -> real)
    requires q.config.blend.NormalizeLinear? && !q.config.normalization.NoNormalization?
    requires q.config.normalization.ZScore? ==> IsSquareRoot(sqrt)
    requires !AllOrNoneScored(Pool(q.lexicalDocs, q))
    ensures exists b :: OrderAt(q.config, TablesOf(ScaledQuery(q, Shift(b), Shift(0.0)), sqrt), 0.0) !=
                        OrderAt(q.config, TablesOf(q, sqrt), 0.0)
  {
    var docs, t := Pool(q.lexicalDocs, q), TablesOf(q, sqrt);
    var x, y := MixedScores(docs);
    AloneOnLexicalSide(q.config, t, x);
    AloneOnLexicalSide(q.config, t, y);
    AboveIsTotal(LinesOf(q.config, t), 0.0, x, y);
    var b := TurningShift(docs, x, AboveAt(LinesOf(q.config, t), 0.0, x, y));
    var t' := TablesOf(ScaledQuery(q, Shift(b), Shift(0.0)), sqrt);
    ScaledPool(Shift(b), q.lexicalDocs, q);
    ShiftDecides(docs, q.config.normalization, sqrt, x, y, b);
    ScaledDictionary(Shift(b), docs, x);
    ScaledDictionary(Shift(b), docs, y);
    AloneOnLexicalSide(q.config, t', x);
    AloneOnLexicalSide(q.config, t', y);
    if AboveAt(LinesOf(q.config, t), 0.0, x, y) {
      TurnedPairChangesOrder(q.config, t, t', 0.0, x, y);
    } else {
      TurnedPairChangesOrder(q.config, t, t', 0.0, y, x);
    }
  }

  lemma MixedVectorScoresShow(q: Query, sqrt: real -> real)
    requires q.config.blend.NormalizeLinear? && !q.config.normalization.NoNormalization?
    requires q.config.normalization.ZScore? ==> IsSquareRoot(sqrt)
    requires !AllOrNoneScored(Pool(q.vectorDocs, q))
    ensures exists b :: OrderAt(q.config, TablesOf(ScaledQuery(q, Shift(0.0), Shift(b)), sqrt), 1.0) !=
                        OrderAt(q.config, TablesOf(q, sqrt), 1.0)
  {
    var docs, t := Pool(q.vectorDocs, q), TablesOf(q, sqrt);
    var x, y := MixedScores(docs);
    AloneOnVectorSide(q.config, t, x);
    AloneOnVectorSide(q.config, t, y);
    AboveIsTotal(LinesOf(q.config, t), 1.0, x, y);
    var b := TurningShift(docs, x, AboveAt(LinesOf(q.config, t), 1.0, x, y));
    var t' := TablesOf(ScaledQuery(q, Shift(0.0), Shift(b)), sqrt);
    ScaledPool(Shift(b), q.vectorDocs, q);
    ShiftDecides(docs, q.config.normalization, sqrt, x, y, b);
    ScaledDictionary(Shift(b), docs, x);
    ScaledDictionary(Shift(b), docs, y);
    AloneOnVectorSide(q.config, t', x);
    AloneOnVectorSide(q.config, t', y);
    if AboveAt(LinesOf(q.config, t), 1.0, x, y) {
      TurnedPairChangesOrder(q.config, t, t', 1.0, x, y);
    } else {
      TurnedPairChangesOrder(q.config, t, t', 1.0, y, x);
    }
  }

  /** The blended ranking ignores every change of unit of its inputs if and only if in each input all
      counted documents carry a score, or none does. */
  lemma RankingIgnoresUnitsExactly(q: Query, sqrt: real -> real)
    requires q.config.blend.NormalizeLinear? && !q.config.normalization.NoNormalization?
    requires q.config.normalization.ZScore? ==> IsSquareRoot(sqrt)
    ensures RankingIgnoresUnits(q, sqrt) <==>
            AllOrNoneScored(Pool(q.lexicalDocs, q)) && AllOrNoneScored(Pool(q.vectorDocs, q))
  {
    ShiftIsAffine(0.0);
    if !AllOrNoneScored(Pool(q.lexicalDocs, q)) {
      MixedLexicalScoresShow(q, sqrt);
      var b :| OrderAt(q.config, TablesOf(ScaledQuery(q, Shift(b), Shift(0.0)), sqrt), 0.0) !=
               OrderAt(q.config, TablesOf(q, sqrt), 0.0);
      ShiftIsAffine(b);
    } else if !AllOrNoneScored(Pool(q.vectorDocs, q)) {
      MixedVectorScoresShow(q, sqrt);
      var b :| OrderAt(q.config, TablesOf(ScaledQuery(q, Shift(0.0), Shift(b)), sqrt), 1.0) !=
               OrderAt(q.config, TablesOf(q, sqrt), 1.0);
      ShiftIsAffine(b);
    } else {
      forall f: real -> real, a: real, b: real, g: real -> real, c: real, d: real, w: real
        | IsAffine(f, a, b) && a > 0.0 && IsAffine(g, c, d) && c > 0.0
        ensures OrderAt(q.config, TablesOf(ScaledQuery(q, f, g), sqrt), w) == OrderAt(q.config, TablesOf(q, sqrt), w)
      {
        BlendIgnoresScoreScale(q, sqrt, f, a, b, g, c, d);
      }
    }
  }

  // ----- a missing score breaks the scale invariance -----

  function AddFive(x: real): real { x + 5.0 }

  /** Document "a" scores -1.0 and document "b" carries no score, which counts as 0.0.  Adding 5.0 to
      every score the response carries turns their order round. */
  lemma MissingScoreBreaksInvariance(sqrt: real -> real)
    ensures var a, b := Text("a"), Text("b");
            var docs := [Doc(Some(a), Some(-1.0)), Doc(Some(b), None)];
            var before := Normalize(ScoreMap(docs), MinMax, sqrt);
            var after := Normalize(ScoreMap(ScaleDocs(AddFive, docs)), MinMax, sqrt);
            && IsAffine(AddFive, 1.0, 5.0)
            && a in before && b in before && before[a] < before[b]
            && a in after && b in after && after[b] < after[a]
  {
    var a, b := Text("a"), Text("b");
    var x, y := Doc(Some(a), Some(-1.0)), Doc(Some(b), None);
    var scaled := ScaleDocs(AddFive, [x, y]);
    assert a.chars == "a" && b.chars == "b";
    TwoScores(x, y, a, b);
    assert [x, y][..1] == [x] && [x][..0] == [];
    assert ScaleDocs(AddFive, [x]) == [ScaleDoc(AddFive, x)];
    assert scaled == [Doc(Some(a), Some(4.0)), y];
    TwoScores(Doc(Some(a), Some(4.0)), y, a, b);
    MinMaxKeepsOrder(ScoreMap([x, y]), sqrt, a, b);
    MinMaxKeepsOrder(ScoreMap(scaled), sqrt, b, a);
  }

  lemma TwoScores(x: Doc, y: Doc, a: Text, b: Text)
    requires x.id == Some(a) && y.id == Some(b) && a != b
    ensures ScoreMap([x, y]) == map[a := SafeFloat(x.score), b := SafeFloat(y.score)]
  {
    assert [x, y][..1] == [x] && [x][..0] == [];
    assert ScoreMap([x]) == map[a := SafeFloat(x.score)];
  }
}
