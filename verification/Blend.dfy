/** Hybrid blending of a lexical and a vector candidate list. */
module Blend {
  import opened Prelude
  import opened Sorting
  import opened Stats

  /** One retrieved document; either field may be missing from the response. */
  datatype Doc = Doc(id: Option<Text>, score: Option<real>)

  datatype BlendMethod = Linear | NormalizeLinear | Rrf

  datatype Normalization = NoNormalization | MinMax | ZScore

  datatype Config = Config(blend: BlendMethod, topK: int, candidatePool: int, normalization: Normalization,
                           missingVectorScore: real, missingLexicalScore: real, rrfK: int)

  datatype Row = Row(id: Text, score: real, lexicalScore: Option<real>, vectorScore: Option<real>,
                     lexicalComponent: real, vectorComponent: real)

  datatype RankedRow = RankedRow(row: Row, rank: nat)

  datatype BlendError = DivisionByZero

  // ----- score and rank dictionaries -----

  function SafeFloat(value: Option<real>): real {
    match value
    case Some(x) => x
    case None => 0.0
  }

  /** Document id to score; a repeated id keeps its last score. */
  function ScoreMap(docs: seq<Doc>): map<Text, real> {
    if docs == [] then map[]
    else
      var before, doc := ScoreMap(docs[..|docs| - 1]), docs[|docs| - 1];
      if doc.id.None? then before else before[doc.id.value := SafeFloat(doc.score)]
  }

  method BuildScoreMap(docs: seq<Doc>) returns (out: map<Text, real>)
    ensures out == ScoreMap(docs)
  {
    out := map[];
    for i := 0 to |docs|
      invariant out == ScoreMap(docs[..i])
    {
      assert docs[..i + 1][..i] == docs[..i];
      var item := docs[i];
      if item.id.None? {
        continue;
      }
      out := out[item.id.value := SafeFloat(item.score)];
    }
    assert docs[..|docs|] == docs;
  }

  /** Document id to 1-based rank; documents without an id still use up a rank. */
  function RankMap(docs: seq<Doc>): (m: map<Text, int>)
    ensures m.Keys == ScoreMap(docs).Keys
    ensures forall x :: x in m ==> 1 <= m[x] <= |docs|
  {
    if docs == [] then map[]
    else
      var before, doc := RankMap(docs[..|docs| - 1]), docs[|docs| - 1];
      if doc.id.None? then before else before[doc.id.value := |docs|]
  }

  method BuildRankMap(docs: seq<Doc>) returns (out: map<Text, int>)
    ensures out == RankMap(docs)
  {
    out := map[];
    for i := 0 to |docs|
      invariant out == RankMap(docs[..i])
    {
      assert docs[..i + 1][..i] == docs[..i];
      var item := docs[i];
      if item.id.None? {
        continue;
      }
      out := out[item.id.value := i + 1];
    }
    assert docs[..|docs|] == docs;
  }

  // ----- normalization -----

  function Pick(ids: seq<Text>, values: map<Text, real>): seq<real>
    requires forall x :: x in ids ==> x in values
  {
    if ids == [] then []
    else
      assert ids[0] in ids && forall x :: x in ids[1..] ==> x in ids;
      [values[ids[0]]] + Pick(ids[1..], values)
  }

  /** The scores of a dictionary, listed by ascending id. */
  function Scores(values: map<Text, real>): seq<real> {
    SortedTextsLists(values.Keys);
    Pick(SortedTexts(values.Keys), values)
  }

  lemma ScoresNonEmpty(values: map<Text, real>)
    requires values != map[]
    ensures Scores(values) != []
  {
    var x :| x in values;
    SortedTextsLists(values.Keys);
    assert x in SortedTexts(values.Keys);
  }

  /** `sqrt` stands for the library square root. */
  function Normalize(values: map<Text, real>, how: Normalization, sqrt: real -> real): map<Text, real> {
    if how.NoNormalization? || values == map[] then values
    else
      ScoresNonEmpty(values);
      if how.MinMax? then Rescaled(values, Min(Scores(values)), Max(Scores(values)) - Min(Scores(values)))
      else Rescaled(values, Mean(Scores(values)), sqrt(Variance(Scores(values))))
  }

  function Ratio(score: real, centre: real, spread: real): real {
    if spread == 0.0 then 1.0 else (score - centre) / spread
  }

  /** (score - centre) / spread, or 1.0 throughout when there is no spread. */
  function Rescaled(values: map<Text, real>, centre: real, spread: real): map<Text, real> {
    map x | x in values :: Ratio(values[x], centre, spread)
  }

  // ----- blending -----

  /** One query's inputs to the blend. */
  datatype Query = Query(config: Config, lexicalDocs: seq<Doc>, vectorDocs: seq<Doc>)

  /** The dictionaries the candidate loop looks scores and ranks up in. */
  datatype Tables = Tables(lScore: map<Text, real>, vScore: map<Text, real>,
                           lRank: map<Text, int>, vRank: map<Text, int>,
                           lNormal: map<Text, real>, vNormal: map<Text, real>)

  function NormalizationOf(config: Config): Normalization {
    if config.blend.NormalizeLinear? then config.normalization else NoNormalization
  }

  function TablesOf(q: Query, sqrt: real -> real): Tables {
    var lexical := SliceTo(q.lexicalDocs, q.config.candidatePool);
    var vector := SliceTo(q.vectorDocs, q.config.candidatePool);
    var how := NormalizationOf(q.config);
    Tables(ScoreMap(lexical), ScoreMap(vector), RankMap(lexical), RankMap(vector),
           Normalize(ScoreMap(lexical), how, sqrt), Normalize(ScoreMap(vector), how, sqrt))
  }

  function CandidateSet(t: Tables): set<Text> {
    t.lScore.Keys + t.vScore.Keys
  }

  function Candidates(t: Tables): seq<Text> {
    SortedTexts(CandidateSet(t))
  }

  predicate NoZeroDivisor(rrfK: int, ranks: map<Text, int>, id: Text) {
    id in ranks ==> rrfK + ranks[id] != 0
  }

  /** Reciprocal rank fusion divides by rrf_k + rank for every listed candidate. */
  predicate Divides(config: Config, t: Tables) {
    forall id :: id in CandidateSet(t) ==> Scorable(config, t, id)
  }

  function GetOr<V>(m: map<Text, V>, id: Text, default: V): V {
    if id in m then m[id] else default
  }

  function Find<V>(m: map<Text, V>, id: Text): Option<V> {
    if id in m then Some(m[id]) else None
  }

  function ReciprocalRank(weight: real, rrfK: int, ranks: map<Text, int>, id: Text): real
    requires NoZeroDivisor(rrfK, ranks, id)
  {
    if id in ranks then weight / (rrfK + ranks[id]) as real else 0.0
  }

  predicate Scorable(config: Config, t: Tables, id: Text) {
    config.blend.Rrf? ==> NoZeroDivisor(config.rrfK, t.lRank, id) && NoZeroDivisor(config.rrfK, t.vRank, id)
  }

  function LexicalPart(config: Config, t: Tables, weight: real, id: Text): real
    requires Scorable(config, t, id)
  {
    if config.blend.Rrf? then ReciprocalRank(weight, config.rrfK, t.lRank, id)
    else weight * GetOr(t.lNormal, id, config.missingLexicalScore)
  }

  function VectorPart(config: Config, t: Tables, weight: real, id: Text): real
    requires Scorable(config, t, id)
  {
    if config.blend.Rrf? then ReciprocalRank(weight, config.rrfK, t.vRank, id)
    else weight * GetOr(t.vNormal, id, config.missingVectorScore)
  }

  function RowFor(config: Config, t: Tables, weightLexical: real, weightVector: real, id: Text): Row
    requires Scorable(config, t, id)
  {
    var lPart, vPart := LexicalPart(config, t, weightLexical, id), VectorPart(config, t, weightVector, id);
    Row(id, lPart + vPart, Find(t.lScore, id), Find(t.vScore, id), lPart, vPart)
  }

  predicate HigherScore(a: Row, b: Row) {
    a.score > b.score
  }

  /** The rows of the first n ids. */
  function RowsFor(config: Config, t: Tables, weightLexical: real, weightVector: real, ids: seq<Text>,
      n: nat): (r: seq<Row>)
    requires n <= |ids| && AllScorable(config, t, ids, n)
    ensures |r| == n
  {
    seq(n, i requires 0 <= i < n => RowFor(config, t, weightLexical, weightVector, ids[i]))
  }

  predicate AllScorable(config: Config, t: Tables, ids: seq<Text>, n: nat)
    requires n <= |ids|
  {
    forall i :: 0 <= i < n ==> Scorable(config, t, ids[i])
  }

  lemma RowsForAt(config: Config, t: Tables, weightLexical: real, weightVector: real, ids: seq<Text>, n: nat, i: nat)
    requires i < n <= |ids| && AllScorable(config, t, ids, n)
    ensures RowsFor(config, t, weightLexical, weightVector, ids, n)[i] ==
            RowFor(config, t, weightLexical, weightVector, ids[i])
  {
  }

  lemma RowsForNext(config: Config, t: Tables, weightLexical: real, weightVector: real, ids: seq<Text>, n: nat)
    requires n < |ids| && AllScorable(config, t, ids, n + 1)
    ensures RowsFor(config, t, weightLexical, weightVector, ids, n + 1) ==
            RowsFor(config, t, weightLexical, weightVector, ids, n)
            + [RowFor(config, t, weightLexical, weightVector, ids[n])]
  {
  }

  lemma CandidatesScorable(config: Config, t: Tables)
    ensures Divides(config, t) <==> AllScorable(config, t, Candidates(t), |Candidates(t)|)
  {
    var ids := Candidates(t);
    SortedTextsLists(CandidateSet(t));
    if AllScorable(config, t, ids, |ids|) {
      forall id | id in CandidateSet(t) ensures Scorable(config, t, id) {
        assert id in ids;
      }
    }
    if Divides(config, t) {
      forall i | 0 <= i < |ids| ensures Scorable(config, t, ids[i]) {
        assert ids[i] in ids;
      }
    }
  }

  function CandidateRows(config: Config, t: Tables, weightLexical: real, weightVector: real): (r: seq<Row>)
    requires Divides(config, t)
    ensures |r| == |Candidates(t)|
  {
    CandidatesScorable(config, t);
    RowsFor(config, t, weightLexical, weightVector, Candidates(t), |Candidates(t)|)
  }

  /** Every candidate, best score first. */
  function FullRanking(config: Config, t: Tables, weightLexical: real, weightVector: real): seq<Row>
    requires Divides(config, t)
  {
    StableSort(CandidateRows(config, t, weightLexical, weightVector), HigherScore)
  }

  function WithRanks(rows: seq<Row>): (r: seq<RankedRow>)
    ensures |r| == |rows|
    ensures forall i :: 0 <= i < |rows| ==> r[i] == RankedRow(rows[i], i + 1)
  {
    seq(|rows|, i requires 0 <= i < |rows| => RankedRow(rows[i], i + 1))
  }

  method ToRankedDocs(rows: seq<Row>) returns (ranked: seq<RankedRow>)
    ensures ranked == WithRanks(rows)
  {
    ranked := [];
    for i := 0 to |rows|
      invariant ranked == WithRanks(rows[..i])
    {
      ranked := ranked + [RankedRow(rows[i], i + 1)];
    }
    assert rows[..|rows|] == rows;
  }

  method ReciprocalPart(weight: real, rrfK: int, ranks: map<Text, int>, id: Text)
    returns (part: Result<real, BlendError>)
    ensures part.Ok? <==> NoZeroDivisor(rrfK, ranks, id)
    ensures part.Ok? ==> part.value == ReciprocalRank(weight, rrfK, ranks, id)
  {
    if id in ranks {
      if rrfK + ranks[id] == 0 {
        return Err(DivisionByZero);
      }
      return Ok(weight / (rrfK + ranks[id]) as real);
    }
    part := Ok(0.0);
  }

  /** The candidate loop of reciprocal rank fusion; it stops at the first zero divisor. */
  method RrfRows(config: Config, t: Tables, weightLexical: real, weightVector: real, candidates: seq<Text>)
    returns (r: Result<seq<Row>, BlendError>)
    requires config.blend.Rrf?
    ensures r.Ok? <==> AllScorable(config, t, candidates, |candidates|)
    ensures r.Ok? ==> r.value == RowsFor(config, t, weightLexical, weightVector, candidates, |candidates|)
  {
    var rows: seq<Row> := [];
    for i := 0 to |candidates|
      invariant AllScorable(config, t, candidates, i)
      invariant rows == RowsFor(config, t, weightLexical, weightVector, candidates, i)
    {
      var id := candidates[i];
      var lPart := ReciprocalPart(weightLexical, config.rrfK, t.lRank, id);
      if lPart.Err? {
        return Err(lPart.error);
      }
      var vPart := ReciprocalPart(weightVector, config.rrfK, t.vRank, id);
      if vPart.Err? {
        return Err(vPart.error);
      }
      RowsForNext(config, t, weightLexical, weightVector, candidates, i);
      var score := lPart.value + vPart.value;
      rows := rows + [Row(id, score, Find(t.lScore, id), Find(t.vScore, id), lPart.value, vPart.value)];
    }
    r := Ok(rows);
  }

  /** The candidate loop of the two linear methods. */
  method LinearRows(config: Config, t: Tables, weightLexical: real, weightVector: real, candidates: seq<Text>)
    returns (rows: seq<Row>)
    requires !config.blend.Rrf?
    ensures rows == RowsFor(config, t, weightLexical, weightVector, candidates, |candidates|)
  {
    rows := [];
    for i := 0 to |candidates|
      invariant AllScorable(config, t, candidates, i)
      invariant rows == RowsFor(config, t, weightLexical, weightVector, candidates, i)
    {
      var id := candidates[i];
      var lVal := GetOr(t.lNormal, id, config.missingLexicalScore);
      var vVal := GetOr(t.vNormal, id, config.missingVectorScore);
      var lComponent := weightLexical * lVal;
      var vComponent := weightVector * vVal;
      var row := Row(id, lComponent + vComponent, Find(t.lScore, id), Find(t.vScore, id), lComponent, vComponent);
      assert row == RowFor(config, t, weightLexical, weightVector, id);
      RowsForNext(config, t, weightLexical, weightVector, candidates, i);
      rows := rows + [row];
    }
  }

  method BuildTables(q: Query, sqrt: real -> real) returns (t: Tables)
    ensures t == TablesOf(q, sqrt)
  {
    var lexicalDocs := SliceTo(q.lexicalDocs, q.config.candidatePool);
    var vectorDocs := SliceTo(q.vectorDocs, q.config.candidatePool);
    var lScore := BuildScoreMap(lexicalDocs);
    var vScore := BuildScoreMap(vectorDocs);
    var lRank := BuildRankMap(lexicalDocs);
    var vRank := BuildRankMap(vectorDocs);
    var how := NormalizationOf(q.config);
    t := Tables(lScore, vScore, lRank, vRank, Normalize(lScore, how, sqrt), Normalize(vScore, how, sqrt));
  }

  // ----- what a blended row says about its document -----

  /** docs[i] is the occurrence of id that counts: its last one. */
  ghost predicate LastAt(docs: seq<Doc>, id: Text, i: nat) {
    i < |docs| && docs[i].id == Some(id) && forall j :: i < j < |docs| ==> docs[j].id != Some(id)
  }

  ghost predicate Listed(docs: seq<Doc>, id: Text) {
    exists i :: 0 <= i < |docs| && docs[i].id == Some(id)
  }

  lemma {:induction false} ListedLast(docs: seq<Doc>, id: Text)
    ensures Listed(docs, id) <==> exists i: nat :: LastAt(docs, id, i)
  {
    if Listed(docs, id) {
      var last := |docs| - 1;
      if docs[last].id == Some(id) {
        assert LastAt(docs, id, last);
      } else {
        var i :| 0 <= i < |docs| && docs[i].id == Some(id);
        assert docs[..last][i].id == Some(id);
        ListedLast(docs[..last], id);
        var k: nat :| LastAt(docs[..last], id, k);
        forall j | k < j < |docs| ensures docs[j].id != Some(id) {
          assert j < last ==> docs[..last][j] == docs[j];
        }
        assert LastAt(docs, id, k);
      }
    }
  }

  /** The score of each listed document: that of its last occurrence, 0.0 if that carries none. */
  ghost predicate OwnScores(docs: seq<Doc>, own: map<Text, real>) {
    && (forall id :: id in own <==> Listed(docs, id))
    && forall id, i: nat :: LastAt(docs, id, i) ==>
         id in own && own[id] == if docs[i].score.Some? then docs[i].score.value else 0.0
  }

  lemma {:induction false} DictionariesExactly(docs: seq<Doc>, id: Text)
    ensures id in ScoreMap(docs) <==> Listed(docs, id)
    ensures id in RankMap(docs) <==> Listed(docs, id)
    ensures forall i: nat :: LastAt(docs, id, i) ==>
              && id in ScoreMap(docs) && id in RankMap(docs) && RankMap(docs)[id] == i + 1
              && ScoreMap(docs)[id] == if docs[i].score.Some? then docs[i].score.value else 0.0
  {
    if docs != [] {
      var init, last := docs[..|docs| - 1], docs[|docs| - 1];
      DictionariesExactly(init, id);
      assert Listed(docs, id) <==> Listed(init, id) || last.id == Some(id) by {
        if Listed(init, id) {
          var i :| 0 <= i < |init| && init[i].id == Some(id);
          assert docs[i].id == Some(id);
        }
        if i :| 0 <= i < |docs| && docs[i].id == Some(id) {
          assert i < |init| ==> init[i].id == Some(id);
        }
      }
      forall i: nat | LastAt(docs, id, i)
        ensures id in ScoreMap(docs) && id in RankMap(docs) && RankMap(docs)[id] == i + 1
        ensures ScoreMap(docs)[id] == if docs[i].score.Some? then docs[i].score.value else 0.0
      {
        if i < |init| {
          assert last.id != Some(id);
          assert LastAt(init, id, i) by {
            forall j | i < j < |init| ensures init[j].id != Some(id) { assert docs[j] == init[j]; }
          }
        }
      }
    }
  }

  lemma ScoreMapIsOwn(docs: seq<Doc>)
    ensures OwnScores(docs, ScoreMap(docs))
  {
    forall id ensures id in ScoreMap(docs) <==> Listed(docs, id) { DictionariesExactly(docs, id); }
    forall id, i: nat | LastAt(docs, id, i)
      ensures id in ScoreMap(docs)
              && ScoreMap(docs)[id] == if docs[i].score.Some? then docs[i].score.value else 0.0
    {
      DictionariesExactly(docs, id);
    }
  }

  /** lo is the smallest and hi the largest of the scores. */
  ghost predicate Spans(own: map<Text, real>, lo: real, hi: real) {
    && (exists id :: id in own && own[id] == lo) && (exists id :: id in own && own[id] == hi)
    && forall id :: id in own ==> lo <= own[id] <= hi
  }

  /** m is the mean of the scores and d their standard deviation. */
  ghost predicate MeanAndDeviation(own: map<Text, real>, m: real, d: real) {
    var xs, n := Scores(own), |own| as real;
    m * n == Sum(xs) && d >= 0.0 && (d * d) * n == Sum(Squares(xs, m))
  }

  /** Every value is the score relative to `centre` in units of `spread`, or 1.0 without a spread. */
  ghost predicate Relative(own: map<Text, real>, normal: map<Text, real>, centre: real, spread: real) {
    forall id :: id in own && id in normal ==>
      if spread == 0.0 then normal[id] == 1.0 else normal[id] * spread == own[id] - centre
  }

  /** What the blend adds up in place of the scores. */
  ghost predicate IsNormalized(own: map<Text, real>, how: Normalization, normal: map<Text, real>) {
    && normal.Keys == own.Keys
    && match how
       case NoNormalization => normal == own
       case MinMax => forall lo, hi :: Spans(own, lo, hi) ==> Relative(own, normal, lo, hi - lo)
       case ZScore => own == map[] || exists m, d :: MeanAndDeviation(own, m, d) && Relative(own, normal, m, d)
  }

  lemma {:induction false} PickHolds(ids: seq<Text>, values: map<Text, real>)
    requires forall x :: x in ids ==> x in values
    ensures |Pick(ids, values)| == |ids| && forall i :: 0 <= i < |ids| ==> Pick(ids, values)[i] == values[ids[i]]
  {
    if ids != [] {
      assert ids[0] in ids && forall x :: x in ids[1..] ==> x in ids;
      PickHolds(ids[1..], values);
    }
  }

  /** The listed scores are those of the dictionary, each id's once. */
  lemma ScoresList(values: map<Text, real>)
    ensures |Scores(values)| == |values|
    ensures forall id :: id in values ==> values[id] in Scores(values)
    ensures forall x :: x in Scores(values) ==> exists id :: id in values && values[id] == x
  {
    var ids := SortedTexts(values.Keys);
    SortedTextsLists(values.Keys);
    PickHolds(ids, values);
    DistinctCardinality(ids);
    assert Elements(ids) == values.Keys;
    forall id | id in values ensures values[id] in Scores(values) {
      assert id in ids;
      var i :| 0 <= i < |ids| && ids[i] == id;
      assert Scores(values)[i] == values[id];
    }
    forall x | x in Scores(values) ensures exists id :: id in values && values[id] == x {
      var i :| 0 <= i < |Scores(values)| && Scores(values)[i] == x;
      assert ids[i] in ids && values[ids[i]] == x;
    }
  }

  lemma RatioTimes(score: real, centre: real, spread: real)
    requires spread != 0.0
    ensures Ratio(score, centre, spread) * spread == score - centre
  {
    TimesBack(score - centre, spread);
  }

  lemma RescaledIsRelative(values: map<Text, real>, centre: real, spread: real)
    ensures Relative(values, Rescaled(values, centre, spread), centre, spread)
  {
    forall id | id in values && spread != 0.0
      ensures Rescaled(values, centre, spread)[id] * spread == values[id] - centre
    {
      RatioTimes(values[id], centre, spread);
    }
  }

  lemma MinMaxExactly(values: map<Text, real>, sqrt: real -> real)
    ensures IsNormalized(values, MinMax, Normalize(values, MinMax, sqrt))
  {
    if values != map[] {
      ScoresNonEmpty(values);
      ScoresList(values);
      var lo, hi := Min(Scores(values)), Max(Scores(values));
      RescaledIsRelative(values, lo, hi - lo);
      forall l, h | Spans(values, l, h) ensures l == lo && h == hi {
        assert l in Scores(values) && h in Scores(values) && lo in Scores(values) && hi in Scores(values);
      }
    }
  }

  lemma MeasuresMeanAndDeviation(values: map<Text, real>, sqrt: real -> real, m: real, v: real, n: real)
    requires IsSquareRoot(sqrt) && values != map[] && Scores(values) != [] && |Scores(values)| == |values|
    requires m == Mean(Scores(values)) && v == Variance(Scores(values)) && n == |values| as real
    ensures MeanAndDeviation(values, m, sqrt(v))
  {
    VarianceNonNegative(Scores(values));
    TimesBack(Sum(Scores(values)), n);
    TimesBack(Sum(Squares(Scores(values), m)), n);
  }

  lemma ZScoreExactly(values: map<Text, real>, sqrt: real -> real)
    requires IsSquareRoot(sqrt)
    ensures IsNormalized(values, ZScore, Normalize(values, ZScore, sqrt))
  {
    if values != map[] {
      ScoresNonEmpty(values);
      ScoresList(values);
      var m, v := Mean(Scores(values)), Variance(Scores(values));
      MeasuresMeanAndDeviation(values, sqrt, m, v, |values| as real);
      RescaledIsRelative(values, m, sqrt(v));
    }
  }

  lemma NormalizeExactly(values: map<Text, real>, how: Normalization, sqrt: real -> real)
    requires how.ZScore? ==> IsSquareRoot(sqrt)
    ensures IsNormalized(values, how, Normalize(values, how, sqrt))
  {
    match how
    case NoNormalization =>
    case MinMax => MinMaxExactly(values, sqrt);
    case ZScore => ZScoreExactly(values, sqrt);
  }

  /** part times the divisor gives back the weight. */
  ghost predicate SharesOut(part: real, divisor: real, weight: real) {
    part * divisor == weight
  }

  /** A reciprocal rank share: the weight divided by rrf_k plus the 1-based rank, nothing if not listed. */
  ghost predicate IsReciprocalShare(part: real, weight: real, rrfK: int, docs: seq<Doc>, id: Text) {
    && (!Listed(docs, id) ==> part == 0.0)
    && forall i: nat :: LastAt(docs, id, i) ==> SharesOut(part, (rrfK + i + 1) as real, weight)
  }

  /** A linear share: the weight times the document's value, or times the configured one if it is not listed. */
  ghost predicate IsLinearShare(part: real, weight: real, normal: map<Text, real>, id: Text, missing: real) {
    && (id in normal ==> part == weight * normal[id])
    && (id !in normal ==> part == weight * missing)
  }

  /** One row: the scores as reported, a share of each side, and their sum. */
  ghost predicate RowExplained(config: Config, weightLexical: real, weightVector: real,
      lexical: seq<Doc>, vector: seq<Doc>, ownL: map<Text, real>, ownV: map<Text, real>,
      normalL: map<Text, real>, normalV: map<Text, real>, row: Row)
  {
    var id := row.id;
    && (Listed(lexical, id) || Listed(vector, id))
    && row.lexicalScore == (if id in ownL then Some(ownL[id]) else None)
    && row.vectorScore == (if id in ownV then Some(ownV[id]) else None)
    && row.score == row.lexicalComponent + row.vectorComponent
    && (config.blend.Rrf? ==>
          && IsReciprocalShare(row.lexicalComponent, weightLexical, config.rrfK, lexical, id)
          && IsReciprocalShare(row.vectorComponent, weightVector, config.rrfK, vector, id))
    && (!config.blend.Rrf? ==>
          && IsLinearShare(row.lexicalComponent, weightLexical, normalL, id, config.missingLexicalScore)
          && IsLinearShare(row.vectorComponent, weightVector, normalV, id, config.missingVectorScore))
  }

  /** Every listed document once, each row with its own shares, best score first and ties by ascending id. */
  ghost predicate RankingExplained(q: Query, weightLexical: real, weightVector: real, full: seq<Row>) {
    var lexical := SliceTo(q.lexicalDocs, q.config.candidatePool);
    var vector := SliceTo(q.vectorDocs, q.config.candidatePool);
    && InOrder(full, RowBefore)
    && (forall id :: id in Ids(full) <==> Listed(lexical, id) || Listed(vector, id))
    && exists ownL, ownV, normalL, normalV ::
         RowsExplained(q.config, weightLexical, weightVector, lexical, vector, full, ownL, ownV, normalL, normalV)
  }

  ghost predicate RowsExplained(config: Config, weightLexical: real, weightVector: real, lexical: seq<Doc>,
      vector: seq<Doc>, rows: seq<Row>, ownL: map<Text, real>, ownV: map<Text, real>, normalL: map<Text, real>,
      normalV: map<Text, real>)
  {
    var how := if config.blend.NormalizeLinear? then config.normalization else NoNormalization;
    && OwnScores(lexical, ownL) && OwnScores(vector, ownV)
    && IsNormalized(ownL, how, normalL) && IsNormalized(ownV, how, normalV)
    && forall k :: 0 <= k < |rows| ==>
         RowExplained(config, weightLexical, weightVector, lexical, vector, ownL, ownV, normalL, normalV, rows[k])
  }

  /** The first topK rows, numbered from 1. */
  ghost predicate IsTop(ranked: seq<RankedRow>, full: seq<Row>, topK: int) {
    |ranked| == |SliceTo(full, topK)|
    && forall k :: 0 <= k < |ranked| ==> ranked[k].row == full[k] && ranked[k].rank == k + 1
  }

  /** The result of a blend, in terms of the two lists of documents and their scores. */
  ghost predicate Explained(q: Query, weightLexical: real, weightVector: real, ranked: seq<RankedRow>) {
    exists full :: RankingExplained(q, weightLexical, weightVector, full) && IsTop(ranked, full, q.config.topK)
  }

  ghost predicate DividesBy(rrfK: int, docs: seq<Doc>) {
    forall id, i: nat :: LastAt(docs, id, i) ==> rrfK + i + 1 != 0
  }

  /** rrf fails exactly when rrf_k cancels the rank of a listed document. */
  ghost predicate Succeeds(q: Query) {
    q.config.blend.Rrf? ==>
      && DividesBy(q.config.rrfK, SliceTo(q.lexicalDocs, q.config.candidatePool))
      && DividesBy(q.config.rrfK, SliceTo(q.vectorDocs, q.config.candidatePool))
  }

  lemma DividesByExactly(rrfK: int, docs: seq<Doc>)
    ensures DividesBy(rrfK, docs) <==> forall id :: id in RankMap(docs) ==> rrfK + RankMap(docs)[id] != 0
  {
    if DividesBy(rrfK, docs) {
      forall id | id in RankMap(docs) ensures rrfK + RankMap(docs)[id] != 0 {
        DictionariesExactly(docs, id);
        ListedLast(docs, id);
        var i: nat :| LastAt(docs, id, i);
      }
    } else {
      var id, i: nat :| LastAt(docs, id, i) && rrfK + i + 1 == 0;
      DictionariesExactly(docs, id);
    }
  }

  lemma SucceedsExactly(q: Query, sqrt: real -> real)
    ensures Divides(q.config, TablesOf(q, sqrt)) <==> Succeeds(q)
  {
    var lexical := SliceTo(q.lexicalDocs, q.config.candidatePool);
    var vector := SliceTo(q.vectorDocs, q.config.candidatePool);
    DividesByExactly(q.config.rrfK, lexical);
    DividesByExactly(q.config.rrfK, vector);
    forall id ensures id in RankMap(lexical) <==> id in ScoreMap(lexical)
              ensures id in RankMap(vector) <==> id in ScoreMap(vector) {
      DictionariesExactly(lexical, id);
      DictionariesExactly(vector, id);
    }
    var t := TablesOf(q, sqrt);
    if Divides(q.config, t) && q.config.blend.Rrf? {
      forall id | id in RankMap(lexical) || id in RankMap(vector) ensures Scorable(q.config, t, id) {
        assert id in CandidateSet(t);
      }
    }
  }

  lemma ShareAt(weight: real, rrfK: int, ranks: map<Text, int>, id: Text, divisor: real)
    requires id in ranks && rrfK + ranks[id] != 0 && divisor == (rrfK + ranks[id]) as real
    ensures SharesOut(ReciprocalRank(weight, rrfK, ranks, id), divisor, weight)
  {
    TimesBack(weight, divisor);
  }

  lemma ShareExactly(weight: real, rrfK: int, docs: seq<Doc>, ranks: map<Text, int>, id: Text, part: real)
    requires ranks == RankMap(docs) && NoZeroDivisor(rrfK, ranks, id)
    requires part == ReciprocalRank(weight, rrfK, ranks, id)
    ensures IsReciprocalShare(part, weight, rrfK, docs, id)
  {
    DictionariesExactly(docs, id);
    if id in ranks {
      ShareAt(weight, rrfK, ranks, id, (rrfK + ranks[id]) as real);
      forall i: nat | LastAt(docs, id, i) ensures SharesOut(part, (rrfK + i + 1) as real, weight) {
        assert ranks[id] == i + 1;
      }
    }
  }

  lemma RrfSharesExplained(config: Config, t: Tables, weightLexical: real, weightVector: real, id: Text,
      lexical: seq<Doc>, vector: seq<Doc>)
    requires config.blend.Rrf? && Scorable(config, t, id)
    requires t.lRank == RankMap(lexical) && t.vRank == RankMap(vector)
    ensures IsReciprocalShare(LexicalPart(config, t, weightLexical, id), weightLexical, config.rrfK, lexical, id)
    ensures IsReciprocalShare(VectorPart(config, t, weightVector, id), weightVector, config.rrfK, vector, id)
  {
    ShareExactly(weightLexical, config.rrfK, lexical, t.lRank, id, LexicalPart(config, t, weightLexical, id));
    ShareExactly(weightVector, config.rrfK, vector, t.vRank, id, VectorPart(config, t, weightVector, id));
  }

  lemma LinearSharesExplained(config: Config, t: Tables, weightLexical: real, weightVector: real, id: Text)
    requires !config.blend.Rrf?
    ensures IsLinearShare(LexicalPart(config, t, weightLexical, id), weightLexical, t.lNormal, id,
                          config.missingLexicalScore)
    ensures IsLinearShare(VectorPart(config, t, weightVector, id), weightVector, t.vNormal, id,
                          config.missingVectorScore)
  {
  }

  /** The columns besides the two shares. */
  lemma RowColumns(config: Config, t: Tables, weightLexical: real, weightVector: real, id: Text)
    requires Scorable(config, t, id)
    ensures var row := RowFor(config, t, weightLexical, weightVector, id);
            && row.id == id && row.score == row.lexicalComponent + row.vectorComponent
            && row.lexicalScore == (if id in t.lScore then Some(t.lScore[id]) else None)
            && row.vectorScore == (if id in t.vScore then Some(t.vScore[id]) else None)
            && row.lexicalComponent == LexicalPart(config, t, weightLexical, id)
            && row.vectorComponent == VectorPart(config, t, weightVector, id)
  {
  }

  lemma RowIsExplained(config: Config, t: Tables, weightLexical: real, weightVector: real, id: Text,
      lexical: seq<Doc>, vector: seq<Doc>, row: Row)
    requires id in CandidateSet(t) && Scorable(config, t, id)
    requires t.lScore == ScoreMap(lexical) && t.vScore == ScoreMap(vector)
    requires t.lRank == RankMap(lexical) && t.vRank == RankMap(vector)
    requires row == RowFor(config, t, weightLexical, weightVector, id)
    ensures RowExplained(config, weightLexical, weightVector, lexical, vector, t.lScore, t.vScore,
                         t.lNormal, t.vNormal, row)
  {
    DictionariesExactly(lexical, id);
    DictionariesExactly(vector, id);
    RowColumns(config, t, weightLexical, weightVector, id);
    if config.blend.Rrf? {
      RrfSharesExplained(config, t, weightLexical, weightVector, id, lexical, vector);
    } else {
      LinearSharesExplained(config, t, weightLexical, weightVector, id);
    }
  }

  lemma RankedAreRows(config: Config, t: Tables, weightLexical: real, weightVector: real, row: Row)
    requires Divides(config, t) && row in FullRanking(config, t, weightLexical, weightVector)
    ensures row.id in CandidateSet(t) && row == RowFor(config, t, weightLexical, weightVector, row.id)
  {
    var ids, rows := Candidates(t), CandidateRows(config, t, weightLexical, weightVector);
    CandidatesScorable(config, t);
    SortedTextsLists(CandidateSet(t));
    StableSortElements(rows, HigherScore);
    var i :| 0 <= i < |rows| && rows[i] == row;
    RowsForAt(config, t, weightLexical, weightVector, ids, |ids|, i);
    assert ids[i] in ids;
  }

  lemma RankedRowExplained(q: Query, t: Tables, weightLexical: real, weightVector: real,
      lexical: seq<Doc>, vector: seq<Doc>, row: Row)
    requires Divides(q.config, t) && row in FullRanking(q.config, t, weightLexical, weightVector)
    requires t.lScore == ScoreMap(lexical) && t.vScore == ScoreMap(vector)
    requires t.lRank == RankMap(lexical) && t.vRank == RankMap(vector)
    ensures RowExplained(q.config, weightLexical, weightVector, lexical, vector, t.lScore, t.vScore,
                         t.lNormal, t.vNormal, row)
  {
    RankedAreRows(q.config, t, weightLexical, weightVector, row);
    RowIsExplained(q.config, t, weightLexical, weightVector, row.id, lexical, vector, row);
  }

  // ----- the sort gives a total order -----

  function Ids(rows: seq<Row>): (r: seq<Text>)
    ensures |r| == |rows|
    ensures forall i :: 0 <= i < |rows| ==> r[i] == rows[i].id
  {
    seq(|rows|, i requires 0 <= i < |rows| => rows[i].id)
  }

  predicate SmallerId(a: Row, b: Row) {
    TextLess(a.id, b.id)
  }

  /** Row a comes before row b: a higher score, or the same score and a smaller id. */
  predicate RowBefore(a: Row, b: Row) {
    a.id != b.id && (a.score > b.score || (a.score == b.score && TextLess(a.id, b.id)))
  }

  /** Rows handed over in ascending id order come back by descending score, smaller id first on ties. */
  lemma SortedRowsOrder(rows: seq<Row>)
    requires InOrder(rows, SmallerId)
    ensures InOrder(StableSort(rows, HigherScore), RowBefore)
  {
    StableSortRanks(rows, HigherScore, SmallerId);
    var r := StableSort(rows, HigherScore);
    forall i, j | 0 <= i < j < |r| ensures RowBefore(r[i], r[j]) {
      assert RanksBefore(HigherScore, SmallerId, r[i], r[j]);
      TextOrder();
      DistinctIdsStay(rows, i, j);
    }
  }

  lemma DistinctIdsStay(rows: seq<Row>, i: nat, j: nat)
    requires InOrder(rows, SmallerId)
    requires i < j < |StableSort(rows, HigherScore)|
    ensures StableSort(rows, HigherScore)[i].id != StableSort(rows, HigherScore)[j].id
  {
    var r := StableSort(rows, HigherScore);
    TextOrder();
    assert Distinct(rows) by {
      forall k, m | 0 <= k < m < |rows| ensures rows[k] != rows[m] {
        assert SmallerId(rows[k], rows[m]);
      }
    }
    StableSortElements(rows, HigherScore);
    assert r[i] in rows && r[j] in rows && r[i] != r[j];
    var k :| 0 <= k < |rows| && rows[k] == r[i];
    var m :| 0 <= m < |rows| && rows[m] == r[j];
    assert SmallerId(rows[k], rows[m]) || SmallerId(rows[m], rows[k]);
  }

  lemma AscendingIds(config: Config, t: Tables, weightLexical: real, weightVector: real)
    requires Divides(config, t)
    ensures InOrder(CandidateRows(config, t, weightLexical, weightVector), SmallerId)
  {
    CandidatesScorable(config, t);
    SortedTextsLists(CandidateSet(t));
    var ids := Candidates(t);
    var rows := CandidateRows(config, t, weightLexical, weightVector);
    forall i, j | 0 <= i < j < |rows| ensures SmallerId(rows[i], rows[j]) {
      RowsForAt(config, t, weightLexical, weightVector, ids, |ids|, i);
      RowsForAt(config, t, weightLexical, weightVector, ids, |ids|, j);
      assert TextLess(ids[i], ids[j]);
    }
  }

  lemma CandidateIsRanked(config: Config, t: Tables, weightLexical: real, weightVector: real, id: Text)
    requires Divides(config, t) && id in CandidateSet(t)
    ensures id in Ids(FullRanking(config, t, weightLexical, weightVector))
  {
    CandidatesScorable(config, t);
    SortedTextsLists(CandidateSet(t));
    var ids := Candidates(t);
    var rows := CandidateRows(config, t, weightLexical, weightVector);
    StableSortElements(rows, HigherScore);
    var full := FullRanking(config, t, weightLexical, weightVector);
    assert id in ids;
    var k :| 0 <= k < |ids| && ids[k] == id;
    RowsForAt(config, t, weightLexical, weightVector, ids, |ids|, k);
    assert rows[k] in full;
    var m :| 0 <= m < |full| && full[m] == rows[k];
    assert Ids(full)[m] == id;
  }

  lemma RankedRowsOrder(config: Config, t: Tables, weightLexical: real, weightVector: real)
    requires Divides(config, t)
    ensures InOrder(FullRanking(config, t, weightLexical, weightVector), RowBefore)
  {
    AscendingIds(config, t, weightLexical, weightVector);
    SortedRowsOrder(CandidateRows(config, t, weightLexical, weightVector));
  }

  lemma RankingListsAll(config: Config, t: Tables, weightLexical: real, weightVector: real, lexical: seq<Doc>,
      vector: seq<Doc>, id: Text)
    requires Divides(config, t) && t.lScore == ScoreMap(lexical) && t.vScore == ScoreMap(vector)
    ensures id in Ids(FullRanking(config, t, weightLexical, weightVector)) <==>
            Listed(lexical, id) || Listed(vector, id)
  {
    var full := FullRanking(config, t, weightLexical, weightVector);
    DictionariesExactly(lexical, id);
    DictionariesExactly(vector, id);
    if id in CandidateSet(t) {
      CandidateIsRanked(config, t, weightLexical, weightVector, id);
    }
    if id in Ids(full) {
      var k :| 0 <= k < |full| && Ids(full)[k] == id;
      RankedAreRows(config, t, weightLexical, weightVector, full[k]);
    }
  }

  lemma RankingExactly(q: Query, sqrt: real -> real, weightLexical: real, weightVector: real, t: Tables,
      full: seq<Row>)
    requires t == TablesOf(q, sqrt) && Divides(q.config, t)
    requires NormalizationOf(q.config).ZScore? ==> IsSquareRoot(sqrt)
    requires full == FullRanking(q.config, t, weightLexical, weightVector)
    ensures RankingExplained(q, weightLexical, weightVector, full)
  {
    var lexical := SliceTo(q.lexicalDocs, q.config.candidatePool);
    var vector := SliceTo(q.vectorDocs, q.config.candidatePool);
    ScoreMapIsOwn(lexical);
    ScoreMapIsOwn(vector);
    NormalizeExactly(t.lScore, NormalizationOf(q.config), sqrt);
    NormalizeExactly(t.vScore, NormalizationOf(q.config), sqrt);
    forall k | 0 <= k < |full|
      ensures RowExplained(q.config, weightLexical, weightVector, lexical, vector,
                           t.lScore, t.vScore, t.lNormal, t.vNormal, full[k])
    {
      assert full[k] in full;
      RankedRowExplained(q, t, weightLexical, weightVector, lexical, vector, full[k]);
    }
    assert RowsExplained(q.config, weightLexical, weightVector, lexical, vector, full, t.lScore, t.vScore,
                         t.lNormal, t.vNormal);
    RankedRowsOrder(q.config, t, weightLexical, weightVector);
    forall id ensures id in Ids(full) <==> Listed(lexical, id) || Listed(vector, id) {
      RankingListsAll(q.config, t, weightLexical, weightVector, lexical, vector, id);
    }
  }

  /** Under rrf, of two documents listed on one side only, the better ranked one scores higher. */
  lemma BetterRankScoresHigher(part: real, part': real, weight: real, rrfK: int, docs: seq<Doc>, id: Text, id': Text,
      i: nat, i': nat)
    requires weight > 0.0 && rrfK >= 0 && i < i' && LastAt(docs, id, i) && LastAt(docs, id', i')
    requires IsReciprocalShare(part, weight, rrfK, docs, id) && IsReciprocalShare(part', weight, rrfK, docs, id')
    ensures part > part' > 0.0
  {
    SmallerFactor(part, (rrfK + i + 1) as real, part', (rrfK + i' + 1) as real, weight);
  }

  lemma SmallerFactor(p: real, d: real, p': real, d': real, w: real)
    requires SharesOut(p, d, w) && SharesOut(p', d', w) && w > 0.0 && 0.0 < d < d'
    ensures p > p' > 0.0
  {
    assert p' > 0.0;
    assert p' * d < p' * d' == p * d;
    ScaleOrder(d, p, p');
  }

  /** blend_rankings: the function above. */
  method Blended(q: Query, sqrt: real -> real, weightLexical: real, weightVector: real)
    returns (r: Result<seq<RankedRow>, BlendError>)
    ensures r.Ok? <==> Divides(q.config, TablesOf(q, sqrt))
    ensures r.Ok? ==>
            var ranking := FullRanking(q.config, TablesOf(q, sqrt), weightLexical, weightVector);
            r.value == WithRanks(SliceTo(ranking, q.config.topK))
  {
    var t := BuildTables(q, sqrt);
    CandidatesScorable(q.config, t);
    var rows: seq<Row>;
    if q.config.blend.Rrf? {
      var scored := RrfRows(q.config, t, weightLexical, weightVector, Candidates(t));
      if scored.Err? {
        return Err(scored.error);
      }
      rows := scored.value;
    } else {
      rows := LinearRows(q.config, t, weightLexical, weightVector, Candidates(t));
    }
    rows := StableSort(rows, HigherScore);
    var ranked := ToRankedDocs(SliceTo(rows, q.config.topK));
    r := Ok(ranked);
  }

  /** blend_rankings, and what its result says about the documents. */
  method BlendRankings(q: Query, sqrt: real -> real, weightLexical: real, weightVector: real)
    returns (r: Result<seq<RankedRow>, BlendError>)
    ensures r.Ok? <==> Divides(q.config, TablesOf(q, sqrt))
    ensures r.Ok? <==> Succeeds(q)
    ensures r.Ok? ==>
            var ranking := FullRanking(q.config, TablesOf(q, sqrt), weightLexical, weightVector);
            r.value == WithRanks(SliceTo(ranking, q.config.topK))
    ensures r.Ok? && (NormalizationOf(q.config).ZScore? ==> IsSquareRoot(sqrt)) ==>
              Explained(q, weightLexical, weightVector, r.value)
  {
    SucceedsExactly(q, sqrt);
    r := Blended(q, sqrt, weightLexical, weightVector);
    if r.Ok? && (NormalizationOf(q.config).ZScore? ==> IsSquareRoot(sqrt)) {
      ghost var t := TablesOf(q, sqrt);
      ghost var ranking := FullRanking(q.config, t, weightLexical, weightVector);
      RankingExactly(q, sqrt, weightLexical, weightVector, t, ranking);
      assert IsTop(r.value, ranking, q.config.topK);
    }
  }
}
