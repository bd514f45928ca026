/** What a blend is: scores that are straight lines in the vector weight, and a total order. */
module BlendOrder {
  import opened Prelude
  import opened Sorting
  import opened Blend
  import opened Crossing

  // ----- every method is affine in the weight -----

  lemma PartsAreLinear(config: Config, t: Tables, weight: real, id: Text)
    requires Scorable(config, t, id)
    ensures LexicalPart(config, t, weight, id) == weight * LexicalPart(config, t, 1.0, id)
    ensures VectorPart(config, t, weight, id) == weight * VectorPart(config, t, 1.0, id)
  {
    if config.blend.Rrf? {
      ReciprocalRankIsLinear(weight, config.rrfK, t.lRank, id);
      ReciprocalRankIsLinear(weight, config.rrfK, t.vRank, id);
    } else {
      assert LexicalPart(config, t, 1.0, id) == GetOr(t.lNormal, id, config.missingLexicalScore);
      assert VectorPart(config, t, 1.0, id) == GetOr(t.vNormal, id, config.missingVectorScore);
    }
  }

  lemma ReciprocalRankIsLinear(weight: real, rrfK: int, ranks: map<Text, int>, id: Text)
    requires NoZeroDivisor(rrfK, ranks, id)
    ensures ReciprocalRank(weight, rrfK, ranks, id) == weight * ReciprocalRank(1.0, rrfK, ranks, id)
  {
    if id in ranks {
      ScaledReciprocal(weight, (rrfK + ranks[id]) as real);
    }
  }

  lemma ScaledReciprocal(w: real, d: real)
    requires d != 0.0
    ensures w / d == w * (1.0 / d)
  {
    assert (w * (1.0 / d)) * d == w * ((1.0 / d) * d) == w;
  }

  /** A candidate's score at vector weight w and lexical weight 1 - w. */
  function LineOf(config: Config, t: Tables, id: Text): Line
    requires Scorable(config, t, id)
  {
    var lexical, vector := LexicalPart(config, t, 1.0, id), VectorPart(config, t, 1.0, id);
    Line(lexical, vector - lexical)
  }

  function LinesOf(config: Config, t: Tables): map<Text, Line>
    requires Divides(config, t)
  {
    map x | x in CandidateSet(t) :: LineOf(config, t, x)
  }

  lemma WeightedSumIsLine(lexical: real, vector: real, w: real)
    ensures (1.0 - w) * lexical + w * vector == lexical + w * (vector - lexical)
  {
  }

  /** Every blend method scores a candidate by a line that does not depend on the weight. */
  lemma ScoreIsLine(config: Config, t: Tables, w: real, id: Text)
    requires Scorable(config, t, id)
    ensures RowFor(config, t, 1.0 - w, w, id).score == At(LineOf(config, t, id), w)
  {
    PartsAreLinear(config, t, 1.0 - w, id);
    PartsAreLinear(config, t, w, id);
    WeightedSumIsLine(LexicalPart(config, t, 1.0, id), VectorPart(config, t, 1.0, id), w);
  }

  // ----- the ranking -----

  lemma RankedRowIsCandidate(config: Config, t: Tables, weightLexical: real, weightVector: real, k: nat)
    requires Divides(config, t)
    requires k < |FullRanking(config, t, weightLexical, weightVector)|
    ensures var row := FullRanking(config, t, weightLexical, weightVector)[k];
            row.id in CandidateSet(t) && row == RowFor(config, t, weightLexical, weightVector, row.id)
  {
    var full := FullRanking(config, t, weightLexical, weightVector);
    assert full[k] in full;
    RankedAreRows(config, t, weightLexical, weightVector, full[k]);
  }

  /** For every pair of weights: each candidate is ranked once, by descending score, equal scores by
      ascending id, and with its own blended scores. */
  lemma BlendRanksOnce(config: Config, t: Tables, weightLexical: real, weightVector: real)
    requires Divides(config, t)
    ensures var rows := FullRanking(config, t, weightLexical, weightVector);
            && InOrder(rows, RowBefore) && Distinct(Ids(rows))
            && (forall id :: id in Ids(rows) <==> id in CandidateSet(t))
            && forall k :: 0 <= k < |rows| ==>
                 Scorable(config, t, rows[k].id)
                   && rows[k] == RowFor(config, t, weightLexical, weightVector, rows[k].id)
  {
    var rows := FullRanking(config, t, weightLexical, weightVector);
    RankedRowsOrder(config, t, weightLexical, weightVector);
    forall i, j | 0 <= i < j < |rows| ensures Ids(rows)[i] != Ids(rows)[j] {
      assert RowBefore(rows[i], rows[j]);
    }
    forall k | 0 <= k < |rows|
      ensures rows[k].id in CandidateSet(t) && rows[k] == RowFor(config, t, weightLexical, weightVector, rows[k].id)
    {
      RankedRowIsCandidate(config, t, weightLexical, weightVector, k);
    }
    forall id | id in CandidateSet(t) ensures id in Ids(rows) {
      CandidateIsRanked(config, t, weightLexical, weightVector, id);
    }
    forall id | id in Ids(rows) ensures id in CandidateSet(t) {
      var k :| 0 <= k < |rows| && Ids(rows)[k] == id;
    }
  }

  lemma RowOnLine(config: Config, t: Tables, w: real, row: Row)
    requires Divides(config, t)
    requires row.id in CandidateSet(t) && row == RowFor(config, t, 1.0 - w, w, row.id)
    ensures row.id in LinesOf(config, t) && row.score == At(LinesOf(config, t)[row.id], w)
  {
    ScoreIsLine(config, t, w, row.id);
  }

  lemma RankedRowOnLine(config: Config, t: Tables, w: real, k: nat)
    requires Divides(config, t)
    requires k < |FullRanking(config, t, 1.0 - w, w)|
    ensures var row := FullRanking(config, t, 1.0 - w, w)[k];
            row.id in LinesOf(config, t) && row.score == At(LinesOf(config, t)[row.id], w)
  {
    RankedRowIsCandidate(config, t, 1.0 - w, w, k);
    RowOnLine(config, t, w, FullRanking(config, t, 1.0 - w, w)[k]);
  }

  /** Rows on their lines, in row order and covering every line, are a ranking of the lines. */
  lemma RowsRankLines(lines: map<Text, Line>, w: real, full: seq<Row>)
    requires InOrder(full, RowBefore)
    requires OnLines(lines, w, full) && Covers(lines, full)
    ensures IsRanking(lines, w, Ids(full))
  {
    var ids := Ids(full);
    forall i, j | 0 <= i < j < |ids| ensures ids[i] != ids[j] && AboveAt(lines, w, ids[i], ids[j]) {
      assert RowBefore(full[i], full[j]);
    }
  }

  /** The complete order of the candidates at one vector weight. */
  function OrderAt(config: Config, t: Tables, w: real): seq<Text>
    requires Divides(config, t)
  {
    Ids(FullRanking(config, t, 1.0 - w, w))
  }

  ghost predicate OnLines(lines: map<Text, Line>, w: real, full: seq<Row>) {
    forall k :: 0 <= k < |full| ==> full[k].id in lines && full[k].score == At(lines[full[k].id], w)
  }

  lemma RankedRowsOnLines(config: Config, t: Tables, w: real)
    requires Divides(config, t)
    ensures OnLines(LinesOf(config, t), w, FullRanking(config, t, 1.0 - w, w))
  {
    var full := FullRanking(config, t, 1.0 - w, w);
    forall k | 0 <= k < |full|
      ensures full[k].id in LinesOf(config, t) && full[k].score == At(LinesOf(config, t)[full[k].id], w)
    {
      RankedRowOnLine(config, t, w, k);
    }
  }

  ghost predicate Covers(lines: map<Text, Line>, full: seq<Row>) {
    forall x :: x in lines ==> x in Ids(full)
  }

  lemma RankedRowsCover(config: Config, t: Tables, w: real)
    requires Divides(config, t)
    ensures Covers(LinesOf(config, t), FullRanking(config, t, 1.0 - w, w))
  {
    forall x | x in LinesOf(config, t) ensures x in Ids(FullRanking(config, t, 1.0 - w, w)) {
      CandidateIsRanked(config, t, 1.0 - w, w, x);
    }
  }

  /** Blending ranks every candidate once: by descending blended score, equal scores by ascending id. */
  lemma BlendIsRanking(config: Config, t: Tables, w: real)
    requires Divides(config, t)
    ensures IsRanking(LinesOf(config, t), w, OrderAt(config, t, w))
  {
    RankedRowsOrder(config, t, 1.0 - w, w);
    RankedRowsOnLines(config, t, w);
    RankedRowsCover(config, t, w);
    RowsRankLines(LinesOf(config, t), w, FullRanking(config, t, 1.0 - w, w));
  }
}
