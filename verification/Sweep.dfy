/** The hybrid weight sweep: one blend per vector weight, and the first tipping points. */
module Sweep {
  import opened Prelude
  import opened Sorting
  import opened Blend
  import opened BlendOrder
  import opened Crossing
  import Metrics
  import Stats

  // ----- the sweep -----

  datatype Step = Step(weightVector: real, weightLexical: real, top1: Option<Text>, topIds: seq<Text>)

  datatype TopOneTip = TopOneTip(fromWeight: real, toWeight: real, fromTop1: Option<Text>, toTop1: Option<Text>)

  datatype TopKTip = TopKTip(fromWeight: real, toWeight: real, churn: real, entered: seq<Text>, left: seq<Text>)

  datatype Summary = Summary(steps: seq<Step>, topOneTip: Option<TopOneTip>, topKTip: Option<TopKTip>)

  /** The ids shown for a ranking: a prefix of it. The loop over the already cut rows stops after
      appending the top_k-th id, so a negative top_k that leaves any row shows exactly one. */
  function Shown(ids: seq<Text>, topK: int): (r: seq<Text>)
    ensures r <= ids
    ensures topK >= |ids| ==> r == ids
  {
    SliceTo(SliceTo(ids, topK), if topK >= 1 then topK else 1)
  }

  method ShownIds(rows: seq<RankedRow>, topK: int) returns (out: seq<Text>)
    ensures out == SliceTo(RowIds(rows), if topK >= 1 then topK else 1)
  {
    out := [];
    for i := 0 to |rows|
      invariant out == RowIds(rows[..i])
      invariant i > 0 ==> i < topK
    {
      out := out + [rows[i].row.id];
      if |out| >= topK {
        assert out == RowIds(rows)[..i + 1];
        return;
      }
    }
    assert rows[..|rows|] == rows;
  }

  function RowIds(rows: seq<RankedRow>): (r: seq<Text>)
    ensures |r| == |rows|
    ensures forall i :: 0 <= i < |rows| ==> r[i] == rows[i].row.id
  {
    seq(|rows|, i requires 0 <= i < |rows| => rows[i].row.id)
  }

  function First(ids: seq<Text>): Option<Text> {
    if ids == [] then None else Some(ids[0])
  }

  function StepAt(config: Config, t: Tables, weight: real): Step
    requires Divides(config, t)
  {
    var shown := Shown(OrderAt(config, t, weight), config.topK);
    Step(weight, 1.0 - weight, First(shown), shown)
  }

  function StepsAt(config: Config, t: Tables, weights: seq<real>): (r: seq<Step>)
    requires Divides(config, t)
    ensures |r| == |weights|
    ensures forall i :: 0 <= i < |weights| ==> r[i] == StepAt(config, t, weights[i])
  {
    seq(|weights|, i requires 0 <= i < |weights| => StepAt(config, t, weights[i]))
  }

  /** `1 - overlap / top_k`, with the quotient read as 0 when top_k is 0. */
  function Churn(before: seq<Text>, after: seq<Text>, topK: int): real {
    1.0 - (if topK == 0 then 0.0 else Metrics.OverlapAtK(before, after) as real / topK as real)
  }

  /** The ids of the second list that are not in the first. */
  function Entered(before: seq<Text>, after: seq<Text>): seq<Text> {
    Metrics.Discard(after, Elements(before))
  }

  /** The first adjacent pair of steps with different top-1 documents. */
  function FirstTopOneTip(steps: seq<Step>): Option<TopOneTip> {
    if |steps| < 2 then None
    else
      var earlier, before, after := FirstTopOneTip(steps[..|steps| - 1]), steps[|steps| - 2], steps[|steps| - 1];
      if earlier.None? && before.top1 != after.top1 then
        Some(TopOneTip(before.weightVector, after.weightVector, before.top1, after.top1))
      else earlier
  }

  /** The first adjacent pair of steps whose shown ids churn by more than 30 percent. */
  function FirstTopKTip(steps: seq<Step>, topK: int): Option<TopKTip> {
    if |steps| < 2 then None
    else
      var earlier, before, after := FirstTopKTip(steps[..|steps| - 1], topK), steps[|steps| - 2], steps[|steps| - 1];
      var churn := Churn(before.topIds, after.topIds, topK);
      if earlier.None? && churn > 0.30 then
        Some(TopKTip(before.weightVector, after.weightVector, churn,
                     Entered(before.topIds, after.topIds), Entered(after.topIds, before.topIds)))
      else earlier
  }

  /** Z-scores need a square root that deserves the name. */
  ghost predicate Reliable(q: Query, sqrt: real -> real) {
    NormalizationOf(q.config).ZScore? ==> Stats.IsSquareRoot(sqrt)
  }

  /** What a step shows: the first max(topK, 1) documents of the blend at its two weights, which add up to 1. */
  ghost predicate StepExplained(q: Query, weight: real, step: Step) {
    && step.weightVector == weight && step.weightLexical == 1.0 - weight
    && (exists ranked :: Explained(q, 1.0 - weight, weight, ranked) && Shows(ranked, q.config.topK, step.topIds))
    && step.top1 == if step.topIds == [] then None else Some(step.topIds[0])
  }

  ghost predicate Shows(ranked: seq<RankedRow>, topK: int, ids: seq<Text>) {
    && |ids| == AtMost(|ranked|, if topK < 1 then 1 else topK)
    && forall k :: 0 <= k < |ids| ==> ids[k] == ranked[k].row.id
  }

  /** One turn of the loop up to `progression.append`. */
  method SweepStep(q: Query, sqrt: real -> real, weightVector: real) returns (r: Result<Step, BlendError>)
    ensures r.Ok? <==> Divides(q.config, TablesOf(q, sqrt))
    ensures r.Ok? ==> r.value == StepAt(q.config, TablesOf(q, sqrt), weightVector)
  {
    var weightLexical := 1.0 - weightVector;
    var ranked := Blended(q, sqrt, weightLexical, weightVector);
    if ranked.Err? {
      return Err(ranked.error);
    }
    var topIds := ShownIds(ranked.value, q.config.topK);
    ShownIsStep(q.config, TablesOf(q, sqrt), weightVector, ranked.value);
    r := Ok(Step(weightVector, weightLexical, First(topIds), topIds));
  }

  lemma ShownIsStep(config: Config, t: Tables, weight: real, ranked: seq<RankedRow>)
    requires Divides(config, t)
    requires ranked == WithRanks(SliceTo(FullRanking(config, t, 1.0 - weight, weight), config.topK))
    ensures var ids := SliceTo(RowIds(ranked), if config.topK >= 1 then config.topK else 1);
            StepAt(config, t, weight) == Step(weight, 1.0 - weight, First(ids), ids)
  {
    ShownOfRanking(FullRanking(config, t, 1.0 - weight, weight), config.topK);
  }

  lemma ShownOfRanking(full: seq<Row>, topK: int)
    ensures SliceTo(RowIds(WithRanks(SliceTo(full, topK))), if topK >= 1 then topK else 1) == Shown(Ids(full), topK)
  {
    assert RowIds(WithRanks(SliceTo(full, topK))) == SliceTo(Ids(full), topK);
  }

  /** What the loop carries from one weight to the next. */
  ghost predicate Tracks(progression: seq<Step>, topK: int, previousTopIds: Option<seq<Text>>,
      previousWeight: Option<real>, previousTop1: Option<Text>, topOneTip: Option<TopOneTip>, topKTip: Option<TopKTip>)
  {
    && topOneTip == FirstTopOneTip(progression) && topKTip == FirstTopKTip(progression, topK)
    && if progression == [] then previousTopIds == None && previousWeight == None
       else
         var last := progression[|progression| - 1];
         previousTopIds == Some(last.topIds) && previousWeight == Some(last.weightVector) && previousTop1 == last.top1
  }

  /** The loop body's comparison with the previous step. */
  method CompareSteps(previousTopIds: seq<Text>, previousWeight: real, previousTop1: Option<Text>, step: Step,
      topK: int, topOneTip: Option<TopOneTip>, topKTip: Option<TopKTip>, ghost progression: seq<Step>)
    returns (newTopOneTip: Option<TopOneTip>, newTopKTip: Option<TopKTip>)
    requires progression != []
    requires Tracks(progression, topK, Some(previousTopIds), Some(previousWeight), previousTop1, topOneTip, topKTip)
    ensures newTopOneTip == FirstTopOneTip(progression + [step])
    ensures newTopKTip == FirstTopKTip(progression + [step], topK)
  {
    newTopOneTip, newTopKTip := topOneTip, topKTip;
    var churn := Churn(previousTopIds, step.topIds, topK);
    assert (progression + [step])[..|progression|] == progression;
    if topOneTip.None? && previousTop1 != step.top1 {
      newTopOneTip := Some(TopOneTip(previousWeight, step.weightVector, previousTop1, step.top1));
    }
    if topKTip.None? && churn > 0.30 {
      newTopKTip := Some(TopKTip(previousWeight, step.weightVector, churn,
                                 Entered(previousTopIds, step.topIds), Entered(step.topIds, previousTopIds)));
    }
  }

  /** The query can be swept: there is no weight to blend at, or its blend does not divide by zero. */
  predicate Sweepable(q: Query, sqrt: real -> real, weights: seq<real>) {
    weights == [] || Divides(q.config, TablesOf(q, sqrt))
  }

  /** The sweep loop over one query's weights. */
  method Swept(q: Query, sqrt: real -> real, weights: seq<real>) returns (r: Result<Summary, BlendError>)
    ensures r.Ok? <==> Sweepable(q, sqrt, weights)
    ensures r.Ok? ==> IsSummary(q, sqrt, weights, r.value)
  {
    ghost var t := TablesOf(q, sqrt);
    ghost var planned := if Divides(q.config, t) then StepsAt(q.config, t, weights) else [];
    var topK := q.config.topK;
    var progression: seq<Step> := [];
    var previousTopIds: Option<seq<Text>> := None;
    var previousWeight: Option<real> := None;
    var previousTop1: Option<Text> := None;
    var topOneTip: Option<TopOneTip> := None;
    var topKTip: Option<TopKTip> := None;
    for i := 0 to |weights|
      invariant i > 0 ==> Divides(q.config, t)
      invariant |progression| == i
      invariant i > 0 ==> |planned| == |weights| && progression == planned[..i]
      invariant Tracks(progression, topK, previousTopIds, previousWeight, previousTop1, topOneTip, topKTip)
    {
      var weightVector := weights[i];
      var step := SweepStep(q, sqrt, weightVector);
      if step.Err? {
        return Err(step.error);
      }
      var topIds, top1 := step.value.topIds, step.value.top1;
      ghost var before := progression;
      progression := progression + [step.value];
      TakeOneMore(planned, i);
      assert planned[i] == step.value;
      if previousTopIds.Some? && previousWeight.Some? {
        topOneTip, topKTip := CompareSteps(previousTopIds.value, previousWeight.value, previousTop1, step.value,
                                           topK, topOneTip, topKTip, before);
      }
      previousTopIds, previousWeight, previousTop1 := Some(topIds), Some(weightVector), top1;
    }
    TakeAll(planned);
    r := Ok(Summary(progression, topOneTip, topKTip));
  }

  /** The sweep of one query, and what its steps show. */
  method SweepQuery(q: Query, sqrt: real -> real, weights: seq<real>) returns (r: Result<Summary, BlendError>)
    ensures r.Ok? <==> Sweepable(q, sqrt, weights)
    ensures r.Ok? ==> IsSummary(q, sqrt, weights, r.value)
    ensures r.Ok? && Reliable(q, sqrt) ==> StepsExplained(q, weights, r.value.steps)
  {
    r := Swept(q, sqrt, weights);
    if r.Ok? && Reliable(q, sqrt) && weights != [] { StepsExactly(q, sqrt, weights); }
  }

  ghost predicate StepsExplained(q: Query, weights: seq<real>, steps: seq<Step>) {
    |steps| == |weights| && forall i :: 0 <= i < |weights| ==> StepExplained(q, weights[i], steps[i])
  }

  lemma StepIsExplained(q: Query, weight: real, ranked: seq<RankedRow>, ids: seq<Text>)
    requires Explained(q, 1.0 - weight, weight, ranked)
    requires ids == SliceTo(RowIds(ranked), if q.config.topK >= 1 then q.config.topK else 1)
    ensures StepExplained(q, weight, Step(weight, 1.0 - weight, First(ids), ids))
  {
    assert Shows(ranked, q.config.topK, ids);
  }

  lemma StepExactly(q: Query, sqrt: real -> real, t: Tables, weight: real)
    requires t == TablesOf(q, sqrt) && Divides(q.config, t) && Reliable(q, sqrt)
    ensures StepExplained(q, weight, StepAt(q.config, t, weight))
  {
    var full := FullRanking(q.config, t, 1.0 - weight, weight);
    var ranked := WithRanks(SliceTo(full, q.config.topK));
    RankingExactly(q, sqrt, 1.0 - weight, weight, t, full);
    assert IsTop(ranked, full, q.config.topK);
    ShownIsStep(q.config, t, weight, ranked);
    StepIsExplained(q, weight, ranked, SliceTo(RowIds(ranked), if q.config.topK >= 1 then q.config.topK else 1));
  }

  lemma StepsExactly(q: Query, sqrt: real -> real, weights: seq<real>)
    requires Divides(q.config, TablesOf(q, sqrt)) && Reliable(q, sqrt)
    ensures StepsExplained(q, weights, StepsAt(q.config, TablesOf(q, sqrt), weights))
  {
    forall i | 0 <= i < |weights|
      ensures StepExplained(q, weights[i], StepsAt(q.config, TablesOf(q, sqrt), weights)[i])
    {
      StepExactly(q, sqrt, TablesOf(q, sqrt), weights[i]);
    }
  }

  /** A summary holds one step per weight. */
  ghost predicate IsSweep(q: Query, sqrt: real -> real, weights: seq<real>, steps: seq<Step>) {
    if weights == [] then steps == []
    else Divides(q.config, TablesOf(q, sqrt)) && steps == StepsAt(q.config, TablesOf(q, sqrt), weights)
  }

  /** Its tipping points are the first among its steps. */
  ghost predicate HasFirstTips(s: Summary, topK: int) {
    s.topOneTip == FirstTopOneTip(s.steps) && s.topKTip == FirstTopKTip(s.steps, topK)
  }

  ghost predicate IsSummary(q: Query, sqrt: real -> real, weights: seq<real>, s: Summary) {
    IsSweep(q, sqrt, weights, s.steps) && HasFirstTips(s, q.config.topK)
  }

  // ----- scenarios: counting the queries with a top-1 flip -----

  datatype Scenario = Scenario(queries: nat, flips: nat, flipPercent: real, summaries: seq<Summary>)

  predicate RealLess(a: real, b: real) { a < b }

  function SortedWeights(weights: seq<real>): seq<real> {
    StableSort(weights, RealLess)
  }

  /** The first and the last step of a sweep show different top-1 documents. */
  predicate EndsDiffer(steps: seq<Step>) {
    steps != [] && steps[0].top1 != steps[|steps| - 1].top1
  }

  function CountFlips(summaries: seq<Summary>): nat {
    if summaries == [] then 0
    else CountFlips(summaries[..|summaries| - 1]) + if EndsDiffer(summaries[|summaries| - 1].steps) then 1 else 0
  }

  /** The queries whose first and last step show different top-1 documents. */
  ghost function Flipped(summaries: seq<Summary>): set<nat> {
    set i: nat | i < |summaries| && EndsDiffer(summaries[i].steps)
  }

  lemma {:induction false} FlipsAreFlipped(summaries: seq<Summary>)
    ensures CountFlips(summaries) == |Flipped(summaries)|
  {
    if summaries == [] {
      assert Flipped(summaries) == {};
    } else {
      var k := |summaries| - 1;
      FlipsAreFlipped(summaries[..k]);
      assert Flipped(summaries) == Flipped(summaries[..k]) + if EndsDiffer(summaries[k].steps) then {k} else {};
    }
  }

  predicate AllSweepable(queries: seq<Query>, sqrt: real -> real, weights: seq<real>) {
    forall i :: 0 <= i < |queries| ==> Sweepable(queries[i], sqrt, weights)
  }

  lemma SweepableOneMore(queries: seq<Query>, sqrt: real -> real, weights: seq<real>, i: nat)
    requires i < |queries| && AllSweepable(queries[..i], sqrt, weights)
    ensures AllSweepable(queries[..i + 1], sqrt, weights) <==> Sweepable(queries[i], sqrt, weights)
    ensures !Sweepable(queries[i], sqrt, weights) ==> !AllSweepable(queries, sqrt, weights)
  {
    TakeOneMore(queries, i);
  }

  /** The loop over a scenario's queries. */
  method SweepAll(queries: seq<Query>, sqrt: real -> real, weights: seq<real>)
    returns (r: Result<(seq<Summary>, nat), BlendError>)
    requires Stats.Ascending(weights)
    ensures r.Ok? <==> AllSweepable(queries, sqrt, weights)
    ensures r.Ok? ==> AllSwept(queries, sqrt, weights, r.value.0) && r.value.1 == CountFlips(r.value.0)
  {
    var summaries: seq<Summary> := [];
    var flips := 0;
    for i := 0 to |queries|
      invariant flips == CountFlips(summaries)
      invariant AllSweepable(queries[..i], sqrt, weights)
      invariant AllSwept(queries[..i], sqrt, weights, summaries)
    {
      SweepableOneMore(queries, sqrt, weights, i);
      var swept := Swept(queries[i], sqrt, weights);
      if swept.Err? {
        return Err(swept.error);
      }
      FlipIffEndsDiffer(queries[i], sqrt, weights, swept.value);
      if swept.value.topOneTip.Some? {
        flips := flips + 1;
      }
      TakeOneMore(queries, i);
      SweptOneMore(queries[..i], sqrt, weights, summaries, queries[i], swept.value);
      FlipsOneMore(summaries, swept.value);
      summaries := summaries + [swept.value];
    }
    TakeAll(queries);
    r := Ok((summaries, flips));
  }

  /** The sweep of one scenario: a query flips exactly when its smallest and largest vector weights
      disagree on the top-1 document. */
  method SweepScenario(queries: seq<Query>, sqrt: real -> real, weights: seq<real>)
    returns (r: Result<Scenario, BlendError>)
    ensures r.Ok? <==> AllSweepable(queries, sqrt, SortedWeights(weights))
    ensures r.Ok? ==>
              && r.value.queries == |queries|
              && AllSwept(queries, sqrt, SortedWeights(weights), r.value.summaries)
              && r.value.flips == |Flipped(r.value.summaries)|
              && Stats.IsPercent(r.value.flipPercent, r.value.flips, |queries|)
  {
    var sortedWeights := SortedWeights(weights);
    SortedWeightsAscend(weights);
    var swept := SweepAll(queries, sqrt, sortedWeights);
    if swept.Err? {
      return Err(swept.error);
    }
    var (summaries, flips) := swept.value;
    FlipsAreFlipped(summaries);
    Stats.PercentExactly(flips, |summaries|);
    r := Ok(Scenario(|summaries|, flips, Stats.Percent(flips, |summaries|), summaries));
  }

  /** One sweep per query, in order, each with its own first tipping points. */
  ghost predicate AllSwept(queries: seq<Query>, sqrt: real -> real, weights: seq<real>, summaries: seq<Summary>) {
    && |summaries| == |queries|
    && forall i :: 0 <= i < |queries| ==> IsSummary(queries[i], sqrt, weights, summaries[i])
  }

  lemma SweptOneMore(queries: seq<Query>, sqrt: real -> real, weights: seq<real>, summaries: seq<Summary>, q: Query,
      s: Summary)
    requires AllSwept(queries, sqrt, weights, summaries) && IsSummary(q, sqrt, weights, s)
    ensures AllSwept(queries + [q], sqrt, weights, summaries + [s])
  {
  }

  lemma FlipsOneMore(summaries: seq<Summary>, s: Summary)
    ensures CountFlips(summaries + [s]) == CountFlips(summaries) + if EndsDiffer(s.steps) then 1 else 0
  {
    assert (summaries + [s])[..|summaries|] == summaries;
  }

  lemma FlipIffEndsDiffer(q: Query, sqrt: real -> real, weights: seq<real>, s: Summary)
    requires IsSummary(q, sqrt, weights, s) && Stats.Ascending(weights)
    ensures s.topOneTip.Some? <==> EndsDiffer(s.steps)
  {
    if weights != [] {
      TipIffEndsDiffer(q.config, TablesOf(q, sqrt), weights);
    }
  }

  lemma SortedWeightsAscend(weights: seq<real>)
    ensures Stats.Ascending(SortedWeights(weights))
  {
    var s := SortedWeights(weights);
    forall i, j | 0 <= i < j < |s| ensures s[i] <= s[j] {
      StableSortAscends(weights, RealLess, i, j);
    }
  }

  // ----- the top-1 document along a sweep -----

  /** Whether anything is shown depends on the number of candidates only, not on the weight. */
  lemma TopOneShown(config: Config, t: Tables, u: real, v: real)
    requires Divides(config, t)
    ensures StepAt(config, t, u).top1.Some? <==> StepAt(config, t, v).top1.Some?
    ensures StepAt(config, t, u).top1.Some? ==>
              OrderAt(config, t, u) != [] && StepAt(config, t, u).top1.value == OrderAt(config, t, u)[0]
  {
    BlendIsRanking(config, t, u);
    BlendIsRanking(config, t, v);
    SameMembers(LinesOf(config, t), u, OrderAt(config, t, u), v, OrderAt(config, t, v));
  }

  /** A document that loses the top-1 place as the vector weight rises never regains it. */
  lemma TopOneNeverReturns(config: Config, t: Tables, u: real, v: real, w: real)
    requires Divides(config, t) && u <= v <= w
    requires StepAt(config, t, u).top1 == StepAt(config, t, w).top1
    ensures StepAt(config, t, v).top1 == StepAt(config, t, u).top1
  {
    TopOneShown(config, t, u, v);
    TopOneShown(config, t, v, w);
    TopOneShown(config, t, w, u);
    if StepAt(config, t, u).top1.Some? {
      BlendIsRanking(config, t, u);
      BlendIsRanking(config, t, v);
      BlendIsRanking(config, t, w);
      FirstNeverReturns(LinesOf(config, t), u, OrderAt(config, t, u), v, OrderAt(config, t, v), w,
        OrderAt(config, t, w));
    }
  }

  /** The vector-minus-lexical value of the top-1 document never decreases along the sweep, and
      strictly grows when the document changes. */
  lemma TopOneGapNeverDecreases(config: Config, t: Tables, u: real, v: real)
    requires Divides(config, t) && u <= v
    requires StepAt(config, t, u).top1.Some?
    ensures StepAt(config, t, v).top1.Some?
    ensures var x, y := StepAt(config, t, u).top1.value, StepAt(config, t, v).top1.value;
            && x in LinesOf(config, t) && y in LinesOf(config, t)
            && (x != y ==> LinesOf(config, t)[x].gap < LinesOf(config, t)[y].gap)
  {
    TopOneShown(config, t, u, v);
    TopOneShown(config, t, v, u);
    BlendIsRanking(config, t, u);
    BlendIsRanking(config, t, v);
    FirstGapGrows(LinesOf(config, t), u, OrderAt(config, t, u), v, OrderAt(config, t, v));
  }

  // ----- tipping points -----

  ghost predicate SameTopOneBefore(steps: seq<Step>, i: nat) {
    i <= |steps| && forall k :: 0 <= k < i ==> steps[k].top1 == steps[0].top1
  }

  /** The tip describes step i, the first one whose top-1 differs from the first step's. */
  ghost predicate TipsAt(steps: seq<Step>, i: nat, tip: TopOneTip) {
    && 0 < i < |steps| && SameTopOneBefore(steps, i) && steps[i].top1 != steps[0].top1
    && tip == TopOneTip(steps[i - 1].weightVector, steps[i].weightVector, steps[0].top1, steps[i].top1)
  }

  /** No tip means one top-1 document throughout; a tip is where the first document first lost. */
  lemma {:induction false} TipMeansChange(steps: seq<Step>)
    ensures FirstTopOneTip(steps).None? ==> SameTopOneBefore(steps, |steps|)
    ensures FirstTopOneTip(steps).Some? ==> exists i :: TipsAt(steps, i, FirstTopOneTip(steps).value)
  {
    if |steps| >= 2 {
      var last := |steps| - 1;
      var init := steps[..last];
      TipMeansChange(init);
      assert forall k :: 0 <= k < last ==> init[k] == steps[k];
      if FirstTopOneTip(init).Some? {
        var i :| TipsAt(init, i, FirstTopOneTip(init).value);
        assert TipsAt(steps, i, FirstTopOneTip(steps).value);
      } else {
        assert SameTopOneBefore(steps, last);
        assert steps[last - 1].top1 == steps[0].top1;
        if steps[last].top1 != steps[0].top1 {
          assert TipsAt(steps, last, FirstTopOneTip(steps).value);
        }
      }
    }
  }

  /** The two steps share less than 70 percent of top_k; without a positive top_k any two steps do. */
  predicate Churns(before: Step, after: Step, topK: int) {
    topK <= 0 || 10 * Metrics.OverlapAtK(before.topIds, after.topIds) < 7 * topK
  }

  predicate ChurnsAt(steps: seq<Step>, i: nat, topK: int) {
    0 < i < |steps| && Churns(steps[i - 1], steps[i], topK)
  }

  lemma ChurnExactly(before: Step, after: Step, topK: int)
    ensures Churn(before.topIds, after.topIds, topK) > 0.30 <==> Churns(before, after, topK)
  {
    var n := Metrics.OverlapAtK(before.topIds, after.topIds);
    if topK > 0 {
      ChurnThreshold(n, topK);
    } else if topK < 0 {
      NegativeQuotient(n as real, topK as real);
    }
  }

  lemma NegativeQuotient(n: real, k: real)
    requires n >= 0.0 && k < 0.0
    ensures n / k <= 0.0
  {
    var q := n / k;
    assert q * k == n;
    assert q > 0.0 ==> q * k < 0.0;
  }

  /** The tip describes step i: its weights, its churn, and the documents that came and went. */
  ghost predicate DescribesChurn(steps: seq<Step>, i: nat, topK: int, tip: TopKTip) {
    && 0 < i < |steps|
    && tip.fromWeight == steps[i - 1].weightVector && tip.toWeight == steps[i].weightVector
    && tip.churn == Churn(steps[i - 1].topIds, steps[i].topIds, topK)
    && (forall x :: x in tip.entered <==> x in steps[i].topIds && x !in steps[i - 1].topIds)
    && (forall x :: x in tip.left <==> x in steps[i - 1].topIds && x !in steps[i].topIds)
  }

  ghost predicate NoChurnBefore(steps: seq<Step>, i: nat, topK: int) {
    forall k :: 0 < k < i ==> !ChurnsAt(steps, k, topK)
  }

  ghost predicate ChurnTipsAt(steps: seq<Step>, i: nat, topK: int, tip: TopKTip) {
    ChurnsAt(steps, i, topK) && NoChurnBefore(steps, i, topK) && DescribesChurn(steps, i, topK, tip)
  }

  lemma LastChurn(steps: seq<Step>, topK: int)
    requires |steps| >= 2 && FirstTopKTip(steps[..|steps| - 1], topK).None?
    ensures FirstTopKTip(steps, topK).Some? <==> ChurnsAt(steps, |steps| - 1, topK)
    ensures FirstTopKTip(steps, topK).Some? ==>
              DescribesChurn(steps, |steps| - 1, topK, FirstTopKTip(steps, topK).value)
  {
    var before, after := steps[|steps| - 2], steps[|steps| - 1];
    ChurnExactly(before, after, topK);
    Metrics.DiscardMembers(after.topIds, Elements(before.topIds));
    Metrics.DiscardMembers(before.topIds, Elements(after.topIds));
  }

  /** No top-k tip means that no two adjacent steps churn; a tip describes the first two that do. */
  lemma {:induction false} ChurnTipExactly(steps: seq<Step>, topK: int)
    ensures FirstTopKTip(steps, topK).None? <==> NoChurnBefore(steps, |steps|, topK)
    ensures FirstTopKTip(steps, topK).Some? ==> exists i :: ChurnTipsAt(steps, i, topK, FirstTopKTip(steps, topK).value)
  {
    if |steps| >= 2 {
      var last := |steps| - 1;
      var init := steps[..last];
      ChurnTipExactly(init, topK);
      assert forall k :: 0 < k < last ==> (ChurnsAt(init, k, topK) <==> ChurnsAt(steps, k, topK));
      if FirstTopKTip(init, topK).Some? {
        var i :| ChurnTipsAt(init, i, topK, FirstTopKTip(init, topK).value);
        assert ChurnTipsAt(steps, i, topK, FirstTopKTip(steps, topK).value);
      } else {
        LastChurn(steps, topK);
        if FirstTopKTip(steps, topK).Some? {
          assert ChurnTipsAt(steps, last, topK, FirstTopKTip(steps, topK).value);
        }
      }
    }
  }

  /** Over ascending weights a top-1 tipping point is reported exactly when the smallest and the
      largest weight show different top-1 documents. */
  lemma TipIffEndsDiffer(config: Config, t: Tables, weights: seq<real>)
    requires Divides(config, t) && Stats.Ascending(weights)
    ensures FirstTopOneTip(StepsAt(config, t, weights)).Some? <==> EndsDiffer(StepsAt(config, t, weights))
  {
    var steps := StepsAt(config, t, weights);
    TipMeansChange(steps);
    if FirstTopOneTip(steps).Some? {
      var i :| TipsAt(steps, i, FirstTopOneTip(steps).value);
      TipMeansEndsDiffer(config, t, weights, i);
    }
  }

  lemma TipMeansEndsDiffer(config: Config, t: Tables, weights: seq<real>, i: nat)
    requires Divides(config, t) && Stats.Ascending(weights)
    requires 0 < i < |weights|
    requires StepAt(config, t, weights[i]).top1 != StepAt(config, t, weights[0]).top1
    ensures StepAt(config, t, weights[0]).top1 != StepAt(config, t, weights[|weights| - 1]).top1
  {
    var last := |weights| - 1;
    if StepAt(config, t, weights[0]).top1 == StepAt(config, t, weights[last]).top1 {
      assert weights[0] <= weights[i] && weights[i] <= weights[last];
      TopOneNeverReturns(config, t, weights[0], weights[i], weights[last]);
    }
  }

  // ----- the whole ranking along a sweep -----

  /** When top_k covers every candidate, a pair of documents that has swapped against the first step
      stays swapped, and Kendall's tau against the first step never increases. */
  lemma FullSweepDrifts(config: Config, t: Tables, u: real, v: real, w: real)
    requires Divides(config, t) && u <= v <= w
    requires config.topK >= |LinesOf(config, t)| >= 2
    ensures var first, mid, last := StepAt(config, t, u).topIds, StepAt(config, t, v).topIds,
            StepAt(config, t, w).topIds;
            && Metrics.Tau(first, mid).Some? && Metrics.Tau(first, last).Some?
            && Metrics.Tau(first, last).value <= Metrics.Tau(first, mid).value
            && forall x, y :: x in LinesOf(config, t) && y in LinesOf(config, t) ==>
                 (Metrics.OrderIs(first, mid, x, y, false) ==> Metrics.OrderIs(first, last, x, y, false))
  {
    var lines := LinesOf(config, t);
    var a, b, c := OrderAt(config, t, u), OrderAt(config, t, v), OrderAt(config, t, w);
    ShowsAll(config, t, u, v);
    ShowsAll(config, t, v, w);
    ShowsAll(config, t, w, u);
    BlendIsRanking(config, t, u);
    BlendIsRanking(config, t, v);
    BlendIsRanking(config, t, w);
    TauNeverIncreases(lines, u, a, v, b, w, c);
    forall x, y | x in lines && y in lines && Metrics.OrderIs(a, b, x, y, false)
      ensures Metrics.OrderIs(a, c, x, y, false) {
      DiscordanceOnlyGrows(lines, u, a, v, b, w, c, x, y);
    }
  }

  lemma ShowsAll(config: Config, t: Tables, u: real, v: real)
    requires Divides(config, t) && config.topK >= |LinesOf(config, t)|
    ensures StepAt(config, t, u).topIds == OrderAt(config, t, u)
    ensures Metrics.OverlapAtK(StepAt(config, t, u).topIds, StepAt(config, t, v).topIds) == |LinesOf(config, t)|
  {
    BlendIsRanking(config, t, u);
    BlendIsRanking(config, t, v);
    SameMembers(LinesOf(config, t), u, OrderAt(config, t, u), v, OrderAt(config, t, v));
  }

  /** Churn is measured against top_k, not against the number of candidates.  When top_k covers every
      candidate all steps show the same ids, yet a top-k tipping point is reported exactly when the
      candidates fill less than 70 percent of top_k, whatever the weights are; and for a top_k that is not
      positive it always is. */
  lemma TopKTipOfSmallPool(config: Config, t: Tables, weights: seq<real>)
    requires Divides(config, t) && |weights| >= 2
    requires config.topK <= 0 || config.topK >= |LinesOf(config, t)|
    ensures FirstTopKTip(StepsAt(config, t, weights), config.topK).Some? <==>
            config.topK <= 0 || 10 * |LinesOf(config, t)| < 7 * config.topK
  {
    var steps, n, k := StepsAt(config, t, weights), |LinesOf(config, t)|, config.topK;
    ChurnTipExactly(steps, k);
    if k > 0 {
      SameOverlapThroughout(config, t, weights);
      SameChurnThroughout(steps, k, n);
    } else {
      assert ChurnsAt(steps, 1, k);
    }
  }

  lemma ChurnThreshold(n: nat, k: nat)
    requires k >= 1
    ensures 1.0 - n as real / k as real > 0.30 <==> 10 * n < 7 * k
  {
    Metrics.QuotientCompare(n as real, 0.7, k as real);
  }

  ghost predicate AllOverlap(steps: seq<Step>, n: nat) {
    forall i, j :: 0 <= i < |steps| && 0 <= j < |steps| ==> Metrics.OverlapAtK(steps[i].topIds, steps[j].topIds) == n
  }

  lemma SameOverlapThroughout(config: Config, t: Tables, weights: seq<real>)
    requires Divides(config, t) && config.topK >= |LinesOf(config, t)|
    ensures AllOverlap(StepsAt(config, t, weights), |LinesOf(config, t)|)
  {
    var steps := StepsAt(config, t, weights);
    forall i, j | 0 <= i < |steps| && 0 <= j < |steps|
      ensures Metrics.OverlapAtK(steps[i].topIds, steps[j].topIds) == |LinesOf(config, t)|
    {
      ShowsAll(config, t, weights[i], weights[j]);
    }
  }

  lemma SameChurnThroughout(steps: seq<Step>, topK: int, n: nat)
    requires |steps| >= 2 && topK >= 1 && AllOverlap(steps, n)
    ensures NoChurnBefore(steps, |steps|, topK) <==> 10 * n >= 7 * topK
  {
    forall k | 0 < k < |steps| ensures ChurnsAt(steps, k, topK) <==> 10 * n < 7 * topK {
      assert Metrics.OverlapAtK(steps[k - 1].topIds, steps[k].topIds) == n;
    }
    assert ChurnsAt(steps, 1, topK) <==> 10 * n < 7 * topK;
  }
}
