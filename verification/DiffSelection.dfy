/** Which diffs get a rewrite comparison. */
module DiffSelection {
  import opened Prelude
  import opened Sorting
  import opened ReplayDiff

  /** The HIGH diffs still to be added, one per query id not yet selected. */
  function Extra(ranked: seq<Diff>, selected: set<int>): seq<Diff> {
    if ranked == [] then []
    else if !ranked[0].severity.High? || ranked[0].queryId in selected then Extra(ranked[1..], selected)
    else [ranked[0]] + Extra(ranked[1..], selected + {ranked[0].queryId})
  }

  function IdsIn(diffs: seq<Diff>): set<int> {
    set i | 0 <= i < |diffs| :: diffs[i].queryId
  }

  function Selected(diffs: seq<Diff>, maxQueries: int, always: bool): seq<Diff> {
    var first := SliceTo(RankDiffs(diffs), maxQueries);
    if always then first + Extra(RankDiffs(diffs), IdsIn(first)) else first
  }

  // ----- the selection in terms of the ranking -----

  /** The diff at position i is added: HIGH, and the first HIGH one of a query id that is not selected yet. */
  ghost predicate Joins(ranked: seq<Diff>, selected: set<int>, i: nat) {
    && i < |ranked| && ranked[i].severity.High? && ranked[i].queryId !in selected
    && forall j: nat :: j < i && ranked[j].severity.High? ==> ranked[j].queryId != ranked[i].queryId
  }

  ghost predicate JoinsAt(ranked: seq<Diff>, selected: set<int>, at: seq<nat>) {
    Positions(at, |ranked|) && forall i: nat :: i in at <==> Joins(ranked, selected, i)
  }

  /** The ranking's slice, and behind it, if asked for, the diffs that join it, in ranking order. */
  ghost predicate SelectionExplained(diffs: seq<Diff>, maxQueries: int, always: bool, selected: seq<Diff>) {
    exists ranked, extra ::
      && Arranges(ranked, diffs, InRiskOrder) && selected == SliceTo(ranked, maxQueries) + extra
      && if always then AreExtra(ranked, SliceTo(ranked, maxQueries), extra) else extra == []
  }

  ghost predicate AreExtra(ranked: seq<Diff>, first: seq<Diff>, extra: seq<Diff>) {
    exists at :: JoinsAt(ranked, set i | 0 <= i < |first| :: first[i].queryId, at) && PickedAt(extra, ranked, at)
  }

  lemma JoinShifts(ranked: seq<Diff>, selected: set<int>, now: set<int>, i: nat)
    requires ranked != []
    requires now == if ranked[0].severity.High? then selected + {ranked[0].queryId} else selected
    ensures Joins(ranked, selected, i + 1) <==> Joins(ranked[1..], now, i)
  {
    var rest := ranked[1..];
    assert forall j: nat :: j < |rest| ==> rest[j] == ranked[j + 1];
    if i < |rest| && Joins(rest, now, i) {
      forall j: nat | j < i + 1 && ranked[j].severity.High? ensures ranked[j].queryId != ranked[i + 1].queryId {
        assert j > 0 ==> ranked[j] == rest[j - 1];
      }
    }
  }

  lemma JoinsAtNext(ranked: seq<Diff>, selected: set<int>, now: set<int>, rest: seq<nat>)
    requires ranked != [] && JoinsAt(ranked[1..], now, rest)
    requires now == if ranked[0].severity.High? then selected + {ranked[0].queryId} else selected
    ensures JoinsAt(ranked, selected, if Joins(ranked, selected, 0) then [0] + Shifted(rest) else Shifted(rest))
  {
    ShiftedPositions(rest, |ranked| - 1);
    forall i: nat
      ensures i in Shifted(rest) <==> i > 0 && Joins(ranked, selected, i)
      ensures i in [0] + Shifted(rest) <==> i == 0 || Joins(ranked, selected, i)
    {
      ShiftedIn(rest, i);
      if i > 0 { JoinShifts(ranked, selected, now, i - 1); }
    }
  }

  lemma {:induction false} ExtraJoins(ranked: seq<Diff>, selected: set<int>) returns (at: seq<nat>)
    ensures JoinsAt(ranked, selected, at) && PickedAt(Extra(ranked, selected), ranked, at)
  {
    if ranked == [] {
      at := [];
    } else {
      var now := if ranked[0].severity.High? then selected + {ranked[0].queryId} else selected;
      assert ranked == [ranked[0]] + ranked[1..];
      if !ranked[0].severity.High? || ranked[0].queryId in selected {
        assert now == selected;
      }
      at := ExtraJoins(ranked[1..], now);
      JoinsAtNext(ranked, selected, now, at);
      PickFirst(Extra(ranked[1..], now), ranked[1..], at, ranked[0]);
      at := if Joins(ranked, selected, 0) then [0] + Shifted(at) else Shifted(at);
    }
  }

  lemma SelectedExactly(diffs: seq<Diff>, maxQueries: int, always: bool)
    ensures SelectionExplained(diffs, maxQueries, always, Selected(diffs, maxQueries, always))
  {
    var ranked := RankDiffs(diffs);
    var first := SliceTo(ranked, maxQueries);
    RankingExactly(diffs);
    if always {
      var at := ExtraJoins(ranked, IdsIn(first));
      assert AreExtra(ranked, first, Extra(ranked, IdsIn(first)));
    } else {
      assert first == first + [];
    }
  }

  /** _select_diffs; a negative max_queries counts from the end, as Python slices do. */
  method SelectDiffs(diffs: seq<Diff>, maxQueries: int, always: bool) returns (selected: seq<Diff>)
    ensures selected == Selected(diffs, maxQueries, always)
    ensures SelectionExplained(diffs, maxQueries, always, selected)
  {
    SelectedExactly(diffs, maxQueries, always);
    var ranked := RankDiffs(diffs);
    selected := SliceTo(ranked, maxQueries);
    if !always { return; }
    var ids := IdsIn(selected);
    ghost var all := selected + Extra(ranked, ids);
    for i := 0 to |ranked|
      invariant selected + Extra(ranked[i..], ids) == all
    {
      var d := ranked[i];
      if !d.severity.High? { continue; }
      if d.queryId in ids { continue; }
      AppendRegroups(selected, [d], Extra(ranked[i + 1..], ids + {d.queryId}));
      selected := selected + [d];
      ids := ids + {d.queryId};
    }
  }

  // ----- the ranking -----

  /** In the ranking the HIGH diffs come first. */
  lemma HighFirst(diffs: seq<Diff>, i: nat, j: nat)
    requires i < j < |RankDiffs(diffs)| && RankDiffs(diffs)[j].severity.High?
    ensures RankDiffs(diffs)[i].severity.High?
  {
    RiskierIsOrder();
    StableSortAscends(diffs, Riskier, i, j);
  }

  ghost predicate DistinctQueries(diffs: seq<Diff>) {
    forall i, j :: 0 <= i < j < |diffs| ==> diffs[i].queryId != diffs[j].queryId
  }

  /** h HIGH diffs, then the others. */
  ghost predicate HighPrefix(ranked: seq<Diff>, h: nat) {
    h <= |ranked| && forall i :: 0 <= i < |ranked| ==> (ranked[i].severity.High? <==> i < h)
  }

  lemma {:induction false} CountOfPrefix(ranked: seq<Diff>, h: nat)
    requires HighPrefix(ranked, h)
    ensures CountOf(ranked, High) == h
  {
    if ranked != [] {
      CountOfPrefix(ranked[..|ranked| - 1], if h < |ranked| then h else h - 1);
    }
  }

  lemma {:induction false} FirstNotHigh(ranked: seq<Diff>) returns (h: nat)
    requires forall i, j :: 0 <= i < j < |ranked| && ranked[j].severity.High? ==> ranked[i].severity.High?
    ensures HighPrefix(ranked, h)
  {
    h := 0;
    while h < |ranked| && ranked[h].severity.High?
      invariant h <= |ranked| && forall i :: 0 <= i < h ==> ranked[i].severity.High?
    {
      h := h + 1;
    }
  }

  function OneIfHigh(d: Diff): int {
    if d.severity.High? then 1 else 0
  }

  lemma {:induction false} CountIsSum(diffs: seq<Diff>)
    ensures CountOf(diffs, High) == IntSum(MapSeq(diffs, OneIfHigh))
  {
    if diffs == [] {
      assert MapSeq(diffs, OneIfHigh) == [];
    } else {
      CountIsSum(diffs[..|diffs| - 1]);
      MappedSum(diffs, OneIfHigh);
    }
  }

  lemma CountOfPermutation(a: seq<Diff>, b: seq<Diff>)
    requires multiset(a) == multiset(b)
    ensures CountOf(a, High) == CountOf(b, High)
  {
    CountIsSum(a);
    CountIsSum(b);
    MapOfPermutation(a, b, OneIfHigh);
    IntSumPermutes(MapSeq(a, OneIfHigh), MapSeq(b, OneIfHigh));
  }

  // ----- the selection -----

  function Larger(a: nat, b: nat): nat {
    if a < b then b else a
  }

  /** The diffs at positions i, ..., h - 1 whose query id has not occurred before them. */
  function FirstOfEachQuery(ranked: seq<Diff>, i: nat, h: nat): seq<Diff>
    requires h <= |ranked|
    decreases h - i
  {
    if i >= h then []
    else
      (if ranked[i].queryId in IdsIn(ranked[..i]) then [] else [ranked[i]]) + FirstOfEachQuery(ranked, i + 1, h)
  }

  lemma IdsOneMore(ranked: seq<Diff>, i: nat)
    requires i < |ranked|
    ensures IdsIn(ranked[..i + 1]) == IdsIn(ranked[..i]) + {ranked[i].queryId}
  {
    TakeOneMore(ranked, i);
    var init, more := ranked[..i], ranked[..i + 1];
    forall q | q in IdsIn(init) ensures q in IdsIn(more) {
      var j :| 0 <= j < |init| && init[j].queryId == q;
      assert more[j] == init[j];
    }
    assert more[i] == ranked[i];
    forall q | q in IdsIn(more) ensures q in IdsIn(init) + {ranked[i].queryId} {
      var j :| 0 <= j < |more| && more[j].queryId == q;
      if j < i { assert init[j] == more[j]; }
    }
  }

  /** With everything before position max(i, m) selected, the loop adds the first HIGH diff of each new query id. */
  lemma {:induction false} ExtraExactly(ranked: seq<Diff>, i: nat, m: nat, h: nat, ids: set<int>)
    requires HighPrefix(ranked, h) && i <= |ranked| && m <= |ranked|
    requires i <= h || m >= h ==> ids == IdsIn(ranked[..Larger(i, m)])
    ensures Extra(ranked[i..], ids) == FirstOfEachQuery(ranked, Larger(i, m), h)
    decreases |ranked| - i
  {
    if i < |ranked| {
      assert ranked[i..][0] == ranked[i] && ranked[i..][1..] == ranked[i + 1..];
      if i < m {
        assert ranked[..m][i] == ranked[i];
        if i < h || m >= h {
          ExtraExactly(ranked, i + 1, m, h, ids);
        } else {
          ExtraNotHigh(ranked, i, h, ids);
        }
      } else if i < h {
        IdsOneMore(ranked, i);
        ExtraExactly(ranked, i + 1, m, h, ids + {ranked[i].queryId});
        assert ranked[i].queryId in ids ==> ids + {ranked[i].queryId} == ids;
      } else {
        ExtraNotHigh(ranked, i, h, ids);
      }
    }
  }

  lemma {:induction false} ExtraNotHigh(ranked: seq<Diff>, i: nat, h: nat, ids: set<int>)
    requires HighPrefix(ranked, h) && h <= i <= |ranked|
    ensures Extra(ranked[i..], ids) == []
    decreases |ranked| - i
  {
    if i < |ranked| {
      assert ranked[i..][0] == ranked[i] && ranked[i..][1..] == ranked[i + 1..];
      ExtraNotHigh(ranked, i + 1, h, ids);
    }
  }

  /** In the ranking exactly the first h diffs are HIGH, h being their number. */
  lemma RankingFits(diffs: seq<Diff>)
    ensures |RankDiffs(diffs)| == |diffs| && HighPrefix(RankDiffs(diffs), CountOf(diffs, High))
  {
    var ranked := RankDiffs(diffs);
    StableSortMultiset(diffs, Riskier);
    forall i, j | 0 <= i < j < |ranked| && ranked[j].severity.High? ensures ranked[i].severity.High? {
      HighFirst(diffs, i, j);
    }
    var h := FirstNotHigh(ranked);
    CountOfPrefix(ranked, h);
    CountOfPermutation(diffs, ranked);
  }

  /** What is selected, for all diffs: a prefix of the ranking, and of the remaining HIGH diffs the first
      one under each query id that has not occurred. */
  lemma SelectionExactly(diffs: seq<Diff>, maxQueries: int)
    ensures var ranked, h := RankDiffs(diffs), CountOf(diffs, High);
            var m := |SliceTo(ranked, maxQueries)|;
            && h <= |ranked| && m <= |ranked|
            && Selected(diffs, maxQueries, true) == ranked[..m] + FirstOfEachQuery(ranked, m, h)
  {
    var ranked := RankDiffs(diffs);
    RankingFits(diffs);
    var m := |SliceTo(ranked, maxQueries)|;
    assert SliceTo(ranked, maxQueries) == ranked[..m];
    ExtraExactly(ranked, 0, m, CountOf(diffs, High), IdsIn(ranked[..m]));
    assert ranked[0..] == ranked;
  }

  /** No diff at the positions m, ..., h - 1 repeats a query id from before it. */
  ghost predicate NewQueries(ranked: seq<Diff>, m: nat, h: nat)
    requires h <= |ranked|
  {
    forall i :: m <= i < h ==> ranked[i].queryId !in IdsIn(ranked[..i])
  }

  lemma {:induction false} NothingSkippedExactly(ranked: seq<Diff>, m: nat, h: nat)
    requires m <= h <= |ranked|
    ensures |FirstOfEachQuery(ranked, m, h)| <= h - m
    ensures FirstOfEachQuery(ranked, m, h) == ranked[m..h] <==> NewQueries(ranked, m, h)
    decreases h - m
  {
    if m < h {
      NothingSkippedExactly(ranked, m + 1, h);
      assert ranked[m..h] == [ranked[m]] + ranked[m + 1..h];
      assert |FirstOfEachQuery(ranked, m, h)| == h - m ==> ranked[m].queryId !in IdsIn(ranked[..m]);
      if ranked[m].queryId !in IdsIn(ranked[..m]) {
        assert FirstOfEachQuery(ranked, m, h)[1..] == FirstOfEachQuery(ranked, m + 1, h);
        assert ranked[m..h][1..] == ranked[m + 1..h];
      }
    }
  }

  /** Every HIGH diff is selected, the selection being a prefix of the ranking, if and only if none of the
      HIGH diffs behind the slice repeats a query id. */
  lemma AllHighSelectedExactly(diffs: seq<Diff>, maxQueries: int)
    ensures var ranked, h := RankDiffs(diffs), CountOf(diffs, High);
            var m := |SliceTo(ranked, maxQueries)|;
            && h <= |ranked| && m <= |ranked|
            && (Selected(diffs, maxQueries, true) == ranked[..Larger(m, h)] <==> NewQueries(ranked, m, h))
  {
    var ranked, h := RankDiffs(diffs), CountOf(diffs, High);
    var m := |SliceTo(ranked, maxQueries)|;
    SelectionExactly(diffs, maxQueries);
    if m < h {
      NothingSkippedExactly(ranked, m, h);
      PrefixContinued(ranked, m, h, FirstOfEachQuery(ranked, m, h));
    }
  }

  lemma PrefixContinued<T>(s: seq<T>, m: nat, h: nat, extra: seq<T>)
    requires m <= h <= |s|
    ensures s[..m] + extra == s[..h] <==> extra == s[m..h]
  {
    assert s[..h] == s[..m] + s[m..h];
    assert (s[..m] + extra)[m..] == extra && s[..h][m..] == s[m..h];
  }

  // ----- for every limit -----

  ghost predicate DistinctHighQueries(diffs: seq<Diff>) {
    forall i, j :: 0 <= i < j < |diffs| && diffs[i].severity.High? && diffs[j].severity.High? ==>
      diffs[i].queryId != diffs[j].queryId
  }

  function HighQuery(d: Diff): Option<int> {
    if d.severity.High? then Some(d.queryId) else None
  }

  lemma {:induction false} OnceExactly<T>(s: seq<T>, x: T)
    ensures multiset(s)[x] <= 1 <==> forall i, j :: 0 <= i < j < |s| ==> s[i] != x || s[j] != x
  {
    if s != [] {
      var init, last := s[..|s| - 1], s[|s| - 1];
      OnceExactly(init, x);
      assert s == init + [last];
      assert x in multiset(init) <==> x in init;
      if x in init {
        var i :| 0 <= i < |init| && init[i] == x;
        assert s[i] == x;
      }
      forall i, j | 0 <= i < j < |init| && init[i] == x && init[j] == x ensures s[i] == x && s[j] == x {}
    }
  }

  lemma HighQueriesCounted(diffs: seq<Diff>)
    ensures DistinctHighQueries(diffs) <==> forall q: int :: multiset(MapSeq(diffs, HighQuery))[Some(q)] <= 1
  {
    var keys := MapSeq(diffs, HighQuery);
    forall q: int
      ensures multiset(keys)[Some(q)] <= 1 <==>
              forall i, j :: 0 <= i < j < |keys| ==> keys[i] != Some(q) || keys[j] != Some(q)
    {
      OnceExactly(keys, Some(q));
    }
    if !DistinctHighQueries(diffs) {
      var i, j :| 0 <= i < j < |diffs| && diffs[i].severity.High? && diffs[j].severity.High? &&
                  diffs[i].queryId == diffs[j].queryId;
      assert keys[i] == Some(diffs[i].queryId) == keys[j];
    }
    if DistinctHighQueries(diffs) {
      forall q: int, i, j | 0 <= i < j < |keys| ensures keys[i] != Some(q) || keys[j] != Some(q) {
        assert keys[i] == HighQuery(diffs[i]) && keys[j] == HighQuery(diffs[j]);
      }
    }
  }

  lemma RankedHighQueries(diffs: seq<Diff>)
    ensures DistinctHighQueries(diffs) <==> DistinctHighQueries(RankDiffs(diffs))
  {
    StableSortMultiset(diffs, Riskier);
    MapOfPermutation(diffs, RankDiffs(diffs), HighQuery);
    HighQueriesCounted(diffs);
    HighQueriesCounted(RankDiffs(diffs));
  }

  lemma DistinctMeansNew(ranked: seq<Diff>, m: nat, h: nat)
    requires HighPrefix(ranked, h) && DistinctHighQueries(ranked)
    ensures NewQueries(ranked, m, h)
  {
    forall i | m <= i < h ensures ranked[i].queryId !in IdsIn(ranked[..i]) {
      forall j | 0 <= j < |ranked[..i]| ensures ranked[..i][j].queryId != ranked[i].queryId {
        assert ranked[j].severity.High? && ranked[i].severity.High?;
      }
    }
  }

  lemma NewMeansDistinct(ranked: seq<Diff>, h: nat)
    requires HighPrefix(ranked, h) && NewQueries(ranked, 0, h)
    ensures DistinctHighQueries(ranked)
  {
    forall i, j | 0 <= i < j < |ranked| && ranked[i].severity.High? && ranked[j].severity.High?
      ensures ranked[i].queryId != ranked[j].queryId
    {
      assert ranked[..j][i] == ranked[i];
    }
  }

  /** With this limit the selection is the ranking down to the slice's end or to the last HIGH diff. */
  predicate SelectsPrefix(diffs: seq<Diff>, maxQueries: int) {
    var h, m := CountOf(diffs, High), |SliceTo(RankDiffs(diffs), maxQueries)|;
    Larger(m, h) <= |RankDiffs(diffs)| && Selected(diffs, maxQueries, true) == RankDiffs(diffs)[..Larger(m, h)]
  }

  /** For every limit the selection holds all HIGH diffs as a prefix of the ranking, if and only if no two
      HIGH diffs share a query id. */
  lemma EveryLimitExactly(diffs: seq<Diff>)
    ensures (forall maxQueries :: SelectsPrefix(diffs, maxQueries)) <==> DistinctHighQueries(diffs)
  {
    var ranked, h := RankDiffs(diffs), CountOf(diffs, High);
    RankingFits(diffs);
    RankedHighQueries(diffs);
    if DistinctHighQueries(diffs) {
      forall maxQueries ensures SelectsPrefix(diffs, maxQueries) {
        AllHighSelectedExactly(diffs, maxQueries);
        DistinctMeansNew(ranked, |SliceTo(ranked, maxQueries)|, h);
      }
    } else {
      AllHighSelectedExactly(diffs, 0);
      assert |SliceTo(ranked, 0)| == 0;
      if NewQueries(ranked, 0, h) {
        NewMeansDistinct(ranked, h);
      }
      assert !SelectsPrefix(diffs, 0);
    }
  }

  /** With distinct query ids the selection is a prefix of the ranking, without repetition: max_queries long,
      or as long as there are HIGH diffs. */
  lemma SelectionIsRankedPrefix(diffs: seq<Diff>, maxQueries: int)
    requires DistinctQueries(diffs)
    ensures var ranked, h := RankDiffs(diffs), CountOf(diffs, High);
            var m := |SliceTo(ranked, maxQueries)|;
            && h <= |ranked| && m <= |ranked|
            && Selected(diffs, maxQueries, true) == ranked[..Larger(m, h)]
            && DistinctQueries(Selected(diffs, maxQueries, true))
            && (0 <= maxQueries ==> m == if maxQueries < |diffs| then maxQueries else |diffs|)
  {
    RankingFits(diffs);
    RankedKeepsQueries(diffs);
    assert DistinctHighQueries(RankDiffs(diffs));
    DistinctMeansNew(RankDiffs(diffs), |SliceTo(RankDiffs(diffs), maxQueries)|, CountOf(diffs, High));
    AllHighSelectedExactly(diffs, maxQueries);
  }

  function QueryOf(d: Diff): int { d.queryId }

  lemma RankedKeepsQueries(diffs: seq<Diff>)
    requires DistinctQueries(diffs)
    ensures DistinctQueries(RankDiffs(diffs))
  {
    var a, b := MapSeq(diffs, QueryOf), MapSeq(RankDiffs(diffs), QueryOf);
    StableSortMultiset(diffs, Riskier);
    MapOfPermutation(diffs, RankDiffs(diffs), QueryOf);
    assert Distinct(a);
    MultisetOfDistinct(a);
    DistinctFromMultiset(b);
    forall i, j | 0 <= i < j < |RankDiffs(diffs)| ensures RankDiffs(diffs)[i].queryId != RankDiffs(diffs)[j].queryId {
      assert b[i] != b[j];
    }
  }

  /** Two HIGH diffs under one query id: behind an empty slice the second is left out, although it ranks before
      anything that is not HIGH. */
  lemma SharedQueryIdIsLost(d: Diff, e: Diff)
    requires d.severity.High? && e.severity.High? && d.queryId == e.queryId && Riskier(d, e)
    ensures RankDiffs([d, e]) == [d, e] && Selected([d, e], 0, true) == [d]
  {
    RiskierIsOrder();
    assert [d, e][1..] == [e] && [e][1..] == [];
    assert StableSort([e], Riskier) == [e];
    assert RankDiffs([d, e]) == Insert(d, [e], Riskier) == [d, e];
    assert Extra([e], {d.queryId}) == [];
    assert Extra([d, e], {}) == [d] + Extra([e], {} + {d.queryId});
    assert SliceTo([d, e], 0) == [] && IdsIn([]) == {};
  }
}
