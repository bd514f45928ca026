/** Comparing what the baseline and the shadow returned for each replayed query. */
module ReplayDiff {
  import opened Prelude
  import opened Sorting
  import opened Metrics
  import opened Stats

  datatype Response = Response(ids: seq<Option<Text>>, failed: bool)

  datatype Pair = Pair(queryId: int, baseline: Response, shadow: Response)

  datatype Severity = High | Medium | Low

  datatype Flag = Is(severity: Severity) | LowOverlap | LowTau | BaselineQueryError | ShadowQueryError

  datatype Moved = Moved(id: Text, rankBaseline: int, rankShadow: int, delta: int)

  datatype Diff = Diff(
    queryId: int,
    baseIds: seq<Text>,
    shadowIds: seq<Text>,
    overlap: nat,
    overlapRatio: real,
    jaccard: real,
    tau: Option<real>,
    instability: real,
    moved: seq<Moved>,
    dropped: seq<Text>,
    added: seq<Text>,
    severity: Severity,
    flags: seq<Flag>)

  // ----- the lists -----

  function IdsOf(ids: seq<Option<Text>>): seq<Text> {
    if ids == [] then [] else IdsOf(ids[..|ids| - 1]) + if ids[|ids| - 1].Some? then [ids[|ids| - 1].value] else []
  }

  function Delta(a: seq<Text>, b: seq<Text>, x: Text): int {
    Rank(b, x) - Rank(a, x)
  }

  function Abs(n: int): nat {
    if n < 0 then -n else n
  }

  function Farther(a: seq<Text>, b: seq<Text>): (Text, Text) -> bool {
    (x, y) => Abs(Delta(a, b, x)) > Abs(Delta(a, b, y))
  }

  /** The ids whose rank changed, in the order of `ids`. */
  function MovedAmong(a: seq<Text>, b: seq<Text>, ids: seq<Text>): seq<Moved> {
    if ids == [] then []
    else
      var x := ids[|ids| - 1];
      MovedAmong(a, b, ids[..|ids| - 1])
      + if Delta(a, b, x) == 0 then [] else [Moved(x, Rank(a, x) + 1, Rank(b, x) + 1, Delta(a, b, x))]
  }

  /** The moved documents, largest displacement first; `scan` is the order in which the set of common ids iterates. */
  function MovedDocs(a: seq<Text>, b: seq<Text>, scan: seq<Text>): seq<Moved> {
    MovedAmong(a, b, StableSort(scan, Farther(a, b)))
  }

  function Changed(a: seq<Text>, b: seq<Text>, ids: seq<Text>): nat {
    if ids == [] then 0 else Changed(a, b, ids[..|ids| - 1]) + if Delta(a, b, ids[|ids| - 1]) == 0 then 0 else 1
  }

  /** sort_instability_ratio */
  function Instability(a: seq<Text>, b: seq<Text>): real {
    var common := Keep(a, Elements(b));
    if common == [] then 0.0 else Changed(a, b, common) as real / |common| as real
  }

  // ----- risk -----

  /** The thresholds are 60 and 80 percent of k; without a tau the value 0.0 counts. */
  function SeverityOf(overlap: nat, tau: Option<real>, k: int): Severity {
    var value := if tau.Some? then tau.value else 0.0;
    if 5 * overlap < 3 * k || value < 0.2 then High
    else if 5 * overlap < 4 * k then Medium
    else Low
  }

  function FlagsOf(overlap: nat, tau: Option<real>, k: int): seq<Flag> {
    [Is(SeverityOf(overlap, tau, k))] + ListFlags(overlap, tau, k)
  }

  function ListFlags(overlap: nat, tau: Option<real>, k: int): seq<Flag> {
    (if 5 * overlap < 3 * k then [LowOverlap] else []) + (if tau.Some? && tau.value < 0.2 then [LowTau] else [])
  }

  // ----- compare_replay -----

  function Scanned(a: seq<Text>, b: seq<Text>): set<Text> {
    Elements(a) * Elements(b)
  }

  /** A failed query is HIGH whatever the lists say; its flags keep the severity of the lists. */
  function SeverityWithErrors(p: Pair, severity: Severity): Severity {
    if p.baseline.failed || p.shadow.failed then High else severity
  }

  function ErrorFlags(p: Pair): seq<Flag> {
    (if p.baseline.failed then [BaselineQueryError] else []) + (if p.shadow.failed then [ShadowQueryError] else [])
  }

  function OverlapRatio(overlap: nat, k: int): real {
    if k == 0 then 0.0 else overlap as real / k as real
  }

  function DiffOfLists(p: Pair, a: seq<Text>, b: seq<Text>, overlap: nat, tau: Option<real>, k: int,
      scan: seq<Text>): Diff
  {
    Diff(p.queryId, a, b, overlap, OverlapRatio(overlap, k), JaccardAtK(a, b), tau, Instability(a, b),
      MovedDocs(a, b, scan), Discard(a, Elements(b)), Discard(b, Elements(a)),
      SeverityWithErrors(p, SeverityOf(overlap, tau, k)), FlagsOf(overlap, tau, k) + ErrorFlags(p))
  }

  function DiffOf(p: Pair, k: int, scan: set<Text> -> seq<Text>): Diff {
    var a, b := SliceTo(IdsOf(p.baseline.ids), k), SliceTo(IdsOf(p.shadow.ids), k);
    DiffOfLists(p, a, b, OverlapAtK(a, b), Tau(a, b), k, scan(Scanned(a, b)))
  }

  function DiffWith(k: int, scan: set<Text> -> seq<Text>): Pair -> Diff {
    p => DiffOf(p, k, scan)
  }

  function DiffsOf(pairs: seq<Pair>, k: int, scan: set<Text> -> seq<Text>): seq<Diff> {
    MapSeq(pairs, DiffWith(k, scan))
  }

  function CountOf(diffs: seq<Diff>, severity: Severity): nat {
    if diffs == [] then 0
    else CountOf(diffs[..|diffs| - 1], severity) + if diffs[|diffs| - 1].severity == severity then 1 else 0
  }

  // ----- a diff in terms of the two responses -----

  function HasId(): Option<Text> -> bool {
    (x: Option<Text>) => x.Some?
  }

  /** ids are the first k ids that the response carries. */
  ghost predicate FirstIds(entries: seq<Option<Text>>, k: int, ids: seq<Text>) {
    exists present :: IsKept(entries, present, HasId()) && IdsAre(SliceTo(present, k), ids)
  }

  ghost predicate IdsAre(entries: seq<Option<Text>>, ids: seq<Text>) {
    |entries| == |ids| && forall i :: 0 <= i < |ids| ==> entries[i] == Some(ids[i])
  }

  /** m describes a document that stands at different ranks in the two lists, counted from 1. */
  ghost predicate IsMove(a: seq<Text>, b: seq<Text>, m: Moved) {
    exists p: nat, q: nat ::
      Places(a, b, m.id, p, q) && p != q && m.rankBaseline == p + 1 && m.rankShadow == q + 1 && m.delta == q - p
  }

  ghost predicate Places(a: seq<Text>, b: seq<Text>, x: Text, p: nat, q: nat) {
    LastAt(a, x, p) && LastAt(b, x, q)
  }

  /** Exactly the documents whose rank changed, each once. */
  ghost predicate MovedExplained(a: seq<Text>, b: seq<Text>, moved: seq<Moved>) {
    Distinct(moved) && forall m :: m in moved <==> IsMove(a, b, m)
  }

  /** No displacement is larger than an earlier one. */
  ghost predicate LargestFirst(moved: seq<Moved>) {
    forall i, j :: 0 <= i < j < |moved| ==>
      && (0 <= moved[i].delta ==> -moved[i].delta <= moved[j].delta <= moved[i].delta)
      && (moved[i].delta < 0 ==> moved[i].delta <= moved[j].delta <= -moved[i].delta)
  }

  /** The share of the common entries whose rank changed. */
  ghost predicate InstabilityExplained(a: seq<Text>, b: seq<Text>, value: real) {
    exists common, changed ::
      && IsKept(a, common, InList(b)) && IsKept(common, changed, ChangesRank(a, b))
      && if common == [] then value == 0.0 else IsQuotient(value, |changed| as real, |common| as real)
  }

  ghost function ChangesRank(a: seq<Text>, b: seq<Text>): Text -> bool {
    (x: Text) => exists p: nat, q: nat :: Places(a, b, x, p, q) && p != q
  }

  ghost predicate ListsExplained(d: Diff, k: int) {
    var a, b := d.baseIds, d.shadowIds;
    && d.overlap == |Elements(a) * Elements(b)|
    && (if k == 0 then d.overlapRatio == 0.0 else IsQuotient(d.overlapRatio, d.overlap as real, k as real))
    && (if a == [] && b == [] then d.jaccard == 1.0
        else IsQuotient(d.jaccard, d.overlap as real, |Elements(a) + Elements(b)| as real))
    && TauExplained(a, b, d.tau) && InstabilityExplained(a, b, d.instability)
    && IsKept(a, d.dropped, NotInList(b)) && IsKept(b, d.added, NotInList(a))
  }

  /** HIGH below 60 percent of k, without a tau or with one below 0.2, and for a failed query; else MEDIUM below 80
      percent. */
  ghost predicate RiskExplained(p: Pair, k: int, overlap: nat, tau: Option<real>, severity: Severity,
                                flags: seq<Flag>) {
    var few, unlike := 5 * overlap < 3 * k, tau.None? || tau.value < 0.2;
    var failed := p.baseline.failed || p.shadow.failed;
    && (severity.High? <==> few || unlike || failed)
    && (severity.Medium? <==> !few && !unlike && !failed && 5 * overlap < 4 * k)
    && flags != [] && flags[0] == Is(if few || unlike then High else if 5 * overlap < 4 * k then Medium else Low)
    && Reasons(flags[1..], few, tau.Some? && tau.value < 0.2, p.baseline.failed, p.shadow.failed)
  }

  /** Behind the severity that the lists alone give, the flags name each reason once. */
  ghost predicate Reasons(flags: seq<Flag>, few: bool, unlike: bool, baseline: bool, shadow: bool) {
    && (LowOverlap in flags <==> few) && (LowTau in flags <==> unlike)
    && (BaselineQueryError in flags <==> baseline) && (ShadowQueryError in flags <==> shadow)
    && |flags| == One(few) + One(unlike) + One(baseline) + One(shadow)
  }

  function One(b: bool): nat {
    if b then 1 else 0
  }

  /** The set iterates in some order, each member once. */
  ghost predicate Scans(scan: set<Text> -> seq<Text>) {
    forall s :: Distinct(scan(s)) && forall x :: x in scan(s) <==> x in s
  }

  ghost predicate DiffExplained(p: Pair, k: int, d: Diff) {
    && d.queryId == p.queryId
    && FirstIds(p.baseline.ids, k, d.baseIds) && FirstIds(p.shadow.ids, k, d.shadowIds)
    && ListsExplained(d, k) && RiskExplained(p, k, d.overlap, d.tau, d.severity, d.flags)
    && MovedExplained(d.baseIds, d.shadowIds, d.moved) && LargestFirst(d.moved)
  }

  lemma IdsGrow(present: seq<Option<Text>>, ids: seq<Text>, x: Text)
    requires IdsAre(present, ids)
    ensures IdsAre(present + [Some(x)], ids + [x])
  {
  }

  lemma {:induction false} IdsExactly(entries: seq<Option<Text>>) returns (present: seq<Option<Text>>)
    ensures IsKept(entries, present, HasId()) && IdsAre(present, IdsOf(entries))
  {
    if entries == [] {
      KeptNone(HasId());
      present := [];
    } else {
      var init, last := entries[..|entries| - 1], entries[|entries| - 1];
      var before := IdsExactly(init);
      present := if last.Some? then before + [last] else before;
      assert entries == init + [last];
      KeptGrows(init, before, HasId(), last, entries, present);
      if last.Some? { IdsGrow(before, IdsOf(init), last.value); }
    }
  }

  lemma FirstIdsExactly(entries: seq<Option<Text>>, k: int)
    ensures FirstIds(entries, k, SliceTo(IdsOf(entries), k))
  {
    var present := IdsExactly(entries);
    assert IdsAre(SliceTo(present, k), SliceTo(IdsOf(entries), k));
  }

  lemma DeltaExactly(a: seq<Text>, b: seq<Text>, x: Text)
    requires x in a && x in b
    ensures Places(a, b, x, Rank(a, x), Rank(b, x))
    ensures forall p: nat, q: nat :: Places(a, b, x, p, q) ==> p == Rank(a, x) && q == Rank(b, x)
  {
    RankIsLast(a, x);
    RankIsLast(b, x);
  }

  function MoveOf(a: seq<Text>, b: seq<Text>, x: Text): Moved {
    Moved(x, Rank(a, x) + 1, Rank(b, x) + 1, Delta(a, b, x))
  }

  lemma MoveExactly(a: seq<Text>, b: seq<Text>, x: Text)
    requires x in a && x in b
    ensures forall m: Moved :: m.id == x ==> (IsMove(a, b, m) <==> Delta(a, b, x) != 0 && m == MoveOf(a, b, x))
  {
    DeltaExactly(a, b, x);
  }

  lemma MovesAreCommon(a: seq<Text>, b: seq<Text>, m: Moved)
    requires IsMove(a, b, m)
    ensures m.id in a && m.id in b
  {
    var p: nat, q: nat :| Places(a, b, m.id, p, q);
  }

  lemma MovedAmongNext(a: seq<Text>, b: seq<Text>, ids: seq<Text>)
    requires ids != []
    ensures var before, x := MovedAmong(a, b, ids[..|ids| - 1]), ids[|ids| - 1];
            MovedAmong(a, b, ids) == if Delta(a, b, x) == 0 then before else before + [MoveOf(a, b, x)]
  {
  }

  lemma {:induction false} MovedAmongExactly(a: seq<Text>, b: seq<Text>, ids: seq<Text>)
    ensures forall m :: m in MovedAmong(a, b, ids) <==>
              m.id in ids && Delta(a, b, m.id) != 0 && m == MoveOf(a, b, m.id)
    ensures Distinct(ids) ==> Distinct(MovedAmong(a, b, ids))
  {
    if ids != [] {
      var init, x := ids[..|ids| - 1], ids[|ids| - 1];
      assert ids == init + [x];
      MovedAmongExactly(a, b, init);
      MovedAmongNext(a, b, ids);
    }
  }

  /** Displacements keep the order of the ids they belong to. */
  lemma {:induction false} MovedAmongOrder(a: seq<Text>, b: seq<Text>, ids: seq<Text>)
    requires forall i, j :: 0 <= i < j < |ids| ==> Abs(Delta(a, b, ids[j])) <= Abs(Delta(a, b, ids[i]))
    ensures LargestFirst(MovedAmong(a, b, ids))
  {
    if ids != [] {
      var init, x := ids[..|ids| - 1], ids[|ids| - 1];
      MovedAmongOrder(a, b, init);
      MovedAmongNext(a, b, ids);
      MovedAmongExactly(a, b, init);
      var before := MovedAmong(a, b, init);
      forall i | 0 <= i < |before| ensures Abs(Delta(a, b, x)) <= Abs(before[i].delta) {
        assert before[i] in before;
        var p :| 0 <= p < |init| && init[p] == before[i].id;
        assert ids[p] == init[p];
      }
    }
  }

  lemma MovedDocsExactly(a: seq<Text>, b: seq<Text>, scan: seq<Text>)
    requires Distinct(scan) && forall x :: x in scan <==> x in a && x in b
    ensures MovedExplained(a, b, MovedDocs(a, b, scan)) && LargestFirst(MovedDocs(a, b, scan))
  {
    var sorted := StableSort(scan, Farther(a, b));
    StableSortElements(scan, Farther(a, b));
    forall i, j | 0 <= i < j < |sorted| ensures Abs(Delta(a, b, sorted[j])) <= Abs(Delta(a, b, sorted[i])) {
      StableSortAscends(scan, Farther(a, b), i, j);
      assert !Farther(a, b)(sorted[j], sorted[i]);
    }
    MovedAmongOrder(a, b, sorted);
    MovedAmongExactly(a, b, sorted);
    forall m ensures m in MovedDocs(a, b, scan) <==> IsMove(a, b, m) {
      if IsMove(a, b, m) { MovesAreCommon(a, b, m); }
      if m.id in scan { MoveExactly(a, b, m.id); }
    }
  }

  lemma ChangesExactly(a: seq<Text>, b: seq<Text>, x: Text)
    requires x in a && x in b
    ensures ChangesRank(a, b)(x) <==> Delta(a, b, x) != 0
  {
    DeltaExactly(a, b, x);
  }

  lemma {:induction false} ChangedExactly(a: seq<Text>, b: seq<Text>, ids: seq<Text>) returns (changed: seq<Text>)
    requires forall x :: x in ids ==> x in a && x in b
    ensures IsKept(ids, changed, ChangesRank(a, b)) && |changed| == Changed(a, b, ids)
  {
    if ids == [] {
      KeptNone(ChangesRank(a, b));
      changed := [];
    } else {
      var init, x := ids[..|ids| - 1], ids[|ids| - 1];
      assert ids == init + [x];
      changed := ChangedExactly(a, b, init);
      ChangesExactly(a, b, x);
      KeptLast(init, changed, ChangesRank(a, b), x);
      changed := if Delta(a, b, x) == 0 then changed else changed + [x];
    }
  }

  lemma InstabilityExactly(a: seq<Text>, b: seq<Text>)
    ensures InstabilityExplained(a, b, Instability(a, b))
  {
    var common := Keep(a, Elements(b));
    KeepExactly(a, b);
    KeepMembers(a, Elements(b));
    var changed := ChangedExactly(a, b, common);
    if common != [] {
      QuotientIs(|changed| as real, |common| as real);
    }
  }

  lemma ListsExactly(p: Pair, a: seq<Text>, b: seq<Text>, k: int, scan: seq<Text>)
    ensures ListsExplained(DiffOfLists(p, a, b, OverlapAtK(a, b), Tau(a, b), k, scan), k)
  {
    TauExactly(a, b);
    InstabilityExactly(a, b);
    KeepExactly(a, b);
    KeepExactly(b, a);
    JaccardExactly(a, b);
    if k != 0 {
      QuotientIs(OverlapAtK(a, b) as real, k as real);
    }
  }

  lemma ReasonsExactly(few: bool, unlike: bool, baseline: bool, shadow: bool)
    ensures Reasons((if few then [LowOverlap] else []) + (if unlike then [LowTau] else [])
                    + ((if baseline then [BaselineQueryError] else []) + (if shadow then [ShadowQueryError] else [])),
                    few, unlike, baseline, shadow)
  {
  }

  lemma RestOf(x: Flag, s: seq<Flag>, t: seq<Flag>)
    ensures [x] + s + t != [] && ([x] + s + t)[0] == x && ([x] + s + t)[1..] == s + t
  {
  }

  lemma RiskExactly(p: Pair, overlap: nat, tau: Option<real>, k: int)
    ensures RiskExplained(p, k, overlap, tau, SeverityWithErrors(p, SeverityOf(overlap, tau, k)),
                          FlagsOf(overlap, tau, k) + ErrorFlags(p))
  {
    ReasonsExactly(5 * overlap < 3 * k, tau.Some? && tau.value < 0.2, p.baseline.failed, p.shadow.failed);
    RestOf(Is(SeverityOf(overlap, tau, k)), ListFlags(overlap, tau, k), ErrorFlags(p));
  }

  lemma DiffExactly(p: Pair, k: int, scan: set<Text> -> seq<Text>)
    requires Scans(scan)
    ensures DiffExplained(p, k, DiffOf(p, k, scan))
  {
    var a, b := SliceTo(IdsOf(p.baseline.ids), k), SliceTo(IdsOf(p.shadow.ids), k);
    FirstIdsExactly(p.baseline.ids, k);
    FirstIdsExactly(p.shadow.ids, k);
    MovedDocsExactly(a, b, scan(Scanned(a, b)));
    ListsExactly(p, a, b, k, scan(Scanned(a, b)));
    RiskExactly(p, OverlapAtK(a, b), Tau(a, b), k);
  }

  function SeverityRank(s: Severity): int {
    match s
    case High => 0
    case Medium => 1
    case Low => 2
  }

  /** By severity, then overlap, then tau, a missing tau counting as 1.0. */
  predicate Riskier(x: Diff, y: Diff) {
    var t, u := if x.tau.None? then 1.0 else x.tau.value, if y.tau.None? then 1.0 else y.tau.value;
    || SeverityRank(x.severity) < SeverityRank(y.severity)
    || (x.severity == y.severity && (x.overlap < y.overlap || (x.overlap == y.overlap && t < u)))
  }

  function RankDiffs(diffs: seq<Diff>): seq<Diff> {
    StableSort(diffs, Riskier)
  }

  /** x may stand before y: not less severe; of the same severity, no more in common; and of the same overlap, no
      larger tau, a missing one counting as 1.0; ties keep their order. */
  predicate InRiskOrder(x: Diff, y: Diff, earlier: bool) {
    && (y.severity.High? ==> x.severity.High?) && (x.severity.Low? ==> y.severity.Low?)
    && (x.severity == y.severity ==> x.overlap <= y.overlap)
    && (x.severity == y.severity && x.overlap == y.overlap ==> TauAtMost(x.tau, y.tau))
    && (x.severity == y.severity && x.overlap == y.overlap && TauAtMost(y.tau, x.tau) ==> earlier)
  }

  predicate TauAtMost(t: Option<real>, u: Option<real>) {
    match (t, u)
    case (Some(x), Some(y)) => x <= y
    case (Some(x), None) => x <= 1.0
    case (None, Some(y)) => 1.0 <= y
    case (None, None) => true
  }

  lemma RiskierIsOrder()
    ensures StrictWeakOrder(Riskier)
  {
  }

  lemma RiskOrderExactly(x: Diff, y: Diff, earlier: bool)
    requires Riskier(x, y) || (!Riskier(y, x) && earlier)
    ensures InRiskOrder(x, y, earlier)
  {
  }

  lemma RankingExactly(diffs: seq<Diff>)
    ensures Arranges(RankDiffs(diffs), diffs, InRiskOrder)
  {
    RiskierIsOrder();
    forall x: Diff, y: Diff, earlier | Riskier(x, y) || (!Riskier(y, x) && earlier)
      ensures InRiskOrder(x, y, earlier)
    {
      RiskOrderExactly(x, y, earlier);
    }
    SortArranges(diffs, Riskier, InRiskOrder);
  }

  /** The severity and flags, adjusted for failed queries as the source does it. */
  method RiskFor(p: Pair, overlap: nat, tau: Option<real>, k: int) returns (severity: Severity, flags: seq<Flag>)
    ensures severity == SeverityWithErrors(p, SeverityOf(overlap, tau, k))
            && flags == FlagsOf(overlap, tau, k) + ErrorFlags(p)
  {
    severity, flags := SeverityOf(overlap, tau, k), FlagsOf(overlap, tau, k);
    if p.baseline.failed || p.shadow.failed {
      severity := High;
      if p.baseline.failed { flags := flags + [BaselineQueryError]; }
      if p.shadow.failed { flags := flags + [ShadowQueryError]; }
    }
  }

  predicate FailedPair(p: Pair) {
    p.baseline.failed || p.shadow.failed
  }

  method ComparePair(p: Pair, k: int, scan: set<Text> -> seq<Text>) returns (d: Diff)
    ensures d == DiffOf(p, k, scan)
    ensures RiskExplained(p, k, d.overlap, d.tau, d.severity, d.flags)
  {
    var a, b := SliceTo(IdsOf(p.baseline.ids), k), SliceTo(IdsOf(p.shadow.ids), k);
    var tau := KendallTauAtK(a, b);
    var overlap := OverlapAtK(a, b);
    var severity, flags := RiskFor(p, overlap, tau, k);
    RiskExactly(p, overlap, tau, k);
    d := Diff(p.queryId, a, b, overlap, OverlapRatio(overlap, k), JaccardAtK(a, b), tau, Instability(a, b),
              MovedDocs(a, b, scan(Scanned(a, b))),
              Discard(a, Elements(b)), Discard(b, Elements(a)), severity, flags);
  }

  // ----- the summary -----

  function SumOver(diffs: seq<Diff>, f: Diff -> real): real {
    if diffs == [] then 0.0 else SumOver(diffs[..|diffs| - 1], f) + f(diffs[|diffs| - 1])
  }

  function Average(diffs: seq<Diff>, f: Diff -> real): real {
    if diffs == [] then 0.0 else SumOver(diffs, f) / |diffs| as real
  }

  function OverlapOf(d: Diff): real { d.overlap as real }

  function RatioOf(d: Diff): real { d.overlapRatio }

  function InstabilityOf(d: Diff): real { d.instability }

  datatype Summary = Summary(
    total: nat,
    avgOverlap: real,
    avgOverlapRatio: real,
    avgInstability: real,
    highPercent: real,
    mediumPercent: real)

  ghost function WithSeverity(diffs: seq<Diff>, severity: Severity): set<nat> {
    set i: nat | i < |diffs| && diffs[i].severity == severity
  }

  lemma {:induction false} CountsDiffs(diffs: seq<Diff>, severity: Severity)
    ensures CountOf(diffs, severity) == |WithSeverity(diffs, severity)|
  {
    if diffs == [] {
      assert WithSeverity(diffs, severity) == {};
    } else {
      var k := |diffs| - 1;
      CountsDiffs(diffs[..k], severity);
      assert WithSeverity(diffs, severity) ==
             WithSeverity(diffs[..k], severity) + if diffs[k].severity == severity then {k} else {};
    }
  }

  /** The arithmetic mean; that of no values is 0. */
  ghost predicate IsMean(q: real, values: seq<real>) {
    if values == [] then q == 0.0 else IsQuotient(q, Sum(values), |values| as real)
  }

  ghost function Overlaps(diffs: seq<Diff>): seq<real> {
    seq(|diffs|, i requires 0 <= i < |diffs| => diffs[i].overlap as real)
  }

  ghost function OverlapRatios(diffs: seq<Diff>): seq<real> {
    seq(|diffs|, i requires 0 <= i < |diffs| => diffs[i].overlapRatio)
  }

  ghost function Instabilities(diffs: seq<Diff>): seq<real> {
    seq(|diffs|, i requires 0 <= i < |diffs| => diffs[i].instability)
  }

  ghost predicate SummaryExplained(diffs: seq<Diff>, summary: Summary) {
    && summary.total == |diffs|
    && IsPercent(summary.highPercent, |WithSeverity(diffs, High)|, |diffs|)
    && IsPercent(summary.mediumPercent, |WithSeverity(diffs, Medium)|, |diffs|)
    && IsMean(summary.avgOverlap, Overlaps(diffs)) && IsMean(summary.avgOverlapRatio, OverlapRatios(diffs))
    && IsMean(summary.avgInstability, Instabilities(diffs))
  }

  lemma {:induction false} SumOfValues(diffs: seq<Diff>, f: Diff -> real, values: seq<real>)
    requires |values| == |diffs| && forall i :: 0 <= i < |diffs| ==> values[i] == f(diffs[i])
    ensures SumOver(diffs, f) == Sum(values)
  {
    if diffs != [] {
      var k := |diffs| - 1;
      SumOfValues(diffs[..k], f, values[..k]);
      assert values == values[..k] + [values[k]];
      SumLast(values[..k], values[k]);
    }
  }

  lemma AverageExactly(diffs: seq<Diff>, f: Diff -> real, values: seq<real>)
    requires |values| == |diffs| && forall i :: 0 <= i < |diffs| ==> values[i] == f(diffs[i])
    ensures IsMean(Average(diffs, f), values)
  {
    SumOfValues(diffs, f, values);
    if diffs != [] {
      QuotientIs(SumOver(diffs, f), |diffs| as real);
    }
  }

  lemma SharesExactly(diffs: seq<Diff>)
    ensures IsPercent(Percent(CountOf(diffs, High), |diffs|), |WithSeverity(diffs, High)|, |diffs|)
    ensures IsPercent(Percent(CountOf(diffs, Medium), |diffs|), |WithSeverity(diffs, Medium)|, |diffs|)
  {
    CountsDiffs(diffs, High);
    CountsDiffs(diffs, Medium);
    PercentExactly(CountOf(diffs, High), |diffs|);
    PercentExactly(CountOf(diffs, Medium), |diffs|);
  }

  method CountRisks(diffs: seq<Diff>) returns (high: nat, medium: nat)
    ensures high == CountOf(diffs, High) && medium == CountOf(diffs, Medium)
  {
    high, medium := 0, 0;
    for i := 0 to |diffs|
      invariant high == CountOf(diffs[..i], High) && medium == CountOf(diffs[..i], Medium)
    {
      TakeOneMore(diffs, i);
      if diffs[i].severity.High? { high := high + 1; }
      if diffs[i].severity.Medium? { medium := medium + 1; }
    }
    TakeAll(diffs);
  }

  method Summarize(diffs: seq<Diff>) returns (summary: Summary)
    ensures SummaryExplained(diffs, summary)
  {
    var high, medium := CountRisks(diffs);
    SharesExactly(diffs);
    AverageExactly(diffs, OverlapOf, Overlaps(diffs));
    AverageExactly(diffs, RatioOf, OverlapRatios(diffs));
    AverageExactly(diffs, InstabilityOf, Instabilities(diffs));
    summary := Summary(|diffs|, Average(diffs, OverlapOf), Average(diffs, RatioOf), Average(diffs, InstabilityOf),
                       Percent(high, |diffs|), Percent(medium, |diffs|));
  }

  /** The first 20 of a ranking by risk. */
  ghost predicate TopExplained(diffs: seq<Diff>, top: seq<Diff>) {
    exists ranked :: Arranges(ranked, diffs, InRiskOrder) && top == SliceTo(ranked, 20)
  }

  /** Every pair has its diff. */
  ghost predicate DiffsExplained(pairs: seq<Pair>, k: int, diffs: seq<Diff>) {
    |diffs| == |pairs| && forall i :: 0 <= i < |pairs| ==> DiffExplained(pairs[i], k, diffs[i])
  }

  /** compare_replay; `scan` gives the order in which a set of ids iterates. */
  method CompareReplay(pairs: seq<Pair>, k: int, scan: set<Text> -> seq<Text>)
    returns (diffs: seq<Diff>, summary: Summary, topRegressions: seq<Diff>)
    ensures diffs == DiffsOf(pairs, k, scan)
    ensures Scans(scan) ==> DiffsExplained(pairs, k, diffs)
    ensures SummaryExplained(diffs, summary) && TopExplained(diffs, topRegressions)
  {
    diffs := [];
    for i := 0 to |pairs|
      invariant |diffs| == i && diffs == DiffsOf(pairs[..i], k, scan)
    {
      var d := ComparePair(pairs[i], k, scan);
      MapOneMore(pairs, DiffWith(k, scan), i);
      diffs := diffs + [d];
    }
    TakeAll(pairs);
    DiffsExactly(pairs, k, scan);
    summary := Summarize(diffs);
    RankingExactly(diffs);
    topRegressions := SliceTo(RankDiffs(diffs), 20);
  }

  lemma DiffsExactly(pairs: seq<Pair>, k: int, scan: set<Text> -> seq<Text>)
    ensures Scans(scan) ==> DiffsExplained(pairs, k, DiffsOf(pairs, k, scan))
  {
    if Scans(scan) {
      var diffs := DiffsOf(pairs, k, scan);
      forall i | 0 <= i < |pairs| ensures DiffExplained(pairs[i], k, diffs[i]) {
        DiffExactly(pairs[i], k, scan);
      }
    }
  }

  /** Every diff is HIGH, MEDIUM or LOW. */
  lemma {:induction false} SeveritiesPartition(diffs: seq<Diff>)
    ensures CountOf(diffs, High) + CountOf(diffs, Medium) + CountOf(diffs, Low) == |diffs|
  {
    if diffs != [] {
      SeveritiesPartition(diffs[..|diffs| - 1]);
    }
  }

  /** The three percentages add up to 100. */
  lemma PercentagesAddUp(diffs: seq<Diff>, n: real)
    requires diffs != [] && n == |diffs| as real
    ensures Percent(CountOf(diffs, High), |diffs|) + Percent(CountOf(diffs, Medium), |diffs|)
            + Percent(CountOf(diffs, Low), |diffs|) == 100.0
  {
    SeveritiesPartition(diffs);
    ThreeShares(CountOf(diffs, High) as real, CountOf(diffs, Medium) as real, CountOf(diffs, Low) as real, n);
  }

  lemma ThreeShares(x: real, y: real, z: real, n: real)
    requires n > 0.0 && x + y + z == n
    ensures x / n * 100.0 + y / n * 100.0 + z / n * 100.0 == 100.0
  {
    var p, q, r := x / n, y / n, z / n;
    TimesBack(x, n);
    TimesBack(y, n);
    TimesBack(z, n);
    Distribute(n, p, q);
    Distribute(n, p + q, r);
    ScaleOrder(n, p + q + r, 1.0);
    ScaleOrder(n, 1.0, p + q + r);
  }

  /** y is x in units of c. */
  ghost predicate InUnitsOf(y: real, c: real, x: real) {
    y * c == x
  }

  /** The average overlap ratio is the average overlap in units of k. */
  lemma AverageRatioScales(pairs: seq<Pair>, k: int, scan: set<Text> -> seq<Text>)
    requires k != 0
    ensures var diffs := DiffsOf(pairs, k, scan);
            InUnitsOf(Average(diffs, RatioOf), k as real, Average(diffs, OverlapOf))
  {
    var diffs := DiffsOf(pairs, k, scan);
    forall i | 0 <= i < |diffs| ensures diffs[i].overlapRatio == OverlapRatio(diffs[i].overlap, k) {
      assert diffs[i] == DiffOf(pairs[i], k, scan);
    }
    RatioSumScales(diffs, k, k as real);
    if diffs != [] {
      QuotientInUnits(SumOver(diffs, RatioOf), k as real, SumOver(diffs, OverlapOf), |diffs| as real);
    }
  }

  lemma QuotientInUnits(y: real, c: real, x: real, n: real)
    requires n != 0.0 && InUnitsOf(y, c, x)
    ensures InUnitsOf(y / n, c, x / n)
  {
    var q := y / n;
    TimesBack(y, n);
    Regroup(q, c, n);
    Regroup(q, n, c);
    DivideBack(x, n, q * c);
  }

  lemma {:induction false} RatioSumScales(diffs: seq<Diff>, k: int, c: real)
    requires k != 0 && c == k as real
    requires forall i :: 0 <= i < |diffs| ==> diffs[i].overlapRatio == OverlapRatio(diffs[i].overlap, k)
    ensures InUnitsOf(SumOver(diffs, RatioOf), c, SumOver(diffs, OverlapOf))
  {
    if diffs != [] {
      var init, d := diffs[..|diffs| - 1], diffs[|diffs| - 1];
      RatioSumScales(init, k, c);
      OneMoreRatio(SumOver(init, RatioOf), c, SumOver(init, OverlapOf), d.overlapRatio, d.overlap as real,
                   SumOver(diffs, RatioOf), SumOver(diffs, OverlapOf));
    }
  }

  lemma OneMoreRatio(t: real, c: real, s: real, ratio: real, overlap: real, t': real, s': real)
    requires c != 0.0 && InUnitsOf(t, c, s) && ratio == overlap / c && t' == t + ratio && s' == s + overlap
    ensures InUnitsOf(t', c, s')
  {
    TimesBack(overlap, c);
    Distribute(c, t, ratio);
  }

  // ----- conservation -----

  lemma {:induction false} KeepOrDiscard(ids: seq<Text>, s: set<Text>)
    ensures multiset(ids) == multiset(Keep(ids, s)) + multiset(Discard(ids, s))
  {
    if ids != [] {
      var init, last := ids[..|ids| - 1], ids[|ids| - 1];
      KeepOrDiscard(init, s);
      assert ids == init + [last];
      if last in s {
        MultisetMoves(multiset(init), multiset(Keep(init, s)), multiset(Discard(init, s)), last);
      }
    }
  }

  lemma MultisetMoves(all: multiset<Text>, left: multiset<Text>, right: multiset<Text>, x: Text)
    requires all == left + right
    ensures all + multiset{x} == (left + multiset{x}) + right
  {
  }

  /** Each list is its common part plus what only it has, and the common part has `overlap` members. */
  lemma ListsSplit(a: seq<Text>, b: seq<Text>)
    requires Distinct(a) && Distinct(b)
    ensures multiset(a) == multiset(Common(a, b)) + multiset(Discard(a, Elements(b)))
    ensures multiset(b) == multiset(Common(a, b)) + multiset(Discard(b, Elements(a)))
    ensures |Common(a, b)| == OverlapAtK(a, b)
    ensures |a| == OverlapAtK(a, b) + |Discard(a, Elements(b))| && |b| == OverlapAtK(a, b) + |Discard(b, Elements(a))|
  {
    KeepOrDiscard(a, Elements(b));
    KeepOrDiscard(b, Elements(a));
    CommonIsOverlap(a, b);
    CommonIsOverlap(b, a);
    DistinctSameMultiset(Common(a, b), Common(b, a));
    assert |a| == |multiset(a)| && |b| == |multiset(b)|;
  }

  lemma {:induction false} MovedAreChanged(a: seq<Text>, b: seq<Text>, ids: seq<Text>)
    ensures |MovedAmong(a, b, ids)| == Changed(a, b, ids)
    ensures forall m :: m in MovedAmong(a, b, ids) ==>
              m.id in ids && m.delta == Delta(a, b, m.id) != 0 && m.rankShadow - m.rankBaseline == m.delta
  {
    if ids != [] {
      MovedAreChanged(a, b, ids[..|ids| - 1]);
    }
  }

  predicate HasMoved(a: seq<Text>, b: seq<Text>, x: Text) {
    Delta(a, b, x) != 0
  }

  ghost function ChangedIds(a: seq<Text>, b: seq<Text>, ids: seq<Text>): set<Text> {
    set x | x in ids && HasMoved(a, b, x)
  }

  lemma {:induction false} ChangedIsCardinality(a: seq<Text>, b: seq<Text>, ids: seq<Text>)
    requires Distinct(ids)
    ensures Changed(a, b, ids) == |ChangedIds(a, b, ids)|
  {
    if ids == [] {
      assert ChangedIds(a, b, ids) == {};
    } else {
      var init, last := ids[..|ids| - 1], ids[|ids| - 1];
      ChangedIsCardinality(a, b, init);
      assert last !in init;
      OneMoreChanged(a, b, init, last);
      assert ids == init + [last];
    }
  }

  lemma OneMoreChanged(a: seq<Text>, b: seq<Text>, ids: seq<Text>, x: Text)
    requires x !in ids
    ensures |ChangedIds(a, b, ids + [x])| == |ChangedIds(a, b, ids)| + if HasMoved(a, b, x) then 1 else 0
  {
    assert ChangedIds(a, b, ids + [x]) == ChangedIds(a, b, ids) + (if HasMoved(a, b, x) then {x} else {});
  }

  /** How many of the ids have moved depends on the set of ids only. */
  lemma ChangedByMembers(a: seq<Text>, b: seq<Text>, s: seq<Text>, t: seq<Text>)
    requires Distinct(s) && Distinct(t) && forall x :: x in s <==> x in t
    ensures Changed(a, b, s) == Changed(a, b, t)
  {
    ChangedIsCardinality(a, b, s);
    ChangedIsCardinality(a, b, t);
    assert ChangedIds(a, b, s) == ChangedIds(a, b, t);
  }

  lemma MovedDocsCount(a: seq<Text>, b: seq<Text>, scan: seq<Text>)
    requires Distinct(a) && Distinct(scan) && forall x :: x in scan <==> x in a && x in b
    ensures Changed(a, b, Common(a, b)) == |MovedDocs(a, b, scan)|
  {
    var sorted := StableSort(scan, Farther(a, b));
    StableSortElements(scan, Farther(a, b));
    CommonIsOverlap(a, b);
    MovedAreChanged(a, b, sorted);
    ChangedByMembers(a, b, sorted, Common(a, b));
  }

  /** The instability ratio is the share of the common ids that are listed as moved. */
  lemma InstabilityIsMovedShare(a: seq<Text>, b: seq<Text>, scan: seq<Text>)
    requires Distinct(a) && Distinct(scan) && forall x :: x in scan <==> x in a && x in b
    ensures var moved := |MovedDocs(a, b, scan)|;
            Instability(a, b) == if OverlapAtK(a, b) == 0 then 0.0 else moved as real / OverlapAtK(a, b) as real
    ensures |MovedDocs(a, b, scan)| <= OverlapAtK(a, b)
  {
    MovedDocsCount(a, b, scan);
    CommonIsOverlap(a, b);
    ChangedAtMostAll(a, b, Common(a, b));
  }

  lemma {:induction false} ChangedAtMostAll(a: seq<Text>, b: seq<Text>, ids: seq<Text>)
    ensures Changed(a, b, ids) <= |ids|
  {
    if ids != [] {
      ChangedAtMostAll(a, b, ids[..|ids| - 1]);
    }
  }

  // ----- displacements cancel -----

  function IntSum(xs: seq<int>): int {
    if xs == [] then 0 else IntSum(xs[..|xs| - 1]) + xs[|xs| - 1]
  }

  lemma {:induction false} IntSumWithout(xs: seq<int>, i: nat)
    requires i < |xs|
    ensures IntSum(xs) == IntSum(Without(xs, i)) + xs[i]
  {
    if i == |xs| - 1 {
      assert Without(xs, i) == xs[..i];
    } else {
      var init := xs[..|xs| - 1];
      IntSumWithout(init, i);
      assert Without(xs, i)[..|xs| - 2] == Without(init, i);
      assert Without(xs, i)[|xs| - 2] == xs[|xs| - 1];
    }
  }

  lemma {:induction false} IntSumPermutes(xs: seq<int>, ys: seq<int>)
    requires multiset(xs) == multiset(ys)
    ensures IntSum(xs) == IntSum(ys)
  {
    assert |xs| == |multiset(xs)| && |ys| == |multiset(ys)|;
    if xs != [] {
      assert xs[0] in multiset(ys);
      var j :| 0 <= j < |ys| && ys[j] == xs[0];
      SameWithout(xs, 0, ys, j);
      IntSumWithout(xs, 0);
      IntSumWithout(ys, j);
      IntSumPermutes(Without(xs, 0), Without(ys, j));
    }
  }

  function RankIn(a: seq<Text>): Text -> int {
    x => Rank(a, x)
  }

  /** The ranks of a duplicate-free list are 0, 1, 2, ... */
  lemma {:induction false} RanksSum(a: seq<Text>, n: nat)
    requires Distinct(a) && n <= |a|
    ensures IntSum(MapSeq(a[..n], RankIn(a))) == Triangle(n)
  {
    if n > 0 {
      RanksSum(a, n - 1);
      RankOfElement(a, n - 1);
      assert MapSeq(a[..n], RankIn(a))[..n - 1] == MapSeq(a[..n - 1], RankIn(a));
    }
  }

  function DeltaSum(moved: seq<Moved>): int {
    if moved == [] then 0 else DeltaSum(moved[..|moved| - 1]) + moved[|moved| - 1].delta
  }

  lemma MappedSum<T>(ids: seq<T>, f: T -> int)
    requires ids != []
    ensures IntSum(MapSeq(ids, f)) == IntSum(MapSeq(ids[..|ids| - 1], f)) + f(ids[|ids| - 1])
  {
    assert MapSeq(ids, f)[..|ids| - 1] == MapSeq(ids[..|ids| - 1], f);
  }

  lemma DeltaSumAppend(moved: seq<Moved>, m: Moved)
    ensures DeltaSum(moved + [m]) == DeltaSum(moved) + m.delta
  {
    assert (moved + [m])[..|moved|] == moved;
  }

  lemma {:induction false} DeltaSumIsRankShift(a: seq<Text>, b: seq<Text>, ids: seq<Text>)
    ensures DeltaSum(MovedAmong(a, b, ids)) == IntSum(MapSeq(ids, RankIn(b))) - IntSum(MapSeq(ids, RankIn(a)))
  {
    if ids == [] {
      assert MapSeq(ids, RankIn(a)) == [] && MapSeq(ids, RankIn(b)) == [];
    } else {
      var init, x := ids[..|ids| - 1], ids[|ids| - 1];
      DeltaSumIsRankShift(a, b, init);
      MappedSum(ids, RankIn(a));
      MappedSum(ids, RankIn(b));
      if Delta(a, b, x) == 0 {
        assert MovedAmong(a, b, ids) == MovedAmong(a, b, init);
      }
      DeltaSumAppend(MovedAmong(a, b, init), Moved(x, Rank(a, x) + 1, Rank(b, x) + 1, Delta(a, b, x)));
    }
  }

  /** When both lists hold the same documents, the displacements cancel out. */
  lemma DeltasCancel(a: seq<Text>, b: seq<Text>, scan: seq<Text>)
    requires Distinct(a) && Distinct(b) && (forall x :: x in a <==> x in b) && Distinct(scan)
             && forall x :: x in scan <==> x in a
    ensures DeltaSum(MovedDocs(a, b, scan)) == 0
  {
    var sorted := StableSort(scan, Farther(a, b));
    StableSortElements(scan, Farther(a, b));
    DistinctSameMultiset(sorted, a);
    DistinctSameMultiset(sorted, b);
    assert |sorted| == |multiset(sorted)| && |a| == |multiset(a)| && |b| == |multiset(b)|;
    MapOfPermutation(sorted, a, RankIn(a));
    MapOfPermutation(sorted, b, RankIn(b));
    IntSumPermutes(MapSeq(sorted, RankIn(a)), MapSeq(a, RankIn(a)));
    IntSumPermutes(MapSeq(sorted, RankIn(b)), MapSeq(b, RankIn(b)));
    RanksSum(a, |a|);
    RanksSum(b, |b|);
    TakeAll(a);
    TakeAll(b);
    DeltaSumIsRankShift(a, b, sorted);
  }

  // ----- severity -----

  /** LOW needs four fifths of the list in common and a known tau of at least 0.2. */
  lemma LowExactly(overlap: nat, tau: Option<real>, k: int)
    ensures SeverityOf(overlap, tau, k).Low? <==> 5 * overlap >= 4 * k && tau.Some? && tau.value >= 0.2
    ensures SeverityOf(overlap, tau, k).High? <==> 5 * overlap < 3 * k || tau.None? || tau.value < 0.2
  {
  }

  /** The first flag repeats the severity except when a failed query turned MEDIUM or LOW lists into HIGH. */
  lemma FirstFlagExactly(p: Pair, k: int, scan: set<Text> -> seq<Text>)
    ensures var d := DiffOf(p, k, scan);
            && d.flags != []
            && (FailedPair(p) ==> d.severity.High?)
            && (d.flags[0] == Is(d.severity) <==>
                !FailedPair(p) || 5 * d.overlap < 3 * k || d.tau.None? || d.tau.value < 0.2)
  {
    var d := DiffOf(p, k, scan);
    assert d.flags[0] == FlagsOf(d.overlap, d.tau, k)[0] == Is(SeverityOf(d.overlap, d.tau, k));
  }

  /** A list compared with itself is LOW only from two documents on, and only if it fills four fifths of k. */
  lemma SelfComparison(a: seq<Text>, k: int)
    requires Distinct(a)
    ensures SeverityOf(OverlapAtK(a, a), Tau(a, a), k).Low? <==> |a| >= 2 && 5 * |a| >= 4 * k
    ensures |a| == 1 ==> SeverityOf(OverlapAtK(a, a), Tau(a, a), 1).High?
  {
    CommonIsOverlap(a, a);
    ListsSplit(a, a);
    NothingDiscarded(a, Elements(a));
    if |a| >= 2 {
      TauOneIffOrderKept(a, a);
    }
    LowExactly(OverlapAtK(a, a), Tau(a, a), k);
  }

  lemma {:induction false} NothingDiscarded(ids: seq<Text>, s: set<Text>)
    requires forall x :: x in ids ==> x in s
    ensures Discard(ids, s) == []
  {
    if ids != [] {
      NothingDiscarded(ids[..|ids| - 1], s);
    }
  }
}
