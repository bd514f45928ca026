/** Per-segment aggregation of the replay diffs. */
module Segments {
  import opened Prelude
  import opened Sorting
  import opened Stats

  datatype Diff = Diff(segment: map<string, string>, isHigh: bool, overlapRatio: real)

  datatype Bucket = Bucket(key: string, value: string, total: nat, high: nat, overlap: real)

  function Label(key: string, value: string): string {
    key + ":" + value
  }

  /** A diff without any segment is filed under segment:unlabeled. */
  function SegmentOf(d: Diff): map<string, string> {
    if d.segment == map[] then map["segment" := "unlabeled"] else d.segment
  }

  predicate Carries(d: Diff, key: string) {
    key in SegmentOf(d)
  }

  function Times(keys: seq<string>, key: string): nat {
    if keys == [] then 0 else Times(keys[..|keys| - 1], key) + if keys[|keys| - 1] == key then 1 else 0
  }

  /** Different keys for which some values give the same label. */
  predicate Clash(k: string, k': string) {
    k != k' && (k + ":" <= k' || k' + ":" <= k)
  }

  /** The key is asked for once, and no other key shares labels with it. */
  predicate AloneIn(keys: seq<string>, key: string) {
    Times(keys, key) == 1 && forall k :: k in keys ==> !Clash(k, key)
  }

  // ----- filling the buckets -----

  function Find(buckets: seq<Bucket>, tag: string): (i: nat)
    ensures i <= |buckets|
    ensures i < |buckets| ==> Label(buckets[i].key, buckets[i].value) == tag
    ensures forall j :: 0 <= j < i ==> Label(buckets[j].key, buckets[j].value) != tag
  {
    if buckets == [] then 0
    else if Label(buckets[0].key, buckets[0].value) == tag then 0
    else 1 + Find(buckets[1..], tag)
  }

  function Counted(b: Bucket, d: Diff): Bucket {
    b.(total := b.total + 1, high := b.high + (if d.isHigh then 1 else 0), overlap := b.overlap + d.overlapRatio)
  }

  /** The buckets in the order in which they were created, one per label. */
  function Filed(buckets: seq<Bucket>, d: Diff, key: string): seq<Bucket> {
    if !Carries(d, key) then buckets
    else
      var value := SegmentOf(d)[key];
      var i := Find(buckets, Label(key, value));
      if i < |buckets| then buckets[i := Counted(buckets[i], d)]
      else buckets + [Counted(Bucket(key, value, 0, 0, 0.0), d)]
  }

  function FiledUnder(buckets: seq<Bucket>, d: Diff, keys: seq<string>): seq<Bucket> {
    if keys == [] then buckets else Filed(FiledUnder(buckets, d, keys[..|keys| - 1]), d, keys[|keys| - 1])
  }

  function AllFiled(diffs: seq<Diff>, keys: seq<string>): seq<Bucket> {
    if diffs == [] then [] else FiledUnder(AllFiled(diffs[..|diffs| - 1], keys), diffs[|diffs| - 1], keys)
  }

  datatype Row = Row(key: string, value: string, total: nat, high: nat, highPercent: real, avgOverlap: real)

  function RowOf(b: Bucket): Row {
    if b.total == 0 then Row(b.key, b.value, 0, b.high, 0.0, 0.0)
    else Row(b.key, b.value, b.total, b.high, b.high as real / b.total as real * 100.0, b.overlap / b.total as real)
  }

  predicate Worse(a: Row, b: Row) {
    a.highPercent > b.highPercent || (a.highPercent == b.highPercent && a.avgOverlap < b.avgOverlap)
  }

  // ----- the report in terms of the diffs -----

  /** A diff met with a key it carries. */
  datatype Visit = Visit(diff: Diff, key: string)

  /** The diff has a value for the key; one without any segment has the value unlabeled for the key segment. */
  predicate HasKey(d: Diff, key: string) {
    key in d.segment || (d.segment == map[] && key == "segment")
  }

  function ValueOf(d: Diff, key: string): string {
    if key in d.segment then d.segment[key] else "unlabeled"
  }

  function CarriedBy(d: Diff): string -> bool {
    key => HasKey(d, key)
  }

  function VisitOf(d: Diff): string -> Visit {
    key => Visit(d, key)
  }

  function LabelOf(v: Visit): string {
    v.key + ":" + ValueOf(v.diff, v.key)
  }

  function LabelIs(tag: string): Visit -> bool {
    v => LabelOf(v) == tag
  }

  function VisitIsHigh(v: Visit): bool { v.diff.isHigh }

  function VisitRatio(v: Visit): real { v.diff.overlapRatio }

  /** The diffs in turn, each with the keys that it carries, in the order in which they are asked for. */
  ghost predicate AreVisits(diffs: seq<Diff>, keys: seq<string>, visits: seq<Visit>)
    decreases |diffs|, 1
  {
    if diffs == [] then visits == []
    else exists before, carried :: VisitsSplit(diffs, keys, visits, before, carried)
  }

  ghost predicate VisitsSplit(diffs: seq<Diff>, keys: seq<string>, visits: seq<Visit>, before: seq<Visit>,
                              carried: seq<string>)
    requires diffs != []
    decreases |diffs|, 0
  {
    var last := diffs[|diffs| - 1];
    && AreVisits(diffs[..|diffs| - 1], keys, before)
    && IsKept(keys, carried, CarriedBy(last)) && visits == before + MapSeq(carried, VisitOf(last))
  }

  /** One label's visits, opened by one with this key and value: how many, how many of HIGH diffs, and the sum of
      their overlap ratios. */
  ghost predicate Counts(visits: seq<Visit>, tag: string, key: string, value: string, total: nat, high: nat,
                         overlap: real)
  {
    exists mine, risky :: CountsMine(visits, tag, key, value, total, high, overlap, mine, risky)
  }

  ghost predicate CountsMine(visits: seq<Visit>, tag: string, key: string, value: string, total: nat, high: nat,
                             overlap: real, mine: seq<Visit>, risky: seq<Visit>)
  {
    && IsKept(visits, mine, LabelIs(tag)) && IsKept(mine, risky, VisitIsHigh)
    && mine != [] && key == mine[0].key && value == ValueOf(mine[0].diff, key)
    && total == |mine| && high == |risky| && overlap == Sum(MapSeq(mine, VisitRatio))
  }

  ghost predicate BucketExplained(b: Bucket, visits: seq<Visit>) {
    Counts(visits, BucketLabel(b), b.key, b.value, b.total, b.high, b.overlap)
  }

  function BucketLabel(b: Bucket): string { b.key + ":" + b.value }

  /** One bucket per label, in the order in which the labels turn up. */
  ghost predicate BucketsExplained(buckets: seq<Bucket>, visits: seq<Visit>) {
    && FirstOccurrences(MapSeq(visits, LabelOf), MapSeq(buckets, BucketLabel))
    && forall i :: 0 <= i < |buckets| ==> BucketExplained(buckets[i], visits)
  }

  /** The share of HIGH diffs and the mean overlap ratio of the visits with the row's label. */
  ghost predicate RowExplained(row: Row, visits: seq<Visit>) {
    exists overlap :: Counts(visits, RowLabel(row), row.key, row.value, row.total, row.high, overlap)
                      && IsPercent(row.highPercent, row.high, row.total)
                      && IsQuotient(row.avgOverlap, overlap, row.total as real)
  }

  function RowLabel(row: Row): string { row.key + ":" + row.value }

  ghost predicate RowsExplained(rows: seq<Row>, visits: seq<Visit>) {
    && FirstOccurrences(MapSeq(visits, LabelOf), MapSeq(rows, RowLabel))
    && forall i :: 0 <= i < |rows| ==> RowExplained(rows[i], visits)
  }

  ghost predicate ReportExplained(diffs: seq<Diff>, keys: seq<string>, rows: seq<Row>) {
    exists visits :: AreVisits(diffs, keys, visits) && RowsExplained(rows, visits)
  }

  /** Larger HIGH shares first, then smaller overlaps, then the order of the rows. */
  predicate InImpactOrder(x: Row, y: Row, earlier: bool) {
    && y.highPercent <= x.highPercent
    && (x.highPercent == y.highPercent ==> x.avgOverlap <= y.avgOverlap)
    && (x.highPercent == y.highPercent && x.avgOverlap == y.avgOverlap ==> earlier)
  }

  ghost predicate TopExplained(rows: seq<Row>, top: seq<Row>) {
    exists ranked :: Arranges(ranked, rows, InImpactOrder) && top == SliceTo(ranked, 20)
  }

  lemma TopExactly(rows: seq<Row>)
    ensures TopExplained(rows, SliceTo(StableSort(rows, Worse), 20))
  {
    SortArranges(rows, Worse, InImpactOrder);
  }

  lemma CarriesExactly(d: Diff, key: string)
    ensures Carries(d, key) <==> HasKey(d, key)
    ensures Carries(d, key) ==> Label(key, SegmentOf(d)[key]) == LabelOf(Visit(d, key))
                                && SegmentOf(d)[key] == ValueOf(d, key)
  {
    if d.segment == map[] { assert key !in d.segment; }
  }

  lemma RatiosLast(visits: seq<Visit>, v: Visit)
    ensures Sum(MapSeq(visits + [v], VisitRatio)) == Sum(MapSeq(visits, VisitRatio)) + v.diff.overlapRatio
  {
    SumLast(MapSeq(visits, VisitRatio), v.diff.overlapRatio);
    assert MapSeq(visits + [v], VisitRatio) == MapSeq(visits, VisitRatio) + [v.diff.overlapRatio];
  }

  lemma VisitElsewhere(b: Bucket, visits: seq<Visit>, v: Visit)
    requires BucketExplained(b, visits) && LabelOf(v) != BucketLabel(b)
    ensures BucketExplained(b, visits + [v])
  {
    var tag := BucketLabel(b);
    var mine, risky :| CountsMine(visits, tag, b.key, b.value, b.total, b.high, b.overlap, mine, risky);
    KeptLast(visits, mine, LabelIs(tag), v);
    assert CountsMine(visits + [v], tag, b.key, b.value, b.total, b.high, b.overlap, mine, risky);
  }

  lemma KeptHere(visits: seq<Visit>, mine: seq<Visit>, risky: seq<Visit>, tag: string, v: Visit)
    requires IsKept(visits, mine, LabelIs(tag)) && IsKept(mine, risky, VisitIsHigh) && LabelOf(v) == tag
    ensures IsKept(visits + [v], mine + [v], LabelIs(tag))
    ensures IsKept(mine + [v], if v.diff.isHigh then risky + [v] else risky, VisitIsHigh)
  {
    KeptLast(visits, mine, LabelIs(tag), v);
    KeptLast(mine, risky, VisitIsHigh, v);
  }

  lemma MineGrows(visits: seq<Visit>, tag: string, key: string, value: string, total: nat, high: nat, overlap: real,
                  mine: seq<Visit>, risky: seq<Visit>, v: Visit)
    requires CountsMine(visits, tag, key, value, total, high, overlap, mine, risky) && LabelOf(v) == tag
    ensures Counts(visits + [v], tag, key, value, total + 1, high + (if v.diff.isHigh then 1 else 0),
                   overlap + v.diff.overlapRatio)
  {
    KeptHere(visits, mine, risky, tag, v);
    RatiosLast(mine, v);
    assert CountsMine(visits + [v], tag, key, value, total + 1, high + (if v.diff.isHigh then 1 else 0),
                      overlap + v.diff.overlapRatio, mine + [v], if v.diff.isHigh then risky + [v] else risky);
  }

  lemma VisitHere(b: Bucket, visits: seq<Visit>, v: Visit)
    requires BucketExplained(b, visits) && LabelOf(v) == BucketLabel(b)
    ensures BucketExplained(Counted(b, v.diff), visits + [v])
  {
    var tag := BucketLabel(b);
    var mine, risky :| CountsMine(visits, tag, b.key, b.value, b.total, b.high, b.overlap, mine, risky);
    MineGrows(visits, tag, b.key, b.value, b.total, b.high, b.overlap, mine, risky, v);
  }

  lemma OpenBucketCounts(visits: seq<Visit>, v: Visit)
    requires IsKept(visits, [v], LabelIs(LabelOf(v)))
    ensures BucketExplained(Counted(Bucket(v.key, ValueOf(v.diff, v.key), 0, 0, 0.0), v.diff), visits)
  {
    var b := Counted(Bucket(v.key, ValueOf(v.diff, v.key), 0, 0, 0.0), v.diff);
    var risky := if v.diff.isHigh then [v] else [];
    KeptNone(VisitIsHigh);
    KeptLast([], [], VisitIsHigh, v);
    assert [] + [v] == [v];
    RatiosLast([], v);
    assert CountsMine(visits, BucketLabel(b), b.key, b.value, b.total, b.high, b.overlap, [v], risky);
  }

  /** The first visit with a label opens its bucket. */
  lemma BucketOpens(visits: seq<Visit>, v: Visit)
    requires forall u :: u in visits ==> LabelOf(u) != LabelOf(v)
    ensures BucketExplained(Counted(Bucket(v.key, ValueOf(v.diff, v.key), 0, 0, 0.0), v.diff), visits + [v])
  {
    var mine := LabelIs(LabelOf(v));
    KeepsNothing(visits, mine);
    KeptLast(visits, [], mine, v);
    assert [] + [v] == [v];
    OpenBucketCounts(visits + [v], v);
  }

  lemma LabelsDiffer(buckets: seq<Bucket>, visits: seq<Visit>, i: nat, j: nat)
    requires BucketsExplained(buckets, visits) && i < j < |buckets|
    ensures BucketLabel(buckets[i]) != BucketLabel(buckets[j])
  {
    var s, t := MapSeq(visits, LabelOf), MapSeq(buckets, BucketLabel);
    var at :| PickedAt(t, s, at) && FirstsAt(s, at);
    assert at[j] in at && s[at[j]] !in s[..at[j]];
    assert s[..at[j]][at[i]] == t[i];
  }

  lemma LabelsNext(visits: seq<Visit>, v: Visit, labels: seq<string>)
    requires FirstOccurrences(MapSeq(visits, LabelOf), labels)
    ensures FirstOccurrences(MapSeq(visits + [v], LabelOf),
                             if LabelOf(v) in labels then labels else labels + [LabelOf(v)])
    ensures LabelOf(v) in labels <==> exists u :: u in visits && LabelOf(u) == LabelOf(v)
  {
    var s := MapSeq(visits, LabelOf);
    assert MapSeq(visits + [v], LabelOf) == s + [LabelOf(v)];
    FirstsAppend(s, labels, LabelOf(v));
    FirstsMembers(s, labels, LabelOf(v));
    if u :| u in visits && LabelOf(u) == LabelOf(v) {
      var i :| 0 <= i < |visits| && visits[i] == u;
      assert s[i] == LabelOf(v);
    }
    if LabelOf(v) in s {
      var i :| 0 <= i < |s| && s[i] == LabelOf(v);
      assert visits[i] in visits;
    }
  }

  lemma BucketAfter(buckets: seq<Bucket>, visits: seq<Visit>, v: Visit, i: nat, j: nat)
    requires BucketsExplained(buckets, visits) && i < |buckets| && BucketLabel(buckets[i]) == LabelOf(v)
    requires j < |buckets|
    ensures BucketExplained(if j == i then Counted(buckets[i], v.diff) else buckets[j], visits + [v])
  {
    if j == i {
      VisitHere(buckets[i], visits, v);
    } else {
      LabelsDiffer(buckets, visits, if j < i then j else i, if j < i then i else j);
      VisitElsewhere(buckets[j], visits, v);
    }
  }

  lemma FiledInto(buckets: seq<Bucket>, visits: seq<Visit>, v: Visit, i: nat)
    requires BucketsExplained(buckets, visits) && i < |buckets| && BucketLabel(buckets[i]) == LabelOf(v)
    ensures BucketsExplained(buckets[i := Counted(buckets[i], v.diff)], visits + [v])
  {
    var after := buckets[i := Counted(buckets[i], v.diff)];
    LabelsNext(visits, v, MapSeq(buckets, BucketLabel));
    assert MapSeq(buckets, BucketLabel)[i] == LabelOf(v);
    forall j | 0 <= j < |buckets| ensures BucketExplained(after[j], visits + [v]) {
      BucketAfter(buckets, visits, v, i, j);
    }
    assert MapSeq(after, BucketLabel) == MapSeq(buckets, BucketLabel);
  }

  lemma FiledNew(buckets: seq<Bucket>, visits: seq<Visit>, v: Visit, b: Bucket)
    requires BucketsExplained(buckets, visits) && LabelOf(v) !in MapSeq(buckets, BucketLabel)
    requires b == Counted(Bucket(v.key, ValueOf(v.diff, v.key), 0, 0, 0.0), v.diff)
    ensures BucketsExplained(buckets + [b], visits + [v])
  {
    var after := buckets + [b];
    LabelsNext(visits, v, MapSeq(buckets, BucketLabel));
    forall j | 0 <= j < |buckets| ensures BucketExplained(after[j], visits + [v]) {
      assert MapSeq(buckets, BucketLabel)[j] == BucketLabel(buckets[j]);
      VisitElsewhere(buckets[j], visits, v);
    }
    BucketOpens(visits, v);
    MapLast(buckets, BucketLabel, b);
  }

  lemma FiledExactly(buckets: seq<Bucket>, visits: seq<Visit>, d: Diff, key: string)
    requires BucketsExplained(buckets, visits) && Carries(d, key)
    ensures BucketsExplained(Filed(buckets, d, key), visits + [Visit(d, key)])
  {
    var v := Visit(d, key);
    CarriesExactly(d, key);
    var i := Find(buckets, LabelOf(v));
    if i < |buckets| {
      FiledInto(buckets, visits, v, i);
    } else {
      NotFound(buckets, LabelOf(v));
      FiledNew(buckets, visits, v, Counted(Bucket(key, ValueOf(d, key), 0, 0, 0.0), d));
    }
  }

  lemma NotFound(buckets: seq<Bucket>, tag: string)
    requires Find(buckets, tag) == |buckets|
    ensures tag !in MapSeq(buckets, BucketLabel)
  {
    forall j | 0 <= j < |buckets| ensures MapSeq(buckets, BucketLabel)[j] != tag {
    }
  }

  lemma VisitsGrow(before: seq<Visit>, d: Diff, carried: seq<string>, key: string)
    ensures before + MapSeq(carried + [key], VisitOf(d)) == (before + MapSeq(carried, VisitOf(d))) + [Visit(d, key)]
  {
    MapLast(carried, VisitOf(d), key);
  }

  lemma {:induction false} FiledUnderExactly(buckets: seq<Bucket>, visits: seq<Visit>, d: Diff, keys: seq<string>)
    returns (carried: seq<string>)
    requires BucketsExplained(buckets, visits)
    ensures IsKept(keys, carried, CarriedBy(d))
    ensures BucketsExplained(FiledUnder(buckets, d, keys), visits + MapSeq(carried, VisitOf(d)))
  {
    if keys == [] {
      carried := [];
      KeptNone(CarriedBy(d));
      assert visits + MapSeq(carried, VisitOf(d)) == visits;
    } else {
      var init, key := keys[..|keys| - 1], keys[|keys| - 1];
      carried := FiledUnderExactly(buckets, visits, d, init);
      CarriesExactly(d, key);
      KeptLast(init, carried, CarriedBy(d), key);
      assert keys == init + [key];
      if Carries(d, key) {
        FiledExactly(FiledUnder(buckets, d, init), visits + MapSeq(carried, VisitOf(d)), d, key);
        VisitsGrow(visits, d, carried, key);
        carried := carried + [key];
      }
    }
  }

  lemma {:induction false} AllFiledExactly(diffs: seq<Diff>, keys: seq<string>) returns (visits: seq<Visit>)
    ensures AreVisits(diffs, keys, visits) && BucketsExplained(AllFiled(diffs, keys), visits)
  {
    if diffs == [] {
      visits := [];
      assert PickedAt(MapSeq<Bucket, string>([], BucketLabel), MapSeq<Visit, string>([], LabelOf), []);
      assert FirstsAt(MapSeq<Visit, string>([], LabelOf), []);
    } else {
      var init, last := diffs[..|diffs| - 1], diffs[|diffs| - 1];
      var before := AllFiledExactly(init, keys);
      var carried := FiledUnderExactly(AllFiled(init, keys), before, last, keys);
      visits := before + MapSeq(carried, VisitOf(last));
      assert VisitsSplit(diffs, keys, visits, before, carried);
    }
  }

  lemma RowExactly(b: Bucket, visits: seq<Visit>)
    requires BucketExplained(b, visits)
    ensures RowExplained(RowOf(b), visits) && RowLabel(RowOf(b)) == BucketLabel(b)
  {
    var row := RowOf(b);
    assert b.total > 0;
    assert RowLabel(row) == BucketLabel(b);
    assert Counts(visits, RowLabel(row), row.key, row.value, row.total, row.high, b.overlap);
    PercentExactly(b.high, b.total);
    QuotientIs(b.overlap, b.total as real);
  }

  lemma ReportExactly(diffs: seq<Diff>, keys: seq<string>)
    ensures ReportExplained(diffs, keys, MapSeq(AllFiled(diffs, keys), RowOf))
  {
    var visits := AllFiledExactly(diffs, keys);
    var buckets := AllFiled(diffs, keys);
    var rows := MapSeq(buckets, RowOf);
    forall i | 0 <= i < |rows|
      ensures RowExplained(rows[i], visits) && RowLabel(rows[i]) == BucketLabel(buckets[i])
    {
      RowExactly(buckets[i], visits);
    }
    assert MapSeq(rows, RowLabel) == MapSeq(buckets, BucketLabel);
  }

  /** aggregate_by_segment */
  method AggregateBySegment(diffs: seq<Diff>, keys: seq<string>) returns (bySegment: seq<Row>, topImpacted: seq<Row>)
    ensures bySegment == MapSeq(AllFiled(diffs, keys), RowOf)
    ensures topImpacted == SliceTo(StableSort(bySegment, Worse), 20)
    ensures ReportExplained(diffs, keys, bySegment) && TopExplained(bySegment, topImpacted)
  {
    var buckets: seq<Bucket> := [];
    for i := 0 to |diffs|
      invariant buckets == AllFiled(diffs[..i], keys)
    {
      TakeOneMore(diffs, i);
      var before := buckets;
      for j := 0 to |keys|
        invariant buckets == FiledUnder(before, diffs[i], keys[..j])
      {
        TakeOneMore(keys, j);
        buckets := Filed(buckets, diffs[i], keys[j]);
      }
      TakeAll(keys);
    }
    TakeAll(diffs);
    bySegment := [];
    for i := 0 to |buckets|
      invariant |bySegment| == i && forall j :: 0 <= j < i ==> bySegment[j] == RowOf(buckets[j])
    {
      bySegment := bySegment + [RowOf(buckets[i])];
    }
    topImpacted := SliceTo(StableSort(bySegment, Worse), 20);
    assert bySegment == MapSeq(buckets, RowOf);
    ReportExactly(diffs, keys);
    TopExactly(bySegment);
  }

  // ----- totals per key -----

  function Total(buckets: seq<Bucket>, key: string): nat {
    if buckets == [] then 0
    else
      var last := buckets[|buckets| - 1];
      Total(buckets[..|buckets| - 1], key) + if last.key == key then last.total else 0
  }

  function High(buckets: seq<Bucket>, key: string): nat {
    if buckets == [] then 0
    else
      var last := buckets[|buckets| - 1];
      High(buckets[..|buckets| - 1], key) + if last.key == key then last.high else 0
  }

  function Overlap(buckets: seq<Bucket>, key: string): real {
    if buckets == [] then 0.0
    else
      var last := buckets[|buckets| - 1];
      Overlap(buckets[..|buckets| - 1], key) + if last.key == key then last.overlap else 0.0
  }

  function Carriers(diffs: seq<Diff>, key: string): nat {
    if diffs == [] then 0
    else Carriers(diffs[..|diffs| - 1], key) + if Carries(diffs[|diffs| - 1], key) then 1 else 0
  }

  function HighCarriers(diffs: seq<Diff>, key: string): nat {
    if diffs == [] then 0
    else
      var last := diffs[|diffs| - 1];
      HighCarriers(diffs[..|diffs| - 1], key) + if Carries(last, key) && last.isHigh then 1 else 0
  }

  function OverlapOfCarriers(diffs: seq<Diff>, key: string): real {
    if diffs == [] then 0.0
    else
      var last := diffs[|diffs| - 1];
      OverlapOfCarriers(diffs[..|diffs| - 1], key) + if Carries(last, key) then last.overlapRatio else 0.0
  }

  // ----- labels -----

  lemma LongerKey(k: string, v: string, k': string, v': string)
    requires Label(k, v) == Label(k', v') && k != k' && |k| <= |k'|
    ensures k + ":" <= k'
  {
    assert k == Label(k, v)[..|k|] && k' == Label(k', v')[..|k'|];
    assert k + ":" == Label(k, v)[..|k| + 1];
    assert k'[..|k| + 1] == Label(k', v')[..|k| + 1];
  }

  lemma EqualLabelsClash(k: string, v: string, k': string, v': string)
    requires Label(k, v) == Label(k', v') && k != k'
    ensures Clash(k, k')
  {
    if |k| <= |k'| {
      LongerKey(k, v, k', v');
    } else {
      LongerKey(k', v', k, v);
    }
  }

  lemma LongerLabel(k: string, k': string)
    requires k + ":" <= k'
    ensures Label(k, k'[|k| + 1..] + ":") == Label(k', "")
  {
    assert k' == k + ":" + k'[|k| + 1..];
    assert Label(k, k'[|k| + 1..] + ":") == k + ":" + k'[|k| + 1..] + ":";
    assert k' + ":" + "" == k' + ":";
  }

  lemma ClashingValues(k: string, k': string) returns (v: string, v': string)
    requires Clash(k, k')
    ensures Label(k, v) == Label(k', v')
  {
    if k + ":" <= k' {
      LongerLabel(k, k');
      v, v' := k'[|k| + 1..] + ":", "";
    } else {
      LongerLabel(k', k);
      v, v' := "", k[|k'| + 1..] + ":";
    }
  }

  /** Two keys can give the same label exactly when one of them, followed by a colon, begins the other. */
  lemma LabelsClashExactly(k: string, k': string)
    requires k != k'
    ensures (exists v, v' :: Label(k, v) == Label(k', v')) <==> k + ":" <= k' || k' + ":" <= k
  {
    if v, v' :| Label(k, v) == Label(k', v') {
      EqualLabelsClash(k, v, k', v');
    }
    if Clash(k, k') {
      var v, v' := ClashingValues(k, k');
      assert Label(k, v) == Label(k', v');
    }
  }

  lemma {:induction false} DistinctOnce(keys: seq<string>, key: string)
    requires Distinct(keys)
    ensures Times(keys, key) == if key in keys then 1 else 0
  {
    if keys != [] {
      var init, last := keys[..|keys| - 1], keys[|keys| - 1];
      assert keys == init + [last] && last !in init;
      DistinctOnce(init, key);
    }
  }

  /** Different keys without colons never clash. */
  lemma ColonFreeKeysAreAlone(keys: seq<string>, key: string)
    requires Distinct(keys) && key in keys && forall k :: k in keys ==> ':' !in k
    ensures AloneIn(keys, key)
  {
    DistinctOnce(keys, key);
    forall k | k in keys ensures !Clash(k, key) {
      assert (k + ":")[|k|] == ':' && (key + ":")[|key|] == ':';
    }
  }

  // ----- filing -----

  /** Changing one bucket changes the totals of its key only. */
  lemma {:induction false} TotalsAfterUpdate(buckets: seq<Bucket>, i: nat, d: Diff, key: string)
    requires i < |buckets|
    ensures var after := buckets[i := Counted(buckets[i], d)];
            && Total(after, key) == Total(buckets, key) + (if buckets[i].key == key then 1 else 0)
            && High(after, key) == High(buckets, key) + (if buckets[i].key == key && d.isHigh then 1 else 0)
            && Overlap(after, key) == Overlap(buckets, key) + (if buckets[i].key == key then d.overlapRatio else 0.0)
  {
    var after := buckets[i := Counted(buckets[i], d)];
    var init := buckets[..|buckets| - 1];
    if i == |buckets| - 1 {
      assert after[..|after| - 1] == init;
    } else {
      assert after[..|after| - 1] == init[i := Counted(init[i], d)];
      TotalsAfterUpdate(init, i, d, key);
    }
  }

  lemma TotalsAfterAppend(buckets: seq<Bucket>, b: Bucket, key: string)
    ensures Total(buckets + [b], key) == Total(buckets, key) + (if b.key == key then b.total else 0)
    ensures High(buckets + [b], key) == High(buckets, key) + (if b.key == key then b.high else 0)
    ensures Overlap(buckets + [b], key) == Overlap(buckets, key) + (if b.key == key then b.overlap else 0.0)
  {
    assert (buckets + [b])[..|buckets|] == buckets;
  }

  ghost predicate BucketsFit(buckets: seq<Bucket>, key: string) {
    forall i :: 0 <= i < |buckets| ==> buckets[i].total > 0 && !Clash(buckets[i].key, key)
  }

  /** The totals of `key` before and after filing d, where `here` says whether d counts for that key. */
  ghost predicate TotalsGrow(before: seq<Bucket>, after: seq<Bucket>, d: Diff, key: string, here: bool) {
    && Total(after, key) == Total(before, key) + (if here then 1 else 0)
    && High(after, key) == High(before, key) + (if here && d.isHigh then 1 else 0)
    && Overlap(after, key) == Overlap(before, key) + (if here then d.overlapRatio else 0.0)
  }

  lemma FiledInBucket(buckets: seq<Bucket>, i: nat, d: Diff, k: string, value: string, key: string)
    requires BucketsFit(buckets, key) && !Clash(k, key) && i < |buckets|
    requires Label(buckets[i].key, buckets[i].value) == Label(k, value)
    ensures var after := buckets[i := Counted(buckets[i], d)];
            BucketsFit(after, key) && TotalsGrow(buckets, after, d, key, k == key)
  {
    if buckets[i].key != k && (buckets[i].key == key || k == key) {
      EqualLabelsClash(buckets[i].key, buckets[i].value, k, value);
    }
    TotalsAfterUpdate(buckets, i, d, key);
  }

  /** Filing a diff under one key adds it to that key's totals. */
  lemma FiledAdds(buckets: seq<Bucket>, d: Diff, k: string, key: string)
    requires BucketsFit(buckets, key) && !Clash(k, key)
    ensures BucketsFit(Filed(buckets, d, k), key)
    ensures TotalsGrow(buckets, Filed(buckets, d, k), d, key, k == key && Carries(d, key))
  {
    if Carries(d, k) {
      var value := SegmentOf(d)[k];
      var i := Find(buckets, Label(k, value));
      if i < |buckets| {
        FiledInBucket(buckets, i, d, k, value, key);
      } else {
        TotalsAfterAppend(buckets, Counted(Bucket(k, value, 0, 0, 0.0), d), key);
      }
    }
  }

  lemma {:induction false} FiledUnderAdds(buckets: seq<Bucket>, d: Diff, keys: seq<string>, key: string)
    requires BucketsFit(buckets, key) && Times(keys, key) <= 1 && forall k :: k in keys ==> !Clash(k, key)
    ensures BucketsFit(FiledUnder(buckets, d, keys), key)
    ensures TotalsGrow(buckets, FiledUnder(buckets, d, keys), d, key, Times(keys, key) == 1 && Carries(d, key))
  {
    if keys != [] {
      var init, last := keys[..|keys| - 1], keys[|keys| - 1];
      assert keys == init + [last];
      FiledUnderAdds(buckets, d, init, key);
      FiledAdds(FiledUnder(buckets, d, init), d, last, key);
    }
  }

  /** Totals, HIGH counts and overlap sums of a key's buckets are those of the diffs that carry the key. */
  lemma {:induction false} Conservation(diffs: seq<Diff>, keys: seq<string>, key: string)
    requires AloneIn(keys, key)
    ensures var buckets := AllFiled(diffs, keys);
            && BucketsFit(buckets, key)
            && Total(buckets, key) == Carriers(diffs, key)
            && High(buckets, key) == HighCarriers(diffs, key)
            && Overlap(buckets, key) == OverlapOfCarriers(diffs, key)
  {
    if diffs != [] {
      Conservation(diffs[..|diffs| - 1], keys, key);
      FiledUnderAdds(AllFiled(diffs[..|diffs| - 1], keys), diffs[|diffs| - 1], keys, key);
    }
  }

  // ----- when the totals are right -----

  lemma OnlyCarries(d: Diff, k: string, v: string)
    requires d.segment == map[k := v]
    ensures SegmentOf(d) == d.segment && forall key :: Carries(d, key) <==> key == k
  {
    assert k in d.segment;
  }

  /** The diff's one label, k:v, is that of the only bucket, or there is no bucket yet. */
  lemma {:induction false} OneLabel(buckets: seq<Bucket>, d: Diff, keys: seq<string>, k: string, v: string)
    requires d.segment == map[k := v]
    requires |buckets| <= 1 && (buckets == [] || Label(buckets[0].key, buckets[0].value) == Label(k, v))
    ensures var after := FiledUnder(buckets, d, keys);
            if buckets == [] then
              if Times(keys, k) == 0 then after == []
              else |after| == 1 && after[0].key == k && after[0].value == v && after[0].total == Times(keys, k)
            else |after| == 1 && after[0].key == buckets[0].key && after[0].value == buckets[0].value
  {
    if keys != [] {
      var init, last := keys[..|keys| - 1], keys[|keys| - 1];
      OneLabel(buckets, d, init, k, v);
      OnlyCarries(d, k, v);
    }
  }

  /** A single diff counts as often as its key is asked for. */
  lemma CountedAsAsked(keys: seq<string>, key: string)
    ensures var d := Diff(map[key := ""], false, 0.0);
            Total(AllFiled([d], keys), key) == Times(keys, key) && Carriers([d], key) == 1
  {
    var d := Diff(map[key := ""], false, 0.0);
    OnlyCarries(d, key, "");
    OneLabel([], d, keys, key, "");
    assert [d][..0] == [] && AllFiled([d], keys) == FiledUnder([], d, keys);
    var after := FiledUnder([], d, keys);
    if after != [] {
      assert after[..0] == [];
    }
  }

  lemma {:induction false} AskedFor(keys: seq<string>, k: string)
    requires k in keys
    ensures Times(keys, k) > 0
  {
    var init, last := keys[..|keys| - 1], keys[|keys| - 1];
    if last != k {
      assert keys == init + [last];
      AskedFor(init, k);
    }
  }

  /** A diff lands in the bucket of another key that got there first. */
  lemma FiledElsewhere(keys: seq<string>, k: string, v: string, key: string, value: string)
    requires k in keys && k != key && Label(k, v) == Label(key, value)
    ensures var diffs := [Diff(map[k := v], false, 0.0), Diff(map[key := value], false, 0.0)];
            Total(AllFiled(diffs, keys), key) == 0 && Carriers(diffs, key) == 1
  {
    var d, e := Diff(map[k := v], false, 0.0), Diff(map[key := value], false, 0.0);
    assert [d, e][..1] == [d] && [d][..0] == [];
    AskedFor(keys, k);
    OneLabel([], d, keys, k, v);
    var first := FiledUnder([], d, keys);
    assert AllFiled([d], keys) == first;
    OneLabel(first, e, keys, key, value);
    var after := FiledUnder(first, e, keys);
    assert AllFiled([d, e], keys) == after;
    assert after[..0] == [] && Total(after, key) == 0;
    OnlyCarries(d, k, v);
    OnlyCarries(e, key, value);
    assert Carriers([d], key) == 0;
  }

  /** Exactly when a key's totals are those of the diffs that carry it, whatever the diffs. */
  lemma ConservationExactly(keys: seq<string>, key: string)
    ensures (forall diffs :: Total(AllFiled(diffs, keys), key) == Carriers(diffs, key)) <==> AloneIn(keys, key)
  {
    if AloneIn(keys, key) {
      forall diffs ensures Total(AllFiled(diffs, keys), key) == Carriers(diffs, key) {
        Conservation(diffs, keys, key);
      }
    } else if Times(keys, key) != 1 {
      CountedAsAsked(keys, key);
    } else {
      var k :| k in keys && Clash(k, key);
      var v, value := ClashingValues(k, key);
      FiledElsewhere(keys, k, v, key, value);
    }
  }

  // ----- the report -----

  lemma RowKeepsSums(b: Bucket)
    requires b.total > 0
    ensures RowOf(b).total as real * RowOf(b).avgOverlap == b.overlap
    ensures RowOf(b).highPercent * b.total as real == b.high as real * 100.0
  {
    var n, h := b.total as real, b.high as real;
    TimesBack(b.overlap, n);
    TimesBack(h, n);
    var q := h / n;
    assert (q * 100.0) * n == (q * n) * 100.0;
  }

  /** The sum of total * average over a key's rows. */
  function WeightedOverlap(rows: seq<Row>, key: string): real {
    if rows == [] then 0.0
    else
      var last := rows[|rows| - 1];
      WeightedOverlap(rows[..|rows| - 1], key) + if last.key == key then last.total as real * last.avgOverlap else 0.0
  }

  lemma {:induction false} AveragesKeepSums(buckets: seq<Bucket>, key: string)
    requires BucketsFit(buckets, key)
    ensures WeightedOverlap(MapSeq(buckets, RowOf), key) == Overlap(buckets, key)
  {
    if buckets != [] {
      var init, last := buckets[..|buckets| - 1], buckets[|buckets| - 1];
      AveragesKeepSums(init, key);
      RowKeepsSums(last);
      assert MapSeq(buckets, RowOf)[..|init|] == MapSeq(init, RowOf);
    }
  }

  /** Also after averaging: the report's overlap figures add up to those of the diffs that carry the key. */
  lemma ReportConservation(diffs: seq<Diff>, keys: seq<string>, key: string)
    requires AloneIn(keys, key)
    ensures WeightedOverlap(MapSeq(AllFiled(diffs, keys), RowOf), key) == OverlapOfCarriers(diffs, key)
  {
    Conservation(diffs, keys, key);
    AveragesKeepSums(AllFiled(diffs, keys), key);
  }

  /** high out of total is at most p percent. */
  ghost predicate AtMostPercent(high: real, total: real, p: real) {
    high * 100.0 <= p * total
  }

  lemma BoundScales(x: real, p: real, n: real)
    requires x <= p && n >= 0.0
    ensures x * n <= p * n
  {
    ScaleNonNegative(n, x, p);
  }

  lemma RowWithin(b: Bucket, p: real)
    requires b.total > 0 && RowOf(b).highPercent <= p
    ensures AtMostPercent(b.high as real, b.total as real, p)
  {
    RowKeepsSums(b);
    BoundScales(RowOf(b).highPercent, p, b.total as real);
  }

  lemma BoundsAdd(p: real, h: real, t: real, h': real, t': real, high: real, total: real)
    requires AtMostPercent(h, t, p) && AtMostPercent(h', t', p) && high == h + h' && total == t + t'
    ensures AtMostPercent(high, total, p)
  {
    Distribute(p, t, t');
  }

  /** If no bucket of the key exceeds p percent, neither do the key's HIGH diffs altogether. */
  lemma {:induction false} AverageIsBounded(buckets: seq<Bucket>, key: string, p: real, high: real, total: real)
    requires forall i :: 0 <= i < |buckets| ==> AtMostPercent(buckets[i].high as real, buckets[i].total as real, p)
    requires high == High(buckets, key) as real && total == Total(buckets, key) as real
    ensures AtMostPercent(high, total, p)
  {
    if buckets != [] {
      var init, last := buckets[..|buckets| - 1], buckets[|buckets| - 1];
      var h, t := High(init, key) as real, Total(init, key) as real;
      forall i | 0 <= i < |init| ensures AtMostPercent(init[i].high as real, init[i].total as real, p) {
        assert init[i] == buckets[i];
      }
      AverageIsBounded(init, key, p, h, t);
      if last.key == key {
        BoundsAdd(p, h, t, last.high as real, last.total as real, high, total);
      }
    }
  }

  /** The first of the sorted rows has the largest percentage. */
  lemma FirstIsWorst(rows: seq<Row>, i: nat)
    requires i < |rows|
    ensures |StableSort(rows, Worse)| == |rows| && rows[i].highPercent <= StableSort(rows, Worse)[0].highPercent
  {
    StableSortElements(rows, Worse);
    var sorted := StableSort(rows, Worse);
    assert rows[i] in sorted;
    var j :| 0 <= j < |sorted| && sorted[j] == rows[i];
    if j > 0 { StableSortAscends(rows, Worse, 0, j); }
  }

  function HighDiffs(diffs: seq<Diff>): nat {
    if diffs == [] then 0 else HighDiffs(diffs[..|diffs| - 1]) + if diffs[|diffs| - 1].isHigh then 1 else 0
  }

  lemma {:induction false} EveryoneCarries(diffs: seq<Diff>, key: string)
    requires forall d :: d in diffs ==> Carries(d, key)
    ensures Carriers(diffs, key) == |diffs| && HighCarriers(diffs, key) == HighDiffs(diffs)
  {
    if diffs != [] {
      EveryoneCarries(diffs[..|diffs| - 1], key);
      assert diffs[|diffs| - 1] in diffs;
    }
  }

  lemma ShareIsBounded(h: real, n: real, p: real)
    requires n > 0.0 && AtMostPercent(h, n, p)
    ensures h / n * 100.0 <= p
  {
    var q := h / n;
    TimesBack(h, n);
    if q * 100.0 > p {
      ScaleOrder(n, q * 100.0, p);
    }
  }

  lemma RowsBoundGlobal(diffs: seq<Diff>, keys: seq<string>, key: string, p: real)
    requires AloneIn(keys, key)
    requires forall d :: d in diffs ==> Carries(d, key)
    requires var buckets := AllFiled(diffs, keys); forall i :: 0 <= i < |buckets| ==> RowOf(buckets[i]).highPercent <= p
    ensures AtMostPercent(HighDiffs(diffs) as real, |diffs| as real, p)
  {
    var buckets := AllFiled(diffs, keys);
    Conservation(diffs, keys, key);
    EveryoneCarries(diffs, key);
    forall i | 0 <= i < |buckets| ensures AtMostPercent(buckets[i].high as real, buckets[i].total as real, p) {
      RowWithin(buckets[i], p);
    }
    AverageIsBounded(buckets, key, p, HighDiffs(diffs) as real, |diffs| as real);
  }

  /** If every diff carries one of the keys, the worst segment is at least as bad as the whole replay. */
  lemma WorstSegmentCoversGlobal(diffs: seq<Diff>, keys: seq<string>, key: string, n: nat, high: nat)
    requires AloneIn(keys, key)
    requires diffs != [] && (forall d :: d in diffs ==> Carries(d, key)) && n == |diffs| && high == HighDiffs(diffs)
    ensures var top := SliceTo(StableSort(MapSeq(AllFiled(diffs, keys), RowOf), Worse), 20);
            top != [] && top[0].highPercent >= high as real / n as real * 100.0
  {
    var buckets := AllFiled(diffs, keys);
    var rows := MapSeq(buckets, RowOf);
    Conservation(diffs, keys, key);
    EveryoneCarries(diffs, key);
    assert Total([], key) == 0;
    FirstIsWorst(rows, 0);
    var p := StableSort(rows, Worse)[0].highPercent;
    forall i | 0 <= i < |buckets| ensures RowOf(buckets[i]).highPercent <= p {
      assert rows[i] == RowOf(buckets[i]);
      FirstIsWorst(rows, i);
    }
    RowsBoundGlobal(diffs, keys, key, p);
    ShareIsBounded(high as real, n as real, p);
  }
}
