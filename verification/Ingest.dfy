/** Incremental ingestion of queries from a request log.

    `clean` is the sanitizer and `digest` the fingerprint; nothing is assumed about either. */
module Ingest {
  import opened Prelude
  import opened Sorting

  type Params = Text

  datatype LogRow = NoQuery | Query(params: Params, source: Text)

  datatype OutRow = OutRow(params: Params, source: Option<Text>)

  datatype State = State(processed: set<Text>, output: seq<OutRow>)

  /** The rows a run could add: the first row of each fingerprint that has not been processed. */
  function Fresh(log: seq<LogRow>, processed: set<Text>, clean: Params -> Params, digest: Params -> Text): seq<OutRow> {
    if log == [] then []
    else if log[0].NoQuery? || digest(clean(log[0].params)) in processed then Fresh(log[1..], processed, clean, digest)
    else
      var params := clean(log[0].params);
      [OutRow(params, Some(log[0].source))] + Fresh(log[1..], processed + {digest(params)}, clean, digest)
  }

  function Prints(rows: seq<OutRow>, digest: Params -> Text): set<Text> {
    if rows == [] then {} else {digest(rows[0].params)} + Prints(rows[1..], digest)
  }

  /** What rewriting the output file keeps of the rows already in it. */
  function WithoutSource(row: OutRow): OutRow {
    row.(source := None)
  }

  /** The limit is looked at only after a row has been added, so it lets at least one row through. */
  function Taken(rows: seq<OutRow>, maxNew: Option<int>): (taken: seq<OutRow>)
    ensures taken <= rows
  {
    if maxNew.None? then rows
    else
      var m := if maxNew.value < 1 then 1 else maxNew.value;
      if m < |rows| then rows[..m] else rows
  }

  // ----- a run in terms of the log -----

  /** Row i of the log has a query whose sanitized form is new: neither processed nor in an earlier row. */
  ghost predicate IsNew(log: seq<LogRow>, processed: set<Text>, clean: Params -> Params, digest: Params -> Text,
                        i: nat)
  {
    && i < |log| && log[i].Query? && digest(clean(log[i].params)) !in processed
    && forall j: nat :: j < i && log[j].Query? ==> digest(clean(log[j].params)) != digest(clean(log[i].params))
  }

  ghost predicate NewAt(log: seq<LogRow>, processed: set<Text>, clean: Params -> Params, digest: Params -> Text,
                        at: seq<nat>)
  {
    Positions(at, |log|) && forall i: nat :: i in at <==> IsNew(log, processed, clean, digest, i)
  }

  /** Each row has the sanitized parameters and the source of its log row. */
  ghost predicate WrittenAs(rows: seq<OutRow>, log: seq<LogRow>, clean: Params -> Params, at: seq<nat>)
    requires Positions(at, |log|)
  {
    |rows| <= |at| && forall j :: 0 <= j < |rows| ==> WrittenFrom(rows[j], log[at[j]], clean)
  }

  ghost predicate WrittenFrom(row: OutRow, entry: LogRow, clean: Params -> Params) {
    entry.Query? && row.params == clean(entry.params) && row.source == Some(entry.source)
  }

  /** The new rows of the log in their order, all of them or as many as the limit admits, but one at least. */
  ghost predicate RowsExplained(rows: seq<OutRow>, log: seq<LogRow>, processed: set<Text>, maxNew: Option<int>,
                                clean: Params -> Params, digest: Params -> Text)
  {
    exists at :: NewAt(log, processed, clean, digest, at) && WrittenAs(rows, log, clean, at)
                 && (|rows| < |at| ==> maxNew.Some? && |rows| > 0 && maxNew.value <= |rows|)
                 && (maxNew.Some? ==> |rows| <= 1 || |rows| <= maxNew.value)
  }

  lemma NewShifts(log: seq<LogRow>, processed: set<Text>, clean: Params -> Params, digest: Params -> Text, i: nat)
    requires log != []
    ensures var now := if log[0].Query? then processed + {digest(clean(log[0].params))} else processed;
            IsNew(log, processed, clean, digest, i + 1) <==> IsNew(log[1..], now, clean, digest, i)
  {
    var rest := log[1..];
    if i < |rest| && rest[i].Query? {
      var fp := digest(clean(rest[i].params));
      assert (forall j: nat :: j < i + 1 && log[j].Query? ==> digest(clean(log[j].params)) != fp) <==>
             ((log[0].Query? ==> digest(clean(log[0].params)) != fp)
              && forall j: nat :: j < i && rest[j].Query? ==> digest(clean(rest[j].params)) != fp) by {
        assert forall j: nat :: j < i ==> rest[j] == log[j + 1];
        assert forall j: nat :: 0 < j < i + 1 ==> log[j] == rest[j - 1];
      }
    }
  }

  /** The first row is new if it has an unprocessed query; behind it, its fingerprint counts as processed. */
  lemma NewAtNext(log: seq<LogRow>, processed: set<Text>, now: set<Text>, clean: Params -> Params,
                  digest: Params -> Text, rest: seq<nat>)
    requires log != [] && NewAt(log[1..], now, clean, digest, rest)
    requires now == if log[0].Query? then processed + {digest(clean(log[0].params))} else processed
    ensures NewAt(log, processed, clean, digest,
                  if log[0].Query? && digest(clean(log[0].params)) !in processed then [0] + Shifted(rest)
                  else Shifted(rest))
  {
    ShiftedPositions(rest, |log| - 1);
    forall i: nat
      ensures i in Shifted(rest) <==> i > 0 && IsNew(log, processed, clean, digest, i)
      ensures i in [0] + Shifted(rest) <==> i == 0 || IsNew(log, processed, clean, digest, i)
    {
      ShiftedIn(rest, i);
      if i > 0 { NewShifts(log, processed, clean, digest, i - 1); }
    }
  }

  lemma WrittenNext(rows: seq<OutRow>, log: seq<LogRow>, clean: Params -> Params, rest: seq<nat>)
    requires log != [] && Positions(rest, |log| - 1) && WrittenAs(rows, log[1..], clean, rest)
    ensures Positions(Shifted(rest), |log|) && WrittenAs(rows, log, clean, Shifted(rest))
    ensures Positions([0] + Shifted(rest), |log|)
    ensures log[0].Query? ==>
              WrittenAs([OutRow(clean(log[0].params), Some(log[0].source))] + rows, log, clean, [0] + Shifted(rest))
  {
    ShiftedPositions(rest, |log| - 1);
    forall j | 0 <= j < |rest| ensures log[1..][rest[j]] == log[Shifted(rest)[j]] {
    }
  }

  lemma {:induction false} FreshExactly(log: seq<LogRow>, processed: set<Text>, clean: Params -> Params,
      digest: Params -> Text) returns (at: seq<nat>)
    ensures NewAt(log, processed, clean, digest, at) && |at| == |Fresh(log, processed, clean, digest)|
    ensures WrittenAs(Fresh(log, processed, clean, digest), log, clean, at)
  {
    if log == [] {
      at := [];
    } else if log[0].NoQuery? || digest(clean(log[0].params)) in processed {
      var now := if log[0].Query? then processed + {digest(clean(log[0].params))} else processed;
      assert now == processed;
      at := FreshExactly(log[1..], processed, clean, digest);
      NewAtNext(log, processed, now, clean, digest, at);
      WrittenNext(Fresh(log[1..], processed, clean, digest), log, clean, at);
      at := Shifted(at);
    } else {
      var now := processed + {digest(clean(log[0].params))};
      at := FreshExactly(log[1..], now, clean, digest);
      NewAtNext(log, processed, now, clean, digest, at);
      WrittenNext(Fresh(log[1..], now, clean, digest), log, clean, at);
      at := [0] + Shifted(at);
    }
  }

  lemma RowsExactly(log: seq<LogRow>, processed: set<Text>, maxNew: Option<int>, clean: Params -> Params,
      digest: Params -> Text)
    ensures RowsExplained(Taken(Fresh(log, processed, clean, digest), maxNew), log, processed, maxNew, clean, digest)
  {
    var at := FreshExactly(log, processed, clean, digest);
    assert WrittenAs(Taken(Fresh(log, processed, clean, digest), maxNew), log, clean, at);
  }

  ghost function Fingerprints(rows: seq<OutRow>, digest: Params -> Text): set<Text> {
    set i | 0 <= i < |rows| :: digest(rows[i].params)
  }

  lemma {:induction false} PrintsExactly(rows: seq<OutRow>, digest: Params -> Text)
    ensures Prints(rows, digest) == Fingerprints(rows, digest)
  {
    if rows != [] {
      PrintsExactly(rows[1..], digest);
      assert forall i :: 0 < i < |rows| ==> rows[i] == rows[1..][i - 1];
      assert forall x :: x in Fingerprints(rows[1..], digest) ==> x in Fingerprints(rows, digest);
    }
  }

  /** Rewritten rows keep their parameters and nothing else. */
  ghost predicate RowsKept(now: seq<OutRow>, was: seq<OutRow>) {
    |now| == |was| && forall i :: 0 <= i < |was| ==> now[i].params == was[i].params && now[i].source.None?
  }

  /** What one run does: the rows so far lose their source, the new rows of the log follow, and their fingerprints
      are processed from now on. */
  ghost predicate IngestExplained(was: State, now: State, log: seq<LogRow>, maxNew: Option<int>,
                                  clean: Params -> Params, digest: Params -> Text)
  {
    && |was.output| <= |now.output| && RowsKept(now.output[..|was.output|], was.output)
    && RowsExplained(now.output[|was.output|..], log, was.processed, maxNew, clean, digest)
    && now.processed == was.processed + Fingerprints(now.output[|was.output|..], digest)
  }

  lemma IngestExactly(was: State, now: State, rows: seq<OutRow>, log: seq<LogRow>, maxNew: Option<int>,
      clean: Params -> Params, digest: Params -> Text)
    requires rows == Taken(Fresh(log, was.processed, clean, digest), maxNew)
    requires now.processed == was.processed + Prints(rows, digest)
    requires now.output == MapSeq(was.output, WithoutSource) + rows
    ensures IngestExplained(was, now, log, maxNew, clean, digest)
  {
    RowsExactly(log, was.processed, maxNew, clean, digest);
    PrintsExactly(rows, digest);
    assert now.output[|was.output|..] == rows;
  }

  class Ingester {
    var processed: set<Text>
    var output: seq<OutRow>

    constructor ()
      ensures processed == {} && output == []
    {
      processed, output := {}, [];
    }

    /** queries_ingest */
    method Ingest(log: seq<LogRow>, maxNew: Option<int>, clean: Params -> Params, digest: Params -> Text)
      returns (added: nat)
      modifies this
      ensures var rows := Taken(Fresh(log, old(processed), clean, digest), maxNew);
              && added == |rows|
              && processed == old(processed) + Prints(rows, digest)
              && output == MapSeq(old(output), WithoutSource) + rows
      ensures |output| == |old(output)| + added
      ensures IngestExplained(State(old(processed), old(output)), State(processed, output), log, maxNew, clean, digest)
    {
      var newRows: seq<OutRow> := [];
      ghost var before, all := processed, Fresh(log, processed, clean, digest);
      ghost var later := all;
      for i := 0 to |log|
        invariant output == old(output)
        invariant all == newRows + later && later == Fresh(log[i..], processed, clean, digest)
        invariant maxNew.Some? && newRows != [] ==> |newRows| < maxNew.value
        invariant processed == before + Prints(newRows, digest)
      {
        if log[i].NoQuery? { continue; }
        var params := clean(log[i].params);
        var fp := digest(params);
        if fp in processed { continue; }
        ghost var row := OutRow(params, Some(log[i].source));
        TakeFirst(newRows, row, later, digest);
        processed := processed + {fp};
        newRows := newRows + [OutRow(params, Some(log[i].source))];
        later := later[1..];
        if maxNew.Some? && |newRows| >= maxNew.value { break; }
      }
      StopsAt(all, newRows, later, maxNew);
      output := MapSeq(output, WithoutSource) + newRows;
      added := |newRows|;
      IngestExactly(State(before, old(output)), State(processed, output), newRows, log, maxNew, clean, digest);
    }
  }

  lemma TakeFirst(taken: seq<OutRow>, row: OutRow, later: seq<OutRow>, digest: Params -> Text)
    requires later != [] && later[0] == row
    ensures taken + later == (taken + [row]) + later[1..]
    ensures Prints(taken + [row], digest) == Prints(taken, digest) + {digest(row.params)}
  {
    PrintsOfAppend(taken, [row], digest);
  }

  lemma StopsAt(all: seq<OutRow>, taken: seq<OutRow>, later: seq<OutRow>, maxNew: Option<int>)
    requires all == taken + later
    requires later == [] || (maxNew.Some? && |taken| == if maxNew.value < 1 then 1 else maxNew.value)
    requires maxNew.Some? && taken != [] ==> |taken| <= if maxNew.value < 1 then 1 else maxNew.value
    ensures taken == Taken(all, maxNew)
  {
  }

  lemma {:induction false} PrintsOfAppend(a: seq<OutRow>, b: seq<OutRow>, digest: Params -> Text)
    ensures Prints(a + b, digest) == Prints(a, digest) + Prints(b, digest)
  {
    if a == [] {
      assert a + b == b;
    } else {
      PrintsOfAppend(a[1..], b, digest);
      assert (a + b)[1..] == a[1..] + b;
    }
  }

  // ----- runs compose -----

  /** After the first k fresh rows have been processed, exactly the others are still fresh. */
  lemma {:induction false} FreshAfter(log: seq<LogRow>, processed: set<Text>, k: nat, clean: Params -> Params,
      digest: Params -> Text)
    requires k <= |Fresh(log, processed, clean, digest)|
    ensures var all := Fresh(log, processed, clean, digest);
            Fresh(log, processed + Prints(all[..k], digest), clean, digest) == all[k..]
  {
    var all := Fresh(log, processed, clean, digest);
    if k == 0 {
      assert processed + Prints(all[..0], digest) == processed;
    } else if log[0].NoQuery? || digest(clean(log[0].params)) in processed {
      FreshAfter(log[1..], processed, k, clean, digest);
    } else {
      var fp := digest(clean(log[0].params));
      FreshAfter(log[1..], processed + {fp}, k - 1, clean, digest);
      assert all[..k][1..] == all[1..][..k - 1];
      assert processed + Prints(all[..k], digest) == processed + {fp} + Prints(all[1..][..k - 1], digest);
    }
  }

  /** Later log lines do not change what earlier ones contribute. */
  lemma {:induction false} FreshGrows(log: seq<LogRow>, more: seq<LogRow>, processed: set<Text>,
      clean: Params -> Params, digest: Params -> Text)
    ensures Fresh(log, processed, clean, digest) <= Fresh(log + more, processed, clean, digest)
  {
    if log != [] {
      assert (log + more)[1..] == log[1..] + more;
      var now := if log[0].NoQuery? || digest(clean(log[0].params)) in processed then processed
                 else processed + {digest(clean(log[0].params))};
      FreshGrows(log[1..], more, now, clean, digest);
    }
  }

  /** No fingerprint twice, and none that was there before. */
  lemma {:induction false} FreshDistinct(log: seq<LogRow>, processed: set<Text>, clean: Params -> Params,
      digest: Params -> Text)
    ensures var all := Fresh(log, processed, clean, digest);
            && Prints(all, digest) !! processed
            && forall i, j :: 0 <= i < j < |all| ==> digest(all[i].params) != digest(all[j].params)
  {
    var all := Fresh(log, processed, clean, digest);
    if log == [] {
    } else if log[0].NoQuery? || digest(clean(log[0].params)) in processed {
      FreshDistinct(log[1..], processed, clean, digest);
    } else {
      var fp := digest(clean(log[0].params));
      FreshDistinct(log[1..], processed + {fp}, clean, digest);
      PrintsHold(all[1..], digest);
    }
  }

  lemma {:induction false} PrintsHold(rows: seq<OutRow>, digest: Params -> Text)
    ensures forall i :: 0 <= i < |rows| ==> digest(rows[i].params) in Prints(rows, digest)
  {
    if rows != [] {
      PrintsHold(rows[1..], digest);
    }
  }

  // ----- any number of runs -----

  function ParamsOf(row: OutRow): Params { row.params }

  /** The state after runs that have so far added the first k rows of a single unlimited run. */
  ghost predicate HasTaken(processed: set<Text>, output: seq<OutRow>, log: seq<LogRow>, k: nat,
      clean: Params -> Params, digest: Params -> Text)
  {
    var all := Fresh(log, {}, clean, digest);
    && k <= |all|
    && MapSeq(output, ParamsOf) == MapSeq(all[..k], ParamsOf)
    && processed == Prints(all[..k], digest)
  }

  function Limit(maxNew: Option<int>, total: nat): nat {
    if maxNew.None? then total else if maxNew.value < 1 then 1 else maxNew.value
  }

  /** What is still fresh is what the single run has after its first k rows. */
  lemma NextRows(processed: set<Text>, log: seq<LogRow>, more: seq<LogRow>, k: nat, clean: Params -> Params,
      digest: Params -> Text)
    requires k <= |Fresh(log, {}, clean, digest)| && processed == Prints(Fresh(log, {}, clean, digest)[..k], digest)
    ensures var all := Fresh(log + more, {}, clean, digest);
            && k <= |all| && all[..k] == Fresh(log, {}, clean, digest)[..k]
            && Fresh(log + more, processed, clean, digest) == all[k..]
  {
    FreshGrows(log, more, {}, clean, digest);
    FreshAfter(log + more, {}, k, clean, digest);
    assert {} + processed == processed;
  }

  lemma TakenRows(all: seq<OutRow>, k: nat, maxNew: Option<int>)
    requires k <= |all|
    ensures var k' := AtMost(k + Limit(maxNew, |all|), |all|);
            k <= k' && all[..k'] == all[..k] + Taken(all[k..], maxNew)
  {
  }

  /** One more run, on the same log or a longer one, with any limit, takes the next rows of the single run. */
  lemma OneMoreRun(
      processed: set<Text>, output: seq<OutRow>, log: seq<LogRow>, more: seq<LogRow>, k: nat, maxNew: Option<int>,
      clean: Params -> Params, digest: Params -> Text)
    requires HasTaken(processed, output, log, k, clean, digest)
    ensures var rows := Taken(Fresh(log + more, processed, clean, digest), maxNew);
            var total := |Fresh(log + more, {}, clean, digest)|;
            HasTaken(processed + Prints(rows, digest), MapSeq(output, WithoutSource) + rows, log + more,
                     AtMost(k + Limit(maxNew, total), total), clean, digest)
  {
    var all := Fresh(log + more, {}, clean, digest);
    NextRows(processed, log, more, k, clean, digest);
    TakenRows(all, k, maxNew);
    StateGrows(processed, output, all[..k], Taken(all[k..], maxNew), digest);
  }

  lemma StateGrows(processed: set<Text>, output: seq<OutRow>, taken: seq<OutRow>, rows: seq<OutRow>,
      digest: Params -> Text)
    requires MapSeq(output, ParamsOf) == MapSeq(taken, ParamsOf) && processed == Prints(taken, digest)
    ensures MapSeq(MapSeq(output, WithoutSource) + rows, ParamsOf) == MapSeq(taken + rows, ParamsOf)
    ensures processed + Prints(rows, digest) == Prints(taken + rows, digest)
  {
    PrintsOfAppend(taken, rows, digest);
    OutputGrows(output, taken, rows);
  }

  lemma OutputGrows(output: seq<OutRow>, taken: seq<OutRow>, rows: seq<OutRow>)
    requires MapSeq(output, ParamsOf) == MapSeq(taken, ParamsOf)
    ensures MapSeq(MapSeq(output, WithoutSource) + rows, ParamsOf) == MapSeq(taken + rows, ParamsOf)
  {
    assert |output| == |MapSeq(output, ParamsOf)| == |taken|;
    forall i | 0 <= i < |output| ensures output[i].params == taken[i].params {
      assert MapSeq(output, ParamsOf)[i] == MapSeq(taken, ParamsOf)[i];
    }
  }

  /** A run of the command: the lines the log has gained since the last run, and its limit. */
  datatype Run = Run(more: seq<LogRow>, maxNew: Option<int>)

  function LogOf(runs: seq<Run>): seq<LogRow> {
    if runs == [] then [] else LogOf(runs[..|runs| - 1]) + runs[|runs| - 1].more
  }

  function AfterRuns(runs: seq<Run>, clean: Params -> Params, digest: Params -> Text): State {
    if runs == [] then State({}, [])
    else
      var s := AfterRuns(runs[..|runs| - 1], clean, digest);
      var rows := Taken(Fresh(LogOf(runs), s.processed, clean, digest), runs[|runs| - 1].maxNew);
      State(s.processed + Prints(rows, digest), MapSeq(s.output, WithoutSource) + rows)
  }

  /** How many rows the runs have taken. */
  function TakenBy(runs: seq<Run>, clean: Params -> Params, digest: Params -> Text): nat {
    if runs == [] then 0
    else
      var total := |Fresh(LogOf(runs), {}, clean, digest)|;
      AtMost(TakenBy(runs[..|runs| - 1], clean, digest) + Limit(runs[|runs| - 1].maxNew, total), total)
  }

  /** From an empty state, any runs over a growing log give a prefix of what one unlimited run over the whole log
      gives. */
  lemma {:induction false} RunsTakePrefix(runs: seq<Run>, clean: Params -> Params, digest: Params -> Text)
    ensures var s := AfterRuns(runs, clean, digest);
            HasTaken(s.processed, s.output, LogOf(runs), TakenBy(runs, clean, digest), clean, digest)
  {
    if runs != [] {
      var init, last := runs[..|runs| - 1], runs[|runs| - 1];
      var s := AfterRuns(init, clean, digest);
      RunsTakePrefix(init, clean, digest);
      OneMoreRun(s.processed, s.output, LogOf(init), last.more, TakenBy(init, clean, digest), last.maxNew, clean,
        digest);
    }
  }

  /** r runs over one log with the same limit m: min(r * m, U) rows, where a limit below 1 counts as 1. */
  lemma {:induction false} ChunkedRuns(log: seq<LogRow>, m: int, r: nat, runs: seq<Run>, clean: Params -> Params,
      digest: Params -> Text)
    requires |runs| == r && forall i :: 0 <= i < r ==> runs[i] == Run(if i == 0 then log else [], Some(m))
    ensures r > 0 ==> LogOf(runs) == log
    ensures TakenBy(runs, clean, digest) ==
            AtMost(r * Limit(Some(m), 0), if r == 0 then 0 else |Fresh(log, {}, clean, digest)|)
  {
    if r > 0 {
      ChunkedRuns(log, m, r - 1, runs[..r - 1], clean, digest);
      assert r > 1 ==> log + [] == log;
      assert r == 1 ==> [] + log == log;
      OneMoreChunk(r, Limit(Some(m), 0));
    }
  }

  lemma OneMoreChunk(r: nat, m: nat)
    requires r > 0
    ensures r * m == (r - 1) * m + m && (r - 1) * m >= 0
  {
  }

  /** An append-only log ingested in pieces without a limit gives the output of one run over the whole log. */
  lemma PiecewiseEqualsWhole(runs: seq<Run>, clean: Params -> Params, digest: Params -> Text)
    requires runs != [] && runs[|runs| - 1].maxNew.None?
    ensures var s, all := AfterRuns(runs, clean, digest), Fresh(LogOf(runs), {}, clean, digest);
            MapSeq(s.output, ParamsOf) == MapSeq(all, ParamsOf) && s.processed == Prints(all, digest)
  {
    RunsTakePrefix(runs, clean, digest);
    TakeAll(Fresh(LogOf(runs), {}, clean, digest));
  }

  /** Whatever the runs, the output never repeats a fingerprint, and its fingerprints are the processed ones. */
  lemma OutputPrintsDistinct(runs: seq<Run>, clean: Params -> Params, digest: Params -> Text)
    ensures var s := AfterRuns(runs, clean, digest);
            && s.processed == Prints(s.output, digest)
            && forall i, j :: 0 <= i < j < |s.output| ==> digest(s.output[i].params) != digest(s.output[j].params)
  {
    var s, all := AfterRuns(runs, clean, digest), Fresh(LogOf(runs), {}, clean, digest);
    RunsTakePrefix(runs, clean, digest);
    var taken := all[..TakenBy(runs, clean, digest)];
    FreshDistinct(LogOf(runs), {}, clean, digest);
    SameParamsSamePrints(s.output, taken, digest);
  }

  lemma {:induction false} SameParamsSamePrints(a: seq<OutRow>, b: seq<OutRow>, digest: Params -> Text)
    requires MapSeq(a, ParamsOf) == MapSeq(b, ParamsOf)
    ensures |a| == |b| && Prints(a, digest) == Prints(b, digest)
    ensures forall i :: 0 <= i < |a| ==> a[i].params == b[i].params
  {
    assert |a| == |MapSeq(a, ParamsOf)| == |b|;
    if a != [] {
      MapSeqTail(a, ParamsOf);
      MapSeqTail(b, ParamsOf);
      SameParamsSamePrints(a[1..], b[1..], digest);
      assert MapSeq(a, ParamsOf)[0] == MapSeq(b, ParamsOf)[0];
      forall i | 0 <= i < |a| ensures a[i].params == b[i].params {
        assert MapSeq(a, ParamsOf)[i] == MapSeq(b, ParamsOf)[i];
      }
    }
  }

  // ----- whole rows -----

  /** Rows that a run adds say where they come from. */
  lemma {:induction false} FreshHasSources(log: seq<LogRow>, processed: set<Text>, clean: Params -> Params,
      digest: Params -> Text)
    ensures forall i :: 0 <= i < |Fresh(log, processed, clean, digest)| ==>
            Fresh(log, processed, clean, digest)[i].source.Some?
  {
    if log == [] {
    } else if log[0].NoQuery? || digest(clean(log[0].params)) in processed {
      FreshHasSources(log[1..], processed, clean, digest);
    } else {
      FreshHasSources(log[1..], processed + {digest(clean(log[0].params))}, clean, digest);
    }
  }

  /** Rewriting rows that agree with `rows` in their parameters leaves exactly `rows` without sources. */
  lemma Rewritten(output: seq<OutRow>, rows: seq<OutRow>)
    requires MapSeq(output, ParamsOf) == MapSeq(rows, ParamsOf)
    ensures MapSeq(output, WithoutSource) == MapSeq(rows, WithoutSource)
  {
    assert |output| == |MapSeq(output, ParamsOf)| == |rows|;
    forall i | 0 <= i < |rows| ensures output[i].params == rows[i].params {
      assert MapSeq(output, ParamsOf)[i] == MapSeq(rows, ParamsOf)[i];
    }
  }

  /** The whole output: of the rows of a single run, those taken by earlier runs have lost their source,
      those taken by the last run have it. */
  lemma OutputRows(runs: seq<Run>, clean: Params -> Params, digest: Params -> Text)
    requires runs != []
    ensures var all := Fresh(LogOf(runs), {}, clean, digest);
            var before, k := TakenBy(runs[..|runs| - 1], clean, digest), TakenBy(runs, clean, digest);
            && before <= k <= |all|
            && AfterRuns(runs, clean, digest).output == MapSeq(all[..before], WithoutSource) + all[before..k]
  {
    var init, last := runs[..|runs| - 1], runs[|runs| - 1];
    var all := Fresh(LogOf(runs), {}, clean, digest);
    var s, before := AfterRuns(init, clean, digest), TakenBy(init, clean, digest);
    RunsTakePrefix(init, clean, digest);
    NextRows(s.processed, LogOf(init), last.more, before, clean, digest);
    TakenRows(all, before, last.maxNew);
    Rewritten(s.output, all[..before]);
    var k := TakenBy(runs, clean, digest);
    assert all[..k][before..] == all[before..k];
  }

  /** The runs have added nothing exactly when the log so far has no query. */
  lemma NothingTaken(runs: seq<Run>, clean: Params -> Params, digest: Params -> Text)
    ensures TakenBy(runs, clean, digest) == 0 <==> forall row :: row in LogOf(runs) ==> row.NoQuery?
  {
    FirstQueryIsFresh(LogOf(runs), clean, digest);
  }

  lemma {:induction false} FirstQueryIsFresh(log: seq<LogRow>, clean: Params -> Params, digest: Params -> Text)
    ensures Fresh(log, {}, clean, digest) == [] <==> forall row :: row in log ==> row.NoQuery?
  {
    if log != [] {
      assert log == [log[0]] + log[1..];
      if log[0].NoQuery? {
        FirstQueryIsFresh(log[1..], clean, digest);
      }
    }
  }

  /** Chunked ingestion equals one pass, sources included, if and only if only the last run saw a query:
      every earlier row is rewritten without its source. */
  lemma SourcesSurviveExactly(runs: seq<Run>, clean: Params -> Params, digest: Params -> Text)
    requires runs != []
    ensures var all, k := Fresh(LogOf(runs), {}, clean, digest), TakenBy(runs, clean, digest);
            && k <= |all|
            && (AfterRuns(runs, clean, digest).output == all[..k] <==>
                forall row :: row in LogOf(runs[..|runs| - 1]) ==> row.NoQuery?)
  {
    var init := runs[..|runs| - 1];
    var all := Fresh(LogOf(runs), {}, clean, digest);
    var before, k := TakenBy(init, clean, digest), TakenBy(runs, clean, digest);
    OutputRows(runs, clean, digest);
    NothingTaken(init, clean, digest);
    FreshHasSources(LogOf(runs), {}, clean, digest);
    var output := MapSeq(all[..before], WithoutSource) + all[before..k];
    if before == 0 {
      assert output == all[..k];
    } else {
      assert output[0].source.None? && all[..k][0].source.Some?;
    }
  }
}
