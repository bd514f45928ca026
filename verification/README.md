# SolrGuard verification model

SolrGuard replays queries against a baseline Solr index and against a shadow index that carries a
planned change, measures how the rankings move, and gates the change.  This project models the
algorithms and protocols behind that in Dafny and proves what they promise:

- hybrid blending of lexical and vector results and the sweep over blend weights
  (`Blend`, `BlendOrder`, `Crossing`, `Sweep`, `NormalizedBlend`, on top of `Stats`);
- ranking metrics (`Metrics`), reservoir sampling (`Reservoir`), percentiles (`Percentiles`) and
  cursor paging (`CursorPaging`);
- the life of the shadow collection on a cluster whose calls can fail (`Shadow`);
- the job manager, its two stores and its pull mode (`Jobs`, `JobStores`, `PullJobs`);
- the schema graph, preflight and the schema operations, and how they relate
  (`Schema`, `Preflight`, `ApplySchema`, `PreflightSoundness`);
- text patches in a configset and incremental query ingestion
  (`TextLines`, `ConfigsetPatcher`, `PatchIdempotence`, `Ingest`);
- replay comparison, rewrite selection and segment reports (`ReplayDiff`, `DiffSelection`, `Segments`).

`dafny verify dfyconfig.toml` checks everything.

## How the model is stated

Floating-point numbers are `real`, and decimal thresholds are exact rationals (60 percent of k is
`5 * overlap < 3 * k`).  The square root is a parameter `sqrt`; where its value matters it is assumed to
be a square root of non-negative numbers.  The order in which a Python set iterates, the order in which
SQLite scans a table, the random draws, executor outcomes, timestamps, sanitizer and fingerprint are
parameters too, so that the results hold for all of them.  Code that changes things step by step is a
class or a method with a loop, proved equal to a function; the theorems are lemmas about that function.
An exception is an error value.  Interleavings of threads are sequences of atomic steps.  What a result means is
also stated without those functions, as a relation between inputs and result: predicates named `...Explained`, in
the contracts of the methods, and lemmas named `...Exactly`.

## Where the code and its description, or an obvious expectation, part ways

- A top-k tipping point compares the overlap with `top_k`, not with the number of documents shown.  With
  fewer than 70 percent of `top_k` candidates it is reported although nothing changes, and with a `top_k` that is
  not positive always (`Sweep.TopKTipOfSmallPool`).
- A document without a score counts as 0.0 before normalization.  minmax and zscore therefore ignore changes
  of unit exactly when all counted documents carry a score or none does, and a normalized blend exactly when
  that holds of both its inputs (`NormalizedBlend.IgnoresUnitsExactly`,
  `NormalizedBlend.RankingIgnoresUnitsExactly`; an example is `NormalizedBlend.MissingScoreBreaksInvariance`).
- The percentile of an empty list is 0.0 in every unit (`Percentiles.PercentileAffine`).
- The documentation of `shadow.allow_shared_configset_fallback` (README.md:1591) offers the shared configset
  for plain clones only.  After a failed patch workflow the code falls back to it too, without updates it falls
  back under the same condition, and both are stated exactly (`Shadow.SharedAfterFailedPatch`,
  `Shadow.ReturnsSharedExactly`).
- A run can cost an existing configset.  The upload overwrites, and cleaning up removes what the manifest calls
  isolated, so a shadow name that is in use puts the configset under it at risk, even if it holds exactly what is
  uploaded; names repeat when the name template does not mention the timestamp.  The baseline's configset is
  changed when the shadow shares it.  Both are stated exactly (`Shadow.RunCostsExactly`,
  `Shadow.BaselineChangesExactly`, `Shadow.CleanupTakesOldConfigset`, `Shadow.NamesDiffer`).
- When creating the shadow raises, nothing is cleaned up.  When that leaves the cluster as it was is stated
  exactly (`Shadow.RaiseLeavesNothingExactly`, `Shadow.PlainRaiseLeavesCloneExactly`).
- `stop` waits 1.5 seconds only, so `start` can leave two live workers (`Jobs.TwoLiveWorkers`): exactly when a
  start that adds a worker finds one alive (`Jobs.OneWorkerExactly`), and never if every stop outwaits its worker
  (`Jobs.PatientStopsSuffice`).  Executions stay at most once all the same.  In pull mode they do not: executors
  are called at most once exactly when every job is still queued in the store at the moment it is saved as running
  (`PullJobs.AtMostOnceExactly`), as with a single caller (`PullJobs.OneCallerAtMostOnce`).  That every caller
  read it while it was queued is not enough (`PullJobs.BothFetchQueued`).
- Payloads come from the baseline schema.  Single operations report every rewrite of a field if and only if the
  shadow still has the field on its baseline type (`PreflightSoundness.OpsReportedExactly`).  After a move to
  another type a filter removal on that type is not reported (`PreflightSoundness.MovedFieldIsMissed`), nor is an
  update without a type, which moves the field back (`PreflightSoundness.UntypedUpdateMovesBack`).  Over the whole
  changeset nothing is missed (`PreflightSoundness.RunIsReported`).
- A filter removal is skipped on any error whose message contains "No filter with class", also when that is part
  of the name of a missing field type (`ApplySchema.Shadow.ApplySchemaOperations`).
- `--max-new` below 1 still lets one row through (`Ingest.ChunkedRuns`).  A run drops the `source` of earlier
  rows, so several runs give the rows of a single one, sources included, exactly when only the last run saw a
  query (`Ingest.SourcesSurviveExactly`; the whole output is `Ingest.OutputRows`).
- Without a tau the value 0.0 is used, so two identical one-document lists are HIGH
  (`ReplayDiff.SelfComparison`).  A failed query is HIGH, but its first flag still names the severity of the
  lists; exactly when the two differ is `ReplayDiff.FirstFlagExactly`.
- Of several HIGH diffs under one query id the selection keeps only the first behind the slice
  (`DiffSelection.SelectionExactly`).  For a given `max_queries` all HIGH diffs are selected, as a prefix of the
  ranking, exactly when no HIGH diff behind the slice repeats a query id; for every `max_queries` exactly when
  the HIGH diffs have different query ids (`DiffSelection.AllHighSelectedExactly`,
  `DiffSelection.EveryLimitExactly`).
- A segment label does not show where the key ends.  Two keys can share labels exactly when one of them followed
  by a colon begins the other, and a key's totals are right for all diffs exactly when it is asked for once and
  shares labels with no other key (`Segments.LabelsClashExactly`, `Segments.ConservationExactly`).
- A patch run is repeatable for every file that it replaces or only merges into; for any mixture of modes the
  exact condition is that nothing new is appended after the last merge (`PatchIdempotence.RunTwiceExactly`).

## Model

| member | source | states |
|---|---|---|
| Blend.BuildScoreMap | schema_lens/vector/blend.py:16-23 | the loop builds the dictionary in which the last score of a repeated id counts and a missing score is 0.0 |
| Blend.BuildRankMap | schema_lens/vector/blend.py:26-33 | the loop builds 1-based ranks; documents without an id use up a rank |
| Blend.ToRankedDocs | schema_lens/vector/blend.py:59-65 | row i of the sorted rows gets rank i + 1 |
| Blend.RrfRows | schema_lens/vector/blend.py:92-110 | the loop scores every candidate by the specification function, or fails exactly when some divisor is zero; what that score is, Blend.BlendRankings says |
| Blend.LinearRows | schema_lens/vector/blend.py:114-132 | the linear methods score every candidate, missing scores replaced by the configured ones |
| Blend.BlendRankings | schema_lens/vector/blend.py:68-135 | in terms of the documents: the first top_k of a list that holds every listed document once, by descending score and ascending id on ties; score is the sum of the two components; under rrf each component times rrf_k plus the 1-based last position of the id is the weight (0.0 if it is not listed), under the linear methods it is the weight times the own or normalized score or the configured replacement; it fails exactly when rrf_k cancels the rank of a listed document |
| Blend.ScoreMapIsOwn | schema_lens/vector/blend.py:16-23 | the dictionary holds exactly the listed ids, each with the score of its last occurrence, 0.0 if that has none |
| Blend.NormalizeExactly | schema_lens/vector/blend.py:36-56 | minmax gives every score its share of the span between the extremes, zscore its distance from the mean in standard deviations, both 1.0 when that unit is zero, and no normalization leaves it |
| Blend.BetterRankScoresHigher | schema_lens/vector/blend.py:92-98 | under rrf with a positive weight and rrf_k from 0 on, the better-ranked of two documents listed on a side gets the larger component there |
| BlendOrder.PartsAreLinear | schema_lens/vector/blend.py:92-122 | under every method both components are the weight times a value that does not depend on the weight |
| BlendOrder.ScoreIsLine | schema_lens/vector/blend.py:92-132 | at weights 1-w and w a candidate's score is a straight line in w |
| BlendOrder.BlendRanksOnce | schema_lens/vector/blend.py:90-135 | for any pair of weights every candidate is ranked once, with its own scores, by descending score, equal scores by ascending id |
| BlendOrder.BlendIsRanking | schema_lens/vector/sensitivity.py:76-90 | at the sweep's weights 1-w and w the blend is the ranking of the candidates' lines at w |
| Crossing.OvertakerHasLargerGap | schema_lens/vector/sensitivity.py:76-90 | a document that overtakes another as the vector weight rises has the larger vector-minus-lexical value |
| Crossing.SingleCrossing | schema_lens/vector/sensitivity.py:76-90 | two documents swap at most once along the sweep, ties included |
| Crossing.FirstScoreIsEnvelope | schema_lens/vector/sensitivity.py:76-100 | the best score is a convex function of the weight, the upper envelope of the candidates' lines |
| Crossing.TauNeverIncreases | schema_lens/compare/metrics.py:19-47 | Kendall's tau against the first ranking never increases with the weight |
| Crossing.RankingIsUnique | schema_lens/vector/blend.py:114-135 | scores and weight determine the ranking |
| Sweep.ShownIds | schema_lens/vector/sensitivity.py:11-19 | the loop shows the first top_k ids, and at least one even for a limit below 1 |
| Sweep.CompareSteps | schema_lens/vector/sensitivity.py:102-121 | one comparison keeps both tipping points the first of their kind |
| Sweep.SweepQuery | schema_lens/vector/sensitivity.py:69-145 | one step per weight w, which shows the first max(top_k, 1) documents of the blend at 1-w and w and the first of them as top-1, with the first top-1 and the first top-k tipping point among adjacent steps |
| Sweep.SweepScenario | schema_lens/vector/sensitivity.py:34-156 | over sorted weights, the flips are the queries whose first and last step show different top-1 documents, and the flip percentage is 100 times their number over that of the queries; the scenario fails exactly when some query's blend divides by zero |
| Sweep.TopOneNeverReturns | schema_lens/vector/sensitivity.py:76-125 | a document that loses the top-1 place as the vector weight rises never regains it |
| Sweep.TopOneGapNeverDecreases | schema_lens/vector/sensitivity.py:76-125 | the top-1 document's vector-minus-lexical value never decreases and grows strictly when the document changes |
| Sweep.TipMeansChange | schema_lens/vector/sensitivity.py:102-113 | no tipping point means one top-1 document throughout; a tipping point names the first step that differs and the weights around it |
| Sweep.TipIffEndsDiffer | schema_lens/vector/sensitivity.py:102-128 | a top-1 tipping point is reported exactly when the smallest and the largest weight disagree on the top-1 document |
| Sweep.FullSweepDrifts | schema_lens/vector/sensitivity.py:76-125 | when top_k covers all candidates, swapped pairs stay swapped and tau against the first step never increases |
| Sweep.ChurnTipExactly | schema_lens/vector/sensitivity.py:103-121 | a top-k tipping point is reported exactly when some adjacent steps share less than 70 percent of top_k (any do, if top_k is not positive), and describes the first such pair: its weights, churn, and exactly the ids that came and went |
| Sweep.TopKTipOfSmallPool | schema_lens/vector/sensitivity.py:103-121 | over at least two weights, when top_k covers all candidates a top-k tipping point is reported exactly when they fill less than 70 percent of top_k, and when top_k is not positive always |
| NormalizedBlend.NormalizationIgnoresScale | schema_lens/vector/blend.py:36-56 | minmax and zscore give the same values after replacing every score by a*x+b with a > 0 |
| NormalizedBlend.ScaledExactlyWhenScored | schema_lens/vector/blend.py:16-23 | changing the reported scores by f changes the dictionary by f exactly when f keeps 0.0 or no counted score is missing |
| NormalizedBlend.IgnoresUnitsExactly | schema_lens/vector/blend.py:16-56 | minmax and zscore ignore every change of unit a*x+b, a > 0, of the reported scores if and only if all counted documents carry a score or none does |
| NormalizedBlend.BlendIgnoresScoreScale | schema_lens/vector/blend.py:114-135 | with normalize_linear, rescaling each input, by any a > 0 and b unless its scores are mixed with missing ones, leaves every blended score and the whole ranking unchanged at every weight |
| NormalizedBlend.RankingIgnoresUnitsExactly | schema_lens/vector/blend.py:68-135 | the normalized blend's rankings ignore every change of unit of both inputs if and only if in each input all counted documents carry a score or none does |
| NormalizedBlend.RrfIgnoresScores | schema_lens/vector/blend.py:92-110 | reciprocal rank fusion gives the same ranking, or the same zero divisor, after any change of the scores |
| NormalizedBlend.MinMaxRange | schema_lens/vector/blend.py:41-46 | minmax values lie in [0, 1] |
| NormalizedBlend.MinMaxKeepsOrder | schema_lens/vector/blend.py:41-46 | minmax keeps the strict order of scores |
| NormalizedBlend.ZScoreKeepsOrder | schema_lens/vector/blend.py:48-54 | zscore keeps the strict order of scores |
| NormalizedBlend.ZScoreMoments | schema_lens/vector/blend.py:48-54 | non-degenerate zscores sum to 0, their squares sum to n, and no square exceeds n - 1 |
| NormalizedBlend.MissingScoreBreaksInvariance | schema_lens/vector/blend.py:16-46 | an example of the failing half of IgnoresUnitsExactly: two documents, one without a score, change places when 5.0 is added to every reported score |
| Metrics.KendallTauAtK | schema_lens/compare/metrics.py:19-47 | over the first list's common entries, tau times the number of pairs in the same or in opposite order on both sides is the number of the former less that of the latter; None below two common entries |
| Metrics.CountPairs | schema_lens/compare/metrics.py:28-42 | the outer loop counts every unordered pair of common ids once |
| Metrics.CompareWithLater | schema_lens/compare/metrics.py:32-42 | the inner loop sorts each later id into concordant, discordant or neither by the sign of the rank product |
| Metrics.CountsPartitionPairs | schema_lens/compare/metrics.py:28-44 | over n common ids every pair is concordant or discordant |
| Metrics.TriangleClosedForm | schema_lens/compare/metrics.py:28-44 | the number of pairs is n(n-1)/2 |
| Metrics.CommonIsOverlap | schema_lens/compare/metrics.py:6-22 | the common list is duplicate-free and as long as the overlap |
| Metrics.JaccardIsShare | schema_lens/compare/metrics.py:10-16 | the Jaccard ratio lies in [0, 1] and is 1 exactly when both lists have the same members |
| Metrics.JaccardExactly | schema_lens/compare/metrics.py:10-16 | the ratio times the size of the union is the size of the intersection, and 1 for two empty lists |
| Metrics.TauInRange | schema_lens/compare/metrics.py:44-47 | tau lies in [-1, 1] and is known exactly from two common ids on |
| Metrics.TauSymmetric | schema_lens/compare/metrics.py:19-47 | swapping the arguments does not change tau, although the common ids are then listed in another order |
| Metrics.TauOneIffOrderKept | schema_lens/compare/metrics.py:19-47 | tau is 1 exactly when the common ids keep their relative order |
| Metrics.TauMinusOneIffReversed | schema_lens/compare/metrics.py:19-47 | tau is -1 exactly when every common pair is turned round |
| Metrics.TauNegatedByReversal | schema_lens/compare/metrics.py:19-47 | reversing one list negates tau |
| Reservoir.SampleReservoir | schema_lens/queries/sampler.py:42-62 | slot j of the in-place sample holds the last row drawn into it, or row j if none was; all rows are returned when there is nothing to choose |
| Reservoir.SlotsExactly | schema_lens/queries/sampler.py:51-62 | the position that the specification function gives slot j is the last one whose draw is j, or j |
| Reservoir.SlotsDistinct | schema_lens/queries/sampler.py:51-62 | the reservoir always holds k distinct row positions |
| Reservoir.AllDrawsFit | schema_lens/queries/sampler.py:58 | the counted draw vectors are exactly those randint can return |
| Reservoir.AllDrawsCardinality | schema_lens/queries/sampler.py:54-58 | there are (k+m)!/k! runs over k+m rows |
| Reservoir.EverySampleEquallyLikely | schema_lens/queries/sampler.py:51-62 | every set of k rows is the sample of exactly m! runs, so all samples are equally likely |
| Reservoir.EveryRowEquallyLikely | schema_lens/queries/sampler.py:51-62 | n times the runs that keep a given row equals k times all runs |
| Percentiles.PercentileIsClamped | schema_lens/perf/percentiles.py:6-20 | all branches are one rule: interpolate the sorted list at the clamped position |
| Percentiles.PercentileExactly | schema_lens/perf/percentiles.py:6-20 | a hundred times the percentile of n samples is (100 - r) times the ordered value at q plus r times the next, where (n - 1) times the clamped pct is 100 q + r; 0.0 without samples |
| Percentiles.PercentileDominance | schema_lens/perf/percentiles.py:6-20 | lists that are pointwise at most another's have percentiles at most the other's |
| Percentiles.PercentileMonotone | schema_lens/perf/percentiles.py:6-20 | percentiles do not decrease in pct, for all integers pct |
| Percentiles.PercentileOfPermutation | schema_lens/perf/percentiles.py:13 | the order of the samples does not matter |
| Percentiles.PercentileInRange | schema_lens/perf/percentiles.py:6-20 | percentiles of a non-empty list lie between its minimum and maximum |
| Percentiles.PercentileAffine | schema_lens/perf/percentiles.py:6-20 | a change of unit a*x+b with a >= 0 carries through exactly when the list is not empty or b is 0 |
| CursorPaging.SampleDocs | schema_lens/data/cursormark.py:9-51 | against a server that keeps the cursorMark contract the loop ends with the first min(sample_n, N) documents, for every batch size from 1 on |
| Shadow.Cluster.PostSchemaCommand | schema_lens/solr/schema_api.py:15-38 | a schema command that takes effect changes the configset the collection uses, and nothing else |
| Shadow.PatchWorkflow | schema_lens/shadow/manager.py:118-161 | the patch workflow fails exactly under the guards of PatchFails with its first failure; otherwise the configset is the promoted one if the promotion works and the upload if not, and a promotion that was asked for and did not work is always and alone a warning |
| Shadow.LossExactly | schema_lens/shadow/manager.py:118-161 | the patch step alone costs an existing configset if and only if it has the upload's name, the upload took effect, and it held other content or is removed after the promotion |
| Shadow.PatchFailsExactly | schema_lens/shadow/manager.py:118-170 | the patch workflow fails exactly when the workspace, the upload, an unexpected promotion error or an unexpected error on removing the upload fails it |
| Shadow.ChooseConfigset | schema_lens/shadow/manager.py:117-194 | whatever fails, exactly the specified configset is chosen; it is the shared one exactly when fallback is allowed, patching failed if there are updates, and the clone was refused or raised a request error; otherwise it is new |
| Shadow.ChoiceExactly | schema_lens/shadow/manager.py:117-194 | choosing works exactly under the stated guards; then the name, the flags and each warning (promotion, patch workflow, shared configset) hold exactly under theirs, and otherwise the error is the workflow's or the clone's |
| Shadow.SharedExactly | schema_lens/shadow/manager.py:117-194 | the condition for the shared configset in guards: fallback is allowed, there is nothing to patch or patching fails, and the clone's name is taken by then or cloning raises a request error |
| Shadow.SharedAfterFailedPatch | schema_lens/shadow/manager.py:162-179 | whenever the workspace cannot be prepared, fallback is allowed and the clone raises a request error, the shadow runs on the baseline's configset and the schema commands change that |
| Shadow.ApplySchemaCommands | schema_lens/changesets/apply_schema.py:167-215 | exactly the commands up to the first failure reach the configset, the failing one only if it took effect, and its error is returned |
| Shadow.IssueCalls | schema_lens/shadow/manager.py:97-220 | the calls, with all their failures, change the cluster and end exactly as the specification function says |
| Shadow.CreateShadow | schema_lens/shadow/manager.py:97-220 | create_shadow returns exactly under the stated guards and else raises the first failure; the returned names and flags and each of the three warnings hold exactly under their guards; on every path existing collections and configsets are kept, only the baseline's content is exposed, and only if falling back is allowed; the shadow runs on the patched or baseline content plus all commands |
| Shadow.ReturnsSharedExactly | schema_lens/shadow/manager.py:97-220 | a returned manifest is not isolated under exactly the condition for the shared configset |
| Shadow.ChoosesQuietlyExactly | schema_lens/shadow/manager.py:117-194 | choosing the configset changes nothing if and only if nothing is cloned, and an upload that takes effect finds its content in place and no promotion takes effect |
| Shadow.RaiseLeavesNothingExactly | schema_lens/cli.py:2616-2631 | after a raise the cluster is as before if and only if the baseline is missing, or those guards hold and the collection's name was in use, creating it had no effect, or no configset could be chosen |
| Shadow.PlainRaiseLeavesCloneExactly | schema_lens/cli.py:2616-2631 | without text updates a raise leaves a configset behind if and only if the clone took effect |
| Shadow.CleanupShadow | schema_lens/shadow/manager.py:223-231 | which of the two removals takes effect, when both work, and the error otherwise: the collection first, and the configset only if it is isolated, the first removal worked and no collection uses it |
| Shadow.RunCalls | schema_lens/cli.py:2616-2631 | create and cleanup, with all their failures, change the cluster exactly as the specification function says |
| Shadow.Run | schema_lens/cli.py:2616-2631 | created and deleted are true exactly under the stated guards; under any failures nothing that existed is lost when the upload's name is unused; without failures cleaning up restores the cluster |
| Shadow.RunCostsExactly | schema_lens/cli.py:2616-2631 | a run loses or changes an existing configset if and only if its upload is removed after the promotion without a clone in its place, or cleaning up removes it, or upload, clone and the commands posted on it leave other content |
| Shadow.RunLeavesExactly | schema_lens/cli.py:2616-2631 | under a name that was unused a run leaves exactly: the promoted configset if the promotion took effect, the clone or the upload that was not removed, each with the commands that reached it, and nothing of the shadow's own configset once cleaning up has removed it |
| Shadow.BaselineChangesExactly | schema_lens/shadow/manager.py:97-220 | a configset under another name than the upload's is changed if and only if it is the baseline's, the shadow shares it, the collection is created, and the first schema command takes effect |
| Shadow.CleanupTakesOldConfigset | schema_lens/shadow/manager.py:223-231 | under a name in use, an unpromoted upload and cleanup without any failure lose the old configset, whatever it held |
| Shadow.NamesDiffer | schema_lens/shadow/naming.py:8-9 | names rendered at different seconds differ exactly when the template mentions the timestamp |
| Shadow.NameParts | schema_lens/shadow/naming.py:8-9 | literal text of the template stays, and the placeholders give way to the collection and the timestamp |
| Jobs.StepKeepsInv | schema_lens/api/jobs.py:125-215 | every step of every thread keeps the global invariant: each unfinished job has exactly one owner |
| Jobs.StepMoves | schema_lens/api/jobs.py:189-215 | a stored job moves only queued to running or failed, and running to succeeded or failed |
| Jobs.AtMostOnce | schema_lens/api/jobs.py:125-215 | in every run each executor is called at most once per job, exactly once for a succeeded one, and ended_at is set exactly on finished jobs |
| Jobs.LifeCycle | schema_lens/api/jobs.py:125-215 | in every run jobs are never forgotten, their status never goes back, and finished jobs never change |
| Jobs.NoJobLost | schema_lens/api/jobs.py:143-175 | a job is unfinished exactly while it is between save and put, in the queue, or in a worker's hands |
| Jobs.OutcomeIsStored | schema_lens/api/jobs.py:205-215 | in every run a job whose executor returned is later found succeeded, one whose executor raised failed, ended at that moment |
| Jobs.RefusalIsStored | schema_lens/api/jobs.py:193-199 | in every run a job without an executor is later found failed, ended when it was looked up |
| Jobs.RefusedIsNeverExecuted | schema_lens/api/jobs.py:193-199 | in no run is an executor called for such a job |
| Jobs.StartIsStored | schema_lens/api/jobs.py:201-203 | in every run a job with an executor is from its start on found with the time of its lookup as started_at |
| Jobs.SubmissionIsKept | schema_lens/api/jobs.py:133-143 | a submitted job is stored as queued, and keeps its type and creation time in every later state |
| Jobs.QueueIsFifo | schema_lens/api/jobs.py:149-169 | in every run the workers have taken from the queue, in order, what was put into it first |
| Jobs.SomeJobSucceeds | schema_lens/api/jobs.py:189-215 | a state with a succeeded job is reachable, for every job with an executor |
| Jobs.WorkerEndsExactly | schema_lens/api/jobs.py:60-76 | a worker ends exactly when it looks at the flag and no start has added a worker since the last stop |
| Jobs.TwoLiveWorkers | schema_lens/api/jobs.py:60-76 | an example: stop and start with a busy executor reach a state with two live workers |
| Jobs.OneWorkerExactly | schema_lens/api/jobs.py:60-76 | in every run, up to every moment, there was never more than one live worker if and only if every start that added a worker found none alive |
| Jobs.PatientStopsSuffice | schema_lens/api/jobs.py:69-76 | if every stop forgets its thread only once that is dead, at most the known thread is ever alive |
| JobStores.FileJobStore.ListJobs | schema_lens/api/storage.py:45-66 | the loop over the sorted files lists each stored job of the asked status, type and time once and no other, newest first |
| JobStores.SqliteJobStore.WriteJob | schema_lens/api/storage.py:101-123 | the upsert keeps every row's columns equal to its payload |
| JobStores.SqliteJobStore.ListJobs | schema_lens/api/storage.py:140-171 | the query lists each stored payload of the asked status, type and time once and no other, newest first, for every scan order |
| JobStores.ListingLists | schema_lens/api/storage.py:45-66 | a listing holds each matching job once, in descending created_at |
| JobStores.WriteAll | schema_lens/api/storage.py:28-123 | saving the same jobs on both stores leaves files and rows that the next lemma is about |
| JobStores.BackendsAgree | schema_lens/api/storage.py:28-171 | after the same writes both stores answer every query with the same jobs and the same sequence of timestamps |
| PullJobs.JobManager.RunJob | schema_lens/api/jobs.py:189-215 | runs the executor whatever the job's status is, or fails the job when no executor is registered |
| PullJobs.JobManager.RunPending | schema_lens/api/jobs.py:177-187 | with one caller, min(max(limit, 0), queued) jobs run, each once, and the queued count drops by that number |
| PullJobs.TwoPullCallers | schema_lens/api/jobs.py:177-187 | an example: two callers that list before either runs call the executor twice |
| PullJobs.StepsAreRunJob | schema_lens/api/jobs.py:189-215 | a caller's steps, left alone, add up to the whole of _run_job |
| PullJobs.EventKeepsRecord | schema_lens/api/jobs.py:177-215 | every step of every caller keeps the record: an executor has been called for a job exactly when the job has one and is no longer queued, and callers hold copies of stored jobs |
| PullJobs.EventOnceExactly | schema_lens/api/jobs.py:202-207 | a step keeps the executor calls free of repetition if and only if it does not save a job as running that is no longer queued in the store |
| PullJobs.AtMostOnceExactly | schema_lens/api/jobs.py:177-215 | over every interleaving of submissions, listings, reads, saves and calls of any number of callers, executors are called at most once per job if and only if every job was still queued in the store when it was saved as running |
| PullJobs.BothFetchQueued | schema_lens/api/jobs.py:189-207 | two callers that both read the job while it is queued both call its executor |
| PullJobs.OneCallerAtMostOnce | schema_lens/api/jobs.py:177-187 | over any number of run_pending calls by one caller, with submissions in between, executors are called at most once per job |
| Schema.BuildSchemaGraph | schema_lens/schema/graph.py:31-77 | in terms of the schema: each name has the type of its last typed definition, the inverse indexes list under each type exactly its names in ascending order, and the copyField rules are the schema's |
| Schema.InverseInverts | schema_lens/schema/graph.py:59-69 | the inverse index is the forward map read backwards, its lists strictly ascending |
| Schema.TypeMapRecords | schema_lens/schema/graph.py:34-39 | with unique names the forward map records exactly the typed fields |
| Preflight.RunPreflight | schema_lens/schema/preflight.py:69-217 | in terms of schema and operations: operation i has a HIGH finding exactly if it replaces a field type that, or whose replacement, is the type of the destination of a copyField rule, and lists exactly those rules; a MEDIUM one exactly if a rule has an end of a touched type, with exactly those rules; a LOW one per touched type in use, with its fields and dynamic fields; findings come in this order, each severity is counted, and the run is blocked exactly if asked to and a HIGH hazard exists |
| Preflight.BlocksExactly | schema_lens/schema/preflight.py:209-217 | the findings include a HIGH one if and only if some operation replaces the type of the destination of a copyField rule or brings it in |
| Preflight.AnalyzeTypes | schema_lens/schema/preflight.py:104-123 | one LOW finding per touched type that has users |
| Preflight.AnalyzeRules | schema_lens/schema/preflight.py:125-159 | the loop collects the copyField rules at risk and the destination hazards; which rules those are, Preflight.RunPreflight says |
| ApplySchema.Shadow.ApplySchemaOperations | schema_lens/changesets/apply_schema.py:157-215 | in terms of baseline and operations: after the run each field is as the last operation that posts it says (an update sets its patch over the baseline's keys, a replacement changes the type alone), each field type as the last removal on it left it, all else unchanged; the run works exactly if everything looked up and posted is defined; one that raises has carried out exactly the operations before the first that does not work; the report lists the operations that posted |
| ApplySchema.RunOnField | schema_lens/changesets/apply_schema.py:40-62 | after a run that works, with the last FieldUpdate of a field every key of its patch has the patch's value, every other key the baseline's, and the type is the patch's or else the baseline's; with a replacement only the type differs |
| ApplySchema.RunOnType | schema_lens/changesets/apply_schema.py:117-154 | after a run that works, the named side's own analyzer, or the common one if that side has none, has lost exactly the matching filters, and all other blocks are the baseline's |
| ApplySchema.RunWorksExactly | schema_lens/changesets/apply_schema.py:157-215 | a run works if and only if every operation finds what it looks up and posts, or is a removal with nothing to strip |
| ApplySchema.RunStopsExactly | schema_lens/changesets/apply_schema.py:157-215 | a run that raises has carried out exactly the operations before the first that does not work, but for posts of that one if it is a replacement |
| ApplySchema.NormalizeExactly | schema_lens/changesets/apply_schema.py:68-77 | a normalized class name is the name without "solr." and "FilterFactory", reduced to its letters and digits, capitals made small |
| ApplySchema.EraseFirst | schema_lens/changesets/apply_schema.py:68-77 | replacing a pattern by nothing takes out its first occurrence and goes on behind it |
| ApplySchema.KeptHasNoMatch | schema_lens/changesets/apply_schema.py:94-97 | exactly the matching filters are removed |
| ApplySchema.RemoveTwice | schema_lens/changesets/apply_schema.py:65-114 | removing from a stripped block removes nothing and leaves it alone |
| PreflightSoundness.RemoveFilterOnce | schema_lens/changesets/apply_schema.py:187-204 | applied to a schema that already went through it, the operation posts nothing |
| PreflightSoundness.ImpactedExactly | schema_lens/schema/preflight.py:104-123 | a field is in an operation's impact findings exactly when its baseline type is touched |
| PreflightSoundness.RulesAtRisk | schema_lens/schema/preflight.py:125-177 | the operation's compatibility finding lists exactly the rules with a touched end |
| PreflightSoundness.HighComesWithMedium | schema_lens/schema/preflight.py:146-194 | an operation's HIGH finding comes with a MEDIUM one |
| PreflightSoundness.OpIsReported | schema_lens/changesets/apply_schema.py:40-62 | an operation that rewrites the type or chain of a field still on its baseline type reports the field and every copyField rule at it |
| PreflightSoundness.OpsReportedExactly | schema_lens/changesets/apply_schema.py:157-215 | every operation that would rewrite a field in a live schema reports it if and only if the field is still on its baseline type there |
| PreflightSoundness.UntypedUpdateMovesBack | schema_lens/changesets/apply_schema.py:40-47 | updating a field without naming a type moves it from any other type back to its baseline type, and is not reported |
| PreflightSoundness.RunIsReported | schema_lens/changesets/apply_schema.py:157-215 | a field that ends, after the whole run or up to an error, on another type or chain than in the baseline is reported by some operation, together with every copyField rule that starts or ends at it |
| PreflightSoundness.RunCollects | schema_lens/schema/preflight.py:76-78 | every operation's findings are in the run's findings |
| PreflightSoundness.MovedFieldIsMissed | schema_lens/changesets/apply_schema.py:174-205 | an example for any two types: a field moved from one to the other is missed by a later filter removal on the second |
| TextLines.SplitOfJoin | schema_lens/shadow/configset_patcher.py:19-30 | writing lines and reading them back gives the same lines |
| TextLines.SplitExactly | schema_lens/shadow/configset_patcher.py:19-22 | the lines read contain no break, and with a separator behind each, a carriage return and line feed counting as one, they are the text |
| TextLines.JoinOfAppend | schema_lens/shadow/configset_patcher.py:25-30 | writing puts a line feed behind every line |
| TextLines.StripExactly | schema_lens/shadow/configset_patcher.py:36-37 | stripping leaves the part between the first and the last character that is not a blank |
| TextLines.CleanExactly | schema_lens/shadow/configset_patcher.py:47-57 | cleaning keeps exactly the lines that are not blank, stripped, in their order |
| TextLines.BlanksListed | schema_lens/shadow/configset_patcher.py:19-37 | the characters that strip removes and those at which splitlines breaks, as a list |
| ConfigsetPatcher.DedupeMerge | schema_lens/shadow/configset_patcher.py:33-44 | the loop keeps the first occurrence of every stripped non-blank line |
| ConfigsetPatcher.DedupeExactly | schema_lens/shadow/configset_patcher.py:33-44 | merging keeps the lines at exactly the positions where they occur for the first time, in their order |
| ConfigsetPatcher.ApplyPatch | schema_lens/shadow/configset_patcher.py:47-58 | the three modes; any other mode raises |
| ConfigsetPatcher.ModeExactly | schema_lens/shadow/configset_patcher.py:47-58 | replace writes the clean lines of the patch, append those of both files, merge the first occurrences among these |
| ConfigsetPatcher.Workspace.PatchFile | schema_lens/shadow/configset_patcher.py:105-130 | one entry: its own mode, else the change's, else replace, its own source, else the change's; each error under its condition, and otherwise the target alone gets the lines of that mode |
| ConfigsetPatcher.Workspace.ApplyConfigsetUpdates | schema_lens/shadow/configset_patcher.py:92-143 | the nested loops take the files from state to state, change by change and entry by entry, each as PatchFile says, up to the first error; a target outside the configset is noticed after it was written |
| PatchIdempotence.EditsIdempotentExactly | schema_lens/shadow/configset_patcher.py:33-58 | edits of one file in any modes, applied twice, leave what they left the first time if and only if there are none, one replaces, or the lines appended after the last merge are already there (without any merge: there are no such lines) |
| PatchIdempotence.EditsAreIdempotent | schema_lens/shadow/configset_patcher.py:33-58 | in particular any sequence of replacements and merges |
| PatchIdempotence.RunEdits | schema_lens/shadow/configset_patcher.py:101-130 | each file ends with its own edits applied to what it held |
| PatchIdempotence.RunTwiceExactly | schema_lens/shadow/configset_patcher.py:92-143 | a run whose sources are not targets, complete or failed, repeats with the same files and the same error if and only if that condition holds of every file's edits |
| PatchIdempotence.RunTwice | schema_lens/shadow/configset_patcher.py:92-143 | in particular a run of replacements and merges |
| PatchIdempotence.UntargetedUnchanged | schema_lens/shadow/configset_patcher.py:126-130 | files that are not targets keep their content, whatever the modes and however the run ends |
| Ingest.Ingester.Ingest | schema_lens/cli.py:1025-1064 | in terms of the log: the rows so far keep their parameters and lose their source; behind them come, in log order and up to the limit but at least one, exactly the rows with a query whose sanitized form has a fingerprint neither processed nor in an earlier query row, with sanitized parameters and source; their fingerprints are processed from then on |
| Ingest.FreshExactly | schema_lens/cli.py:1033-1043 | the positions of the log whose rows a run can add, in ascending order, are exactly those with a new fingerprint, and each row is the sanitized one at its position |
| Ingest.FreshDistinct | schema_lens/cli.py:1033-1043 | the rows a run can add repeat no fingerprint and none already processed |
| Ingest.RunsTakePrefix | schema_lens/cli.py:1025-1064 | the queries that any runs over a growing log add, with any limits, are a prefix of those of one unlimited run over the whole log |
| Ingest.OutputRows | schema_lens/cli.py:1025-1064 | the whole rows: those of earlier runs are the rows of a single run without their source, those of the last run have it |
| Ingest.SourcesSurviveExactly | schema_lens/cli.py:1046-1053 | the output equals, sources included, that prefix of one run if and only if the log before the last run held no query |
| Ingest.ChunkedRuns | schema_lens/cli.py:1033-1044 | r runs with limit m over one log add min(r * max(m, 1), U) rows |
| Ingest.PiecewiseEqualsWhole | schema_lens/cli.py:1025-1064 | an append-only log ingested in pieces gives the queries and the processed fingerprints of one run |
| Ingest.OutputPrintsDistinct | schema_lens/cli.py:1025-1064 | the output repeats no fingerprint and its fingerprints are the processed ones |
| ReplayDiff.CompareReplay | schema_lens/compare/diff.py:38-209 | each diff in terms of its own pair: both lists are the first k ids present, dropped is what only the baseline list has and added what only the shadow list has, in order; moved holds exactly the common ids with different ranks, with the 1-based rank on each side, largest displacement first; overlap, its ratio, Jaccard, tau and instability are those of the two lists; severity and every flag hold exactly under their thresholds; the summary's means and percentages are those of the diffs, and the top regressions the first twenty of the diffs by severity, overlap and tau |
| ReplayDiff.DiffExactly | schema_lens/compare/diff.py:43-147 | one diff of the specification function is as the row above says |
| ReplayDiff.RankingExactly | schema_lens/compare/diff.py:184-191 | the ranking holds every diff once: HIGH before MEDIUM before LOW, then the smaller overlap, then the smaller tau with a missing one as 1.0, ties in their order |
| ReplayDiff.PercentagesAddUp | schema_lens/compare/diff.py:204-205 | the shares of HIGH, MEDIUM and LOW add up to 100 percent |
| Stats.PercentExactly | schema_lens/compare/diff.py:204-205 | a percentage times the total is 100 times the part, and 0.0 of an empty total |
| ReplayDiff.AverageRatioScales | schema_lens/compare/diff.py:149-158 | the average overlap ratio is the average overlap divided by k |
| ReplayDiff.FirstFlagExactly | schema_lens/compare/diff.py:13-32 | a failed query is HIGH; the first flag names another severity than the diff exactly when a query failed and the lists alone would not be HIGH |
| ReplayDiff.ListsSplit | schema_lens/compare/diff.py:54-91 | each list is its common part plus what only it has, and the common part is as long as the overlap |
| ReplayDiff.MovedAreChanged | schema_lens/compare/diff.py:79-88 | the moved documents are those whose rank changed, with their displacement |
| ReplayDiff.InstabilityIsMovedShare | schema_lens/compare/sort.py:6-13 | the instability ratio is the share of the common documents that are listed as moved |
| ReplayDiff.DeltasCancel | schema_lens/compare/diff.py:71-88 | when both lists hold the same documents the displacements sum to zero |
| ReplayDiff.SelfComparison | schema_lens/compare/diff.py:13-24 | a list compared with itself is LOW exactly from two documents on and from four fifths of k on |
| DiffSelection.SelectDiffs | schema_lens/compare/rewrite_diff.py:176-196 | the slice of a ranking by severity, overlap and tau, and behind it, if asked for, exactly the HIGH diffs that are the first with a query id not in the slice, in that order |
| DiffSelection.HighFirst | schema_lens/compare/explain_fetcher.py:13-21 | in the ranking the HIGH diffs come first |
| DiffSelection.SelectionExactly | schema_lens/compare/rewrite_diff.py:176-196 | for all diffs: the slice of the ranking, followed by the first HIGH diff under each query id not seen before |
| DiffSelection.AllHighSelectedExactly | schema_lens/compare/rewrite_diff.py:176-196 | every HIGH diff is selected, as a prefix of the ranking, if and only if no HIGH diff behind the slice repeats a query id from before it |
| DiffSelection.EveryLimitExactly | schema_lens/compare/rewrite_diff.py:176-196 | that holds for every max_queries if and only if the HIGH diffs have pairwise different query ids |
| DiffSelection.SelectionIsRankedPrefix | schema_lens/compare/rewrite_diff.py:176-196 | with distinct query ids the selection is the first max(slice length, number of HIGH) of the ranking, without repetition |
| DiffSelection.SharedQueryIdIsLost | schema_lens/compare/rewrite_diff.py:187-195 | an example: of two HIGH diffs under one query id, behind an empty slice, the second is left out |
| Segments.AggregateBySegment | schema_lens/segments/grouping.py:10-56 | in terms of the diffs: one row per label that some diff gives with some key asked for, in order of first appearance; its total, HIGH count, HIGH percentage and mean overlap ratio are those of exactly the diffs with that label; the top rows are by larger HIGH share, then smaller overlap, then position |
| Segments.ReportExactly | schema_lens/segments/grouping.py:18-45 | the rows of the specification function are as the row above says |
| Segments.LabelsClashExactly | schema_lens/segments/grouping.py:26 | two different keys have values with the same label if and only if one key followed by a colon begins the other |
| Segments.ColonFreeKeysAreAlone | schema_lens/segments/grouping.py:26 | distinct keys without colons never share labels |
| Segments.Conservation | schema_lens/segments/grouping.py:18-40 | for a key asked for once that shares labels with no other, totals, HIGH counts and overlap sums are those of the diffs that carry it |
| Segments.ConservationExactly | schema_lens/segments/grouping.py:18-40 | the totals are right for all diffs if and only if the key is such a key |
| Segments.ReportConservation | schema_lens/segments/grouping.py:42-45 | also after averaging, total times average overlap sums to the overlap of the diffs that carry the key |
| Segments.WorstSegmentCoversGlobal | schema_lens/segments/grouping.py:47-50 | if every diff carries a key, the first row's HIGH share is at least the global one |

## Left out

- IEEE rounding, infinities and NaN: scores, ratios and thresholds are reals; sums are taken in ascending id order rather than dictionary order.
- Python's `str()` and `float()` coercions of ids, scores and segment values, and non-dict rows that the loops skip: the inputs are already of the right types.
- The outer dictionary of `run_hybrid_sensitivity`: scenario names, the test for hybrid mode and malformed pairs; `Sweep.SweepScenario` starts from the queries of one hybrid scenario.
- `sample_top`, `_pick_doc_ids` and `_index_in_batches`: short loops that would add only easy members.
- Random number generation: `Reservoir` counts all draw vectors; that `randint` draws them with equal probability is not part of this model.
- Score deltas, facet differences and numFound deltas of a replay diff, and their two summary figures: independent columns.
- CursorPaging.SampleDocs: requires the server to keep the cursorMark contract; without it the source's loop need not end.
- Resolution of relative source and target paths: `ConfigsetPatcher` starts from resolved paths, and the per-file report of line counts is not modelled.
- Directory hashing, archive download and extraction: `Shadow` takes the prepared workspace, or the error that preparing it raised, as an input.
- Failures inside Solr that change state without any reply, and other clients changing the cluster during a run.
- PullJobs.AtMostOnceExactly: counts an executor call from the save as running that leads to it, with nothing in between; executors are registered before the first event.
- PreflightSoundness.RunIsReported: a copyField rule is at a field when it names the field; a rule whose pattern only matches it counts as not touching it, as in `run_preflight`.
- The in-memory job returned by `submit`, artifacts and request snapshots: `Jobs` describes the stored jobs. Inline mode is the sequence of one submit and one `PullJobs.JobManager.RunJob`.
- The order of the three steps of `stop`: in the model they may happen in any order and at any time, which allows more runs than the code does.
- Job payloads without `created_at` or with a status outside the four: every stored job comes from the manager.
- Schema entries without a name, and operations whose arguments are not strings: the changeset validator refuses the latter and is not part of this model.
- PreflightSoundness.OpIsReported: is about fields that have a type in the baseline, as every field of a Solr schema has.
- PreflightSoundness.OpIsReported: needs the field to be on its baseline type when the operation runs; `PreflightSoundness.OpsReportedExactly` shows that it must be.
- The JSONL and JSON encoding of the ingested rows, and SHA-256 collisions: `Ingest` holds for every sanitizer and every fingerprint function.
- HTTP, retries, authentication, the API routes, HTML reports, validators, plugins, root-cause rules and gate policies.
- ApplySchema.RunStopsExactly: of a field type replacement that is refused half-way it does not say which of its fields have been changed.
- Error texts, output paths and metadata of jobs, and error texts of a failed changeset or patch run: an error is only its kind.
- The cleaning of a diff's segment dictionary (schema_lens/segments/model.py): `Segments` starts from cleaned segments.
