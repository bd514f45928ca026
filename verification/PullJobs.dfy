/** Pull mode: no worker threads, a caller runs queued jobs with run_pending. */
module PullJobs {
  import opened Prelude
  import opened Sorting
  import opened Jobs
  import opened JobStores

  const QUEUED := Filter(Some(Queued), None, None)

  /** What one call of the executor leaves behind; an unknown job type fails without a call. */
  function AfterRun(job: Job, executors: set<Text>, ok: bool, now: Text): Job {
    if job.jobType !in executors then job.(status := Failed, endedAt := Some(now))
    else job.(status := if ok then Succeeded else Failed, startedAt := Some(now), endedAt := Some(now))
  }

  /** What a run leaves of a job: the outcome of the executor and both times, or a failure and only its time. */
  predicate EndedRun(before: Job, after: Job, hasExecutor: bool, ok: bool, now: Text) {
    && after.id == before.id && after.jobType == before.jobType && after.createdAt == before.createdAt
    && after.endedAt == Some(now)
    && (after.status.Succeeded? <==> hasExecutor && ok) && (after.status.Failed? <==> !hasExecutor || !ok)
    && after.startedAt == (if hasExecutor then Some(now) else before.startedAt)
  }

  function QueuedIds(store: map<JobId, Job>): set<JobId> {
    set id | id in store && store[id].status.Queued?
  }

  class JobManager {
    var store: map<JobId, Job>
    var executors: set<Text>
    /** One entry per executor call. */
    ghost var calls: seq<JobId>

    /** _run_job; it does not look at the job's status. */
    method RunJob(id: JobId, ok: bool, now: Text)
      modifies this`store, this`calls
      ensures id !in old(store) ==> store == old(store) && calls == old(calls)
      ensures id in old(store) ==> store == old(store)[id := AfterRun(old(store)[id], executors, ok, now)]
      ensures id in old(store) ==> calls == old(calls) + if old(store)[id].jobType in executors then [id] else []
      ensures id in old(store) ==> EndedRun(old(store)[id], store[id], old(store)[id].jobType in executors, ok, now)
    {
      if id !in store { return; }
      var job := store[id];
      if job.jobType !in executors {
        job := job.(status := Failed, endedAt := Some(now));
        store := store[id := job];
        return;
      }
      job := job.(status := Running, startedAt := Some(now));
      store := store[id := job];
      calls := calls + [id];
      job := job.(status := if ok then Succeeded else Failed, endedAt := Some(now));
      store := store[id := job];
    }

    /** The loop of run_pending over the rows that list_jobs returned. */
    method RunEach(rows: seq<Job>, limit: int, ok: JobId -> bool, now: Text) returns (ran: nat)
      requires Distinct(Ids(rows)) && forall i :: 0 <= i < |rows| ==>
               rows[i].id in store && store[rows[i].id] == rows[i]
      modifies this`store, this`calls
      ensures ran == (if limit < 0 then 0 else if limit < |rows| then limit else |rows|)
      ensures store == StoreAfter(old(store), Ids(rows)[..ran], executors, ok, now)
      ensures calls == old(calls) + Called(rows[..ran], executors)
    {
      ran := 0;
      ghost var before, called, ids := store, calls, Ids(rows);
      assert StoreAfter(before, ids[..0], executors, ok, now) == before;
      for i := 0 to |rows|
        invariant ran == (if limit < 0 then 0 else if limit < i then limit else i)
        invariant store == StoreAfter(before, ids[..ran], executors, ok, now)
        invariant calls == called + Called(rows[..ran], executors)
      {
        if ran >= limit { break; }
        OneMoreRan(before, rows, i, executors, ok, now);
        AppendRegroups(called, Called(rows[..i], executors), if rows[i].jobType in executors then [rows[i].id] else []);
        RunJob(rows[i].id, ok(rows[i].id), now);
        ran := ran + 1;
      }
    }

    /** run_pending, alone on the store: `rows` is what list_jobs returned at the start. */
    method RunPending(limit: int, rows: seq<Job>, ok: JobId -> bool, now: Text) returns (ran: nat)
      requires KeyedById(store) && Lists(rows, store, QUEUED)
      modifies this`store, this`calls
      ensures ran == (if limit < 0 then 0 else if limit < |rows| then limit else |rows|)
      ensures |rows| == |old(QueuedIds(store))|
      ensures |QueuedIds(store)| == |old(QueuedIds(store))| - ran
      ensures store == StoreAfter(old(store), Ids(rows)[..ran], executors, ok, now)
      ensures calls == old(calls) + Called(rows[..ran], executors)
      ensures store.Keys == old(store).Keys
      ensures forall i :: 0 <= i < ran ==>
                var id := rows[i].id;
                id in old(store)
                && EndedRun(old(store)[id], store[id], old(store)[id].jobType in executors, ok(id), now)
      ensures forall id :: id in old(store) && (forall i :: 0 <= i < ran ==> rows[i].id != id) ==>
                store[id] == old(store)[id]
    {
      RowIds(rows, store);
      ghost var before := store;
      ran := RunEach(rows, limit, ok, now);
      QueuedAfter(rows, before, ran, executors, ok, now);
      RanEnded(before, rows, ran, executors, ok, now);
    }
  }

  /** The store once the jobs with these ids have run. */
  function StoreAfter(before: map<JobId, Job>, ids: seq<JobId>, executors: set<Text>, ok: JobId -> bool,
      now: Text): map<JobId, Job>
  {
    map id | id in before :: if id in ids then AfterRun(before[id], executors, ok(id), now) else before[id]
  }

  lemma OneMoreRan(before: map<JobId, Job>, rows: seq<Job>, i: nat, executors: set<Text>, ok: JobId -> bool, now: Text)
    requires i < |rows| && Distinct(Ids(rows)) && rows[i].id in before && before[rows[i].id] == rows[i]
    ensures var store, id := StoreAfter(before, Ids(rows)[..i], executors, ok, now), rows[i].id;
            && store[id] == rows[i]
            && store[id := AfterRun(rows[i], executors, ok(id), now)] ==
              StoreAfter(before, Ids(rows)[..i + 1], executors, ok, now)
    ensures Called(rows[..i + 1], executors) ==
            Called(rows[..i], executors) + if rows[i].jobType in executors then [rows[i].id] else []
  {
    var ids := Ids(rows);
    TakeOneMore(ids, i);
    TakeOneMore(rows, i);
    assert ids[i] !in ids[..i];
  }

  lemma RanEnded(before: map<JobId, Job>, rows: seq<Job>, ran: nat, executors: set<Text>, ok: JobId -> bool, now: Text)
    requires ran <= |rows| && forall i :: 0 <= i < |rows| ==> rows[i].id in before
    ensures var store := StoreAfter(before, Ids(rows)[..ran], executors, ok, now);
            && store.Keys == before.Keys
            && (forall i :: 0 <= i < ran ==>
                  var id := rows[i].id;
                  id in before && EndedRun(before[id], store[id], before[id].jobType in executors, ok(id), now))
            && forall id :: id in before && (forall i :: 0 <= i < ran ==> rows[i].id != id) ==> store[id] == before[id]
  {
    var done := Ids(rows)[..ran];
    forall i | 0 <= i < ran ensures rows[i].id in done {
      assert done[i] == rows[i].id;
    }
    forall id | id in before && (forall i :: 0 <= i < ran ==> rows[i].id != id) ensures id !in done {
      assert forall i :: 0 <= i < ran ==> done[i] == rows[i].id;
    }
  }

  /** The executor calls for these jobs, in order. */
  function Called(rows: seq<Job>, executors: set<Text>): seq<JobId> {
    if rows == [] then []
    else
      var last := rows[|rows| - 1];
      Called(rows[..|rows| - 1], executors) + if last.jobType in executors then [last.id] else []
  }

  function IdOf(job: Job): JobId { job.id }

  function Ids(rows: seq<Job>): seq<JobId> {
    MapSeq(rows, IdOf)
  }

  /** A listing of the queued jobs names each queued id once. */
  lemma RowIds(rows: seq<Job>, store: map<JobId, Job>)
    requires KeyedById(store) && Lists(rows, store, QUEUED)
    ensures Distinct(Ids(rows))
    ensures Elements(Ids(rows)) == QueuedIds(store)
    ensures |rows| == |QueuedIds(store)|
    ensures forall i :: 0 <= i < |rows| ==> rows[i].id in store && store[rows[i].id] == rows[i]
  {
    var ids := Ids(rows);
    forall i | 0 <= i < |rows| ensures rows[i].id in store && store[rows[i].id] == rows[i] && rows[i].status.Queued? {
      assert rows[i] in rows;
    }
    forall id | id in QueuedIds(store) ensures id in ids {
      assert JobMatches(QUEUED, store[id]);
      var i :| 0 <= i < |rows| && rows[i] == store[id];
      assert ids[i] == id;
    }
    assert Elements(ids) == QueuedIds(store);
    DistinctCardinality(ids);
  }

  lemma QueuedAfter(rows: seq<Job>, before: map<JobId, Job>, ran: nat, executors: set<Text>, ok: JobId -> bool,
      now: Text)
    requires KeyedById(before) && Lists(rows, before, QUEUED) && ran <= |rows|
    ensures |QueuedIds(StoreAfter(before, Ids(rows)[..ran], executors, ok, now))| == |QueuedIds(before)| - ran
  {
    RowIds(rows, before);
    var done := Ids(rows)[..ran];
    DistinctCardinality(done);
    assert Elements(done) <= Elements(Ids(rows));
    QueuedUnlessRun(before, done, executors, ok, now);
  }

  lemma QueuedUnlessRun(before: map<JobId, Job>, done: seq<JobId>, executors: set<Text>, ok: JobId -> bool, now: Text)
    ensures QueuedIds(StoreAfter(before, done, executors, ok, now)) == QueuedIds(before) - Elements(done)
  {
  }

  /** Two callers that both listed the job before either ran it call its executor twice. */
  method TwoPullCallers(m: JobManager, job: Job, now: Text)
    requires m.store == map[job.id := job] && job.status.Queued? && job.jobType in m.executors && m.calls == []
    modifies m
    ensures m.calls == [job.id, job.id]
  {
    var first, second := [job], [job];
    m.RunJob(first[0].id, true, now);
    m.RunJob(second[0].id, true, now);
  }

  // ----- any number of callers -----

  /** Where a caller stands inside _run_job. */
  datatype Hand =
    | Free
    | Fetched(job: Job)
    | Calling(job: Job)

  /** The store, the executor calls so far, and for each caller the listed ids it has yet to run and its place. */
  datatype PullState = PullState(
    store: map<JobId, Job>,
    calls: seq<JobId>,
    pending: map<nat, seq<JobId>>,
    hands: map<nat, Hand>)

  /** Jobs are submitted at any time.  A caller takes a listing, dropping what is left of the one before, and goes
      through _run_job with its next row: it reads the job, saves it as running and calls the executor, or saves
      it as failed if there is none, and after the call saves the outcome. */
  datatype Event =
    | Submit(id: JobId, jobType: Text, now: Text)
    | List(caller: nat, rows: seq<Job>)
    | Fetch(caller: nat)
    | Refuse(caller: nat, now: Text)
    | Call(caller: nat, now: Text)
    | Save(caller: nat, ok: bool, now: Text)

  function Waiting(s: PullState, caller: nat): seq<JobId> {
    if caller in s.pending then s.pending[caller] else []
  }

  function HandOf(s: PullState, caller: nat): Hand {
    if caller in s.hands then s.hands[caller] else Free
  }

  ghost predicate Possible(s: PullState, executors: set<Text>, e: Event) {
    match e
    case Submit(id, _, _) => id !in s.store
    case List(caller, rows) => HandOf(s, caller).Free? && Lists(rows, s.store, QUEUED)
    case Fetch(caller) => HandOf(s, caller).Free? && Waiting(s, caller) != []
    case Refuse(caller, _) => HandOf(s, caller).Fetched? && HandOf(s, caller).job.jobType !in executors
    case Call(caller, _) => HandOf(s, caller).Fetched? && HandOf(s, caller).job.jobType in executors
    case Save(caller, _, _) => HandOf(s, caller).Calling?
  }

  function Saved(s: PullState, job: Job, caller: nat, hand: Hand): PullState {
    s.(store := s.store[job.id := job], hands := s.hands[caller := hand])
  }

  ghost function Next(s: PullState, executors: set<Text>, e: Event): PullState
    requires Possible(s, executors, e)
  {
    match e
    case Submit(id, jobType, now) => s.(store := s.store[id := Job(id, jobType, Queued, now, None, None)])
    case List(caller, rows) => s.(pending := s.pending[caller := Ids(rows)])
    case Fetch(caller) =>
      var waiting := Waiting(s, caller);
      s.(pending := s.pending[caller := waiting[1..]],
         hands := s.hands[caller := if waiting[0] in s.store then Fetched(s.store[waiting[0]]) else Free])
    case Refuse(caller, now) =>
      Saved(s, HandOf(s, caller).job.(status := Failed, endedAt := Some(now)), caller, Free)
    case Call(caller, now) =>
      var job := HandOf(s, caller).job.(status := Running, startedAt := Some(now));
      Saved(s, job, caller, Calling(job)).(calls := s.calls + [job.id])
    case Save(caller, ok, now) =>
      var job := HandOf(s, caller).job;
      Saved(s, job.(status := if ok then Succeeded else Failed, endedAt := Some(now)), caller, Free)
  }

  /** Left alone, a caller's steps through _run_job do what RunJob does. */
  lemma StepsAreRunJob(s: PullState, executors: set<Text>, caller: nat, ok: bool, now: Text)
    requires HandOf(s, caller).Free? && Waiting(s, caller) != [] && KeyedById(s.store)
    ensures var id, read := Waiting(s, caller)[0], Next(s, executors, Fetch(caller));
            && read.store == s.store && read.calls == s.calls
            && (HandOf(read, caller).Free? <==> id !in s.store)
            && (id in s.store && s.store[id].jobType !in executors ==>
                  && Possible(read, executors, Refuse(caller, now))
                  && Next(read, executors, Refuse(caller, now)).calls == s.calls
                  && Next(read, executors, Refuse(caller, now)).store ==
                     s.store[id := AfterRun(s.store[id], executors, ok, now)])
            && (id in s.store && s.store[id].jobType in executors ==>
                  && Possible(read, executors, Call(caller, now))
                  && var called := Next(read, executors, Call(caller, now));
                  && Possible(called, executors, Save(caller, ok, now))
                  && Next(called, executors, Save(caller, ok, now)).calls == s.calls + [id]
                  && Next(called, executors, Save(caller, ok, now)).store ==
                     s.store[id := AfterRun(s.store[id], executors, ok, now)])
  {
  }

  // ----- when executors are called at most once -----

  /** The stored status tells whether a job's executor has been called. */
  ghost predicate CallRecorded(s: PullState, executors: set<Text>, id: JobId) {
    id in s.calls <==> id in s.store && s.store[id].jobType in executors && !s.store[id].status.Queued?
  }

  /** A caller holds a copy of a stored job, and during a call the job is no longer queued. */
  ghost predicate HandFits(s: PullState, executors: set<Text>, hand: Hand) {
    match hand
    case Free => true
    case Fetched(job) => job.id in s.store && s.store[job.id].jobType == job.jobType
    case Calling(job) => job.id in s.store && s.store[job.id].jobType == job.jobType && job.id in s.calls
  }

  ghost predicate Recorded(s: PullState, executors: set<Text>) {
    && KeyedById(s.store)
    && (forall id :: CallRecorded(s, executors, id))
    && forall caller :: caller in s.hands ==> HandFits(s, executors, s.hands[caller])
  }

  lemma EventKeepsRecord(s: PullState, executors: set<Text>, e: Event)
    requires Recorded(s, executors) && Possible(s, executors, e)
    ensures Recorded(Next(s, executors, e), executors)
  {
    var s' := Next(s, executors, e);
    if !e.Submit? {
      assert e.caller in s.hands ==> HandFits(s, executors, s.hands[e.caller]);
    }
    forall id ensures CallRecorded(s', executors, id) {
      assert CallRecorded(s, executors, id);
    }
    forall caller | caller in s'.hands ensures HandFits(s', executors, s'.hands[caller]) {
      assert caller in s.hands ==> HandFits(s, executors, s.hands[caller]);
    }
  }

  ghost predicate IsQueued(s: PullState, id: JobId) {
    id in s.store && s.store[id].status.Queued?
  }

  /** The guard a caller could check when it saves the job as running: the stored job is still queued. */
  ghost predicate StillQueued(s: PullState, e: Event) {
    e.Call? && HandOf(s, e.caller).Fetched? && HandOf(s, e.caller).job.id in s.store ==>
      s.store[HandOf(s, e.caller).job.id].status.Queued?
  }

  lemma DistinctAppend<T>(s: seq<T>, x: T)
    ensures Distinct(s + [x]) <==> Distinct(s) && x !in s
  {
    var t := s + [x];
    assert t[|s|] == x && forall i :: 0 <= i < |s| ==> t[i] == s[i];
    if Distinct(t) {
      forall i, j | 0 <= i < j < |s| ensures s[i] != s[j] { assert t[i] != t[j]; }
      forall i | 0 <= i < |s| ensures s[i] != x { assert t[i] != t[|s|]; }
    }
    if Distinct(s) && x !in s {
      forall i, j | 0 <= i < j < |t| ensures t[i] != t[j] {
        assert t[i] == s[i] && s[i] in s;
      }
    }
  }

  /** A step keeps the calls free of repetition if and only if it does not save a job as running that is no
      longer queued. */
  lemma EventOnceExactly(s: PullState, executors: set<Text>, e: Event)
    requires Recorded(s, executors) && Possible(s, executors, e)
    ensures Distinct(Next(s, executors, e).calls) <==> Distinct(s.calls) && StillQueued(s, e)
  {
    if e.Call? {
      var job := HandOf(s, e.caller).job;
      assert HandFits(s, executors, s.hands[e.caller]) && CallRecorded(s, executors, job.id);
      DistinctAppend(s.calls, job.id);
    }
  }

  const START := PullState(map[], [], map[], map[])

  /** states[i] is reached by the first i events. */
  ghost predicate IsHistory(states: seq<PullState>, events: seq<Event>, executors: set<Text>) {
    && |states| == |events| + 1 && states[0] == START
    && forall i :: 0 <= i < |events| ==>
         Possible(states[i], executors, events[i]) && states[i + 1] == Next(states[i], executors, events[i])
  }

  ghost predicate QueuedAtCalls(states: seq<PullState>, events: seq<Event>, n: nat)
    requires n <= |events| < |states|
  {
    forall i :: 0 <= i < n ==> StillQueued(states[i], events[i])
  }

  lemma {:induction false} HistoryRecorded(states: seq<PullState>, events: seq<Event>, executors: set<Text>, n: nat)
    requires IsHistory(states, events, executors) && n <= |events|
    ensures Recorded(states[n], executors)
  {
    if n > 0 {
      HistoryRecorded(states, events, executors, n - 1);
      assert states[n - 1 + 1] == Next(states[n - 1], executors, events[n - 1]);
      EventKeepsRecord(states[n - 1], executors, events[n - 1]);
    }
  }

  /** In pull mode, however the steps of any number of callers interleave: every executor is called at most once
      per job if and only if every job saved as running was still queued in the store at that moment. */
  lemma {:induction false} AtMostOnceExactly(states: seq<PullState>, events: seq<Event>, executors: set<Text>, n: nat)
    requires IsHistory(states, events, executors) && n <= |events|
    ensures Distinct(states[n].calls) <==> QueuedAtCalls(states, events, n)
  {
    if n > 0 {
      AtMostOnceExactly(states, events, executors, n - 1);
      HistoryRecorded(states, events, executors, n - 1);
      assert states[n - 1 + 1] == Next(states[n - 1], executors, events[n - 1]);
      EventOnceExactly(states[n - 1], executors, events[n - 1]);
    }
  }

  /** The caller reads a job that is still queued. */
  ghost predicate FetchesQueued(s: PullState, e: Event) {
    e.Fetch? && Waiting(s, e.caller) != [] ==> IsQueued(s, Waiting(s, e.caller)[0])
  }

  ghost predicate QueuedFetches(states: seq<PullState>, events: seq<Event>)
    requires |states| == |events| + 1
  {
    forall i :: 0 <= i < |events| ==> FetchesQueued(states[i], events[i])
  }

  /** s ends a history in which every caller read its jobs while they were queued. */
  ghost predicate ReachedByQueuedFetches(s: PullState, executors: set<Text>) {
    exists states: seq<PullState>, events: seq<Event> ::
      IsHistory(states, events, executors) && states[|events|] == s && QueuedFetches(states, events)
  }

  lemma HistoryGrows(states: seq<PullState>, events: seq<Event>, executors: set<Text>, e: Event, s': PullState)
    requires IsHistory(states, events, executors) && Possible(states[|events|], executors, e)
    requires s' == Next(states[|events|], executors, e)
    ensures IsHistory(states + [s'], events + [e], executors)
  {
    var more := states + [s'];
    forall i | 0 <= i < |events| + 1
      ensures Possible(more[i], executors, (events + [e])[i])
      ensures more[i + 1] == Next(more[i], executors, (events + [e])[i])
    {
      assert more[i] == states[i];
    }
  }

  lemma ReachNext(s: PullState, e: Event, s': PullState, executors: set<Text>)
    requires ReachedByQueuedFetches(s, executors) && Possible(s, executors, e) && s' == Next(s, executors, e)
    requires FetchesQueued(s, e)
    ensures ReachedByQueuedFetches(s', executors)
  {
    var states: seq<PullState>, events: seq<Event> :|
      IsHistory(states, events, executors) && states[|events|] == s && QueuedFetches(states, events);
    HistoryGrows(states, events, executors, e, s');
    assert QueuedFetches(states + [s'], events + [e]);
    assert (states + [s'])[|events + [e]|] == s';
  }

  lemma OnlyJobListed(job: Job)
    requires job.status.Queued?
    ensures Lists([job], map[job.id := job], QUEUED)
    ensures Ids([job]) == [job.id]
  {
  }

  /** Two callers with the only job, listed but not yet read. */
  lemma BothListed(job: Job, executors: set<Text>, s: PullState)
    requires job == Job(job.id, job.jobType, Queued, job.createdAt, None, None)
    requires s == PullState(map[job.id := job], [], map[0 := [job.id], 1 := [job.id]], map[])
    ensures ReachedByQueuedFetches(s, executors)
  {
    assert IsHistory([START], [], executors);
    OnlyJobListed(job);
    var s1 := PullState(map[job.id := job], [], map[], map[]);
    ReachNext(START, Submit(job.id, job.jobType, job.createdAt), s1, executors);
    var s2 := s1.(pending := map[0 := [job.id]]);
    ReachNext(s1, List(0, [job]), s2, executors);
    ReachNext(s2, List(1, [job]), s, executors);
  }

  lemma BothFetched(job: Job, executors: set<Text>, s: PullState)
    requires job == Job(job.id, job.jobType, Queued, job.createdAt, None, None)
    requires s == PullState(map[job.id := job], [], map[0 := [], 1 := []], map[0 := Fetched(job), 1 := Fetched(job)])
    ensures ReachedByQueuedFetches(s, executors)
  {
    var s3 := PullState(map[job.id := job], [], map[0 := [job.id], 1 := [job.id]], map[]);
    BothListed(job, executors, s3);
    assert [job.id][1..] == [];
    var s4 := s3.(pending := map[0 := [], 1 := [job.id]], hands := map[0 := Fetched(job)]);
    ReachNext(s3, Fetch(0), s4, executors);
    ReachNext(s4, Fetch(1), s, executors);
  }

  /** It is not enough that every caller reads the job while it is queued: two callers that both do, before either
      saves it as running, both call its executor. */
  lemma BothFetchQueued(job: Job, now: Text, executors: set<Text>)
    requires job == Job(job.id, job.jobType, Queued, job.createdAt, None, None) && job.jobType in executors
    ensures exists s :: ReachedByQueuedFetches(s, executors) && s.calls == [job.id, job.id]
  {
    var s := PullState(map[job.id := job], [], map[0 := [], 1 := []], map[0 := Fetched(job), 1 := Fetched(job)]);
    BothFetched(job, executors, s);
    var s' := Next(s, executors, Call(0, now));
    ReachNext(s, Call(0, now), s', executors);
    var s'' := Next(s', executors, Call(1, now));
    ReachNext(s', Call(1, now), s'', executors);
    assert s''.calls == [job.id, job.id];
  }

  // ----- one caller -----

  ghost predicate OneCaller(events: seq<Event>, caller: nat) {
    forall i :: 0 <= i < |events| && !events[i].Submit? ==> events[i].caller == caller
  }

  /** The ids are all different and still queued. */
  ghost predicate AllQueued(s: PullState, ids: seq<JobId>) {
    Distinct(ids) && forall i :: 0 <= i < |ids| ==> IsQueued(s, ids[i])
  }

  /** What the caller has yet to run is queued, also what it has just read, and it is not busy with any of it. */
  ghost predicate AheadQueued(s: PullState, caller: nat) {
    && AllQueued(s, Waiting(s, caller))
    && (HandOf(s, caller).Fetched? ==> IsQueued(s, HandOf(s, caller).job.id))
    && (!HandOf(s, caller).Free? ==> HandOf(s, caller).job.id !in Waiting(s, caller))
  }

  lemma ListedAreQueued(s: PullState, rows: seq<Job>)
    requires KeyedById(s.store) && Lists(rows, s.store, QUEUED)
    ensures AllQueued(s, Ids(rows))
  {
    RowIds(rows, s.store);
    forall i | 0 <= i < |rows| ensures IsQueued(s, Ids(rows)[i]) {
      assert rows[i] in rows;
    }
  }

  lemma RestQueued(s: PullState, ids: seq<JobId>)
    requires AllQueued(s, ids) && ids != []
    ensures AllQueued(s, ids[1..]) && ids[0] !in ids[1..] && IsQueued(s, ids[0])
  {
    forall i | 0 <= i < |ids[1..]| ensures IsQueued(s, ids[1..][i]) && ids[1..][i] != ids[0] {
      assert ids[1..][i] == ids[i + 1];
    }
  }

  lemma OthersQueued(s: PullState, s': PullState, ids: seq<JobId>, id: JobId)
    requires AllQueued(s, ids) && id !in ids
    requires forall x :: x != id && x in s.store ==> x in s'.store && s'.store[x] == s.store[x]
    ensures AllQueued(s', ids)
  {
    forall i | 0 <= i < |ids| ensures IsQueued(s', ids[i]) {
      assert ids[i] in ids && IsQueued(s, ids[i]);
    }
  }

  lemma OneCallerStep(s: PullState, executors: set<Text>, e: Event, caller: nat)
    requires Recorded(s, executors) && Possible(s, executors, e) && (e.Submit? || e.caller == caller)
    requires AheadQueued(s, caller)
    ensures StillQueued(s, e) && AheadQueued(Next(s, executors, e), caller)
  {
    var s' := Next(s, executors, e);
    match e
    case Submit(id, _, _) => OthersQueued(s, s', Waiting(s, caller), id);
    case List(_, rows) => ListedAreQueued(s, rows);
    case Fetch(_) => RestQueued(s, Waiting(s, caller));
    case _ => OthersQueued(s, s', Waiting(s, caller), HandOf(s, caller).job.id);
  }

  lemma {:induction false} OneCallerIsSafe(
      states: seq<PullState>, events: seq<Event>, executors: set<Text>, caller: nat, n: nat)
    requires IsHistory(states, events, executors) && n <= |events| && OneCaller(events, caller)
    ensures AheadQueued(states[n], caller) && QueuedAtCalls(states, events, n)
  {
    if n > 0 {
      OneCallerIsSafe(states, events, executors, caller, n - 1);
      HistoryRecorded(states, events, executors, n - 1);
      assert states[n - 1 + 1] == Next(states[n - 1], executors, events[n - 1]);
      OneCallerStep(states[n - 1], executors, events[n - 1], caller);
    }
  }

  /** Over any number of run_pending calls by one caller, and any submissions in between, every executor is
      called at most once per job. */
  lemma OneCallerAtMostOnce(states: seq<PullState>, events: seq<Event>, executors: set<Text>, caller: nat, n: nat)
    requires IsHistory(states, events, executors) && n <= |events| && OneCaller(events, caller)
    ensures Distinct(states[n].calls)
  {
    OneCallerIsSafe(states, events, executors, caller, n);
    AtMostOnceExactly(states, events, executors, n);
  }
}
