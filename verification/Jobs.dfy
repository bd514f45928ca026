/** The in-process job manager: submitters, a queue, worker threads, and stop/start, interleaved freely.

    Every step is one action that the threads can interleave: one queue operation, one store
    operation, one executor call. */
module Jobs {
  import opened Prelude
  import opened Sorting

  type JobId = Text

  datatype Status = Queued | Running | Succeeded | Failed

  predicate Terminal(s: Status) {
    s.Succeeded? || s.Failed?
  }

  datatype Job = Job(id: JobId, jobType: Text, status: Status, createdAt: Text, startedAt: Option<Text>,
      endedAt: Option<Text>)

  /** Where a worker thread stands in its loop. */
  datatype Worker =
    | Checking
    | Waiting
    | Got(id: JobId)
    | Loaded(job: Job)
    | Opening(job: Job)
    | Executing(job: Job)
    | Closing(job: Job)
    | Dead

  /** `saved` holds the jobs between save_job and the queue put; `executions` counts executor calls. */
  datatype State = State(
    store: map<JobId, Job>,
    executors: set<Text>,
    saved: set<JobId>,
    queue: seq<Option<JobId>>,
    running: bool,
    thread: Option<nat>,
    workers: seq<Worker>,
    executions: map<JobId, nat>)

  datatype Step =
    | Register(jobType: Text)
    | SubmitSave(id: JobId, jobType: Text, now: Text)
    | SubmitPut(id: JobId)
    | Start
    | StopFlag
    | StopPut
    | StopForget
    | Check(w: nat)
    | Get(w: nat)
    | Read(w: nat)
    | Lookup(w: nat, now: Text)
    | Open(w: nat)
    | Execute(w: nat, ok: bool, now: Text)
    | Close(w: nat)

  // ----- the steps -----

  predicate Enabled(s: State, step: Step) {
    match step
    case Register(_) => true
    case SubmitSave(id, _, _) => id !in s.store
    case SubmitPut(id) => id in s.saved
    case Start => s.thread.None? || s.thread.value < |s.workers|
    case StopFlag => true
    case StopPut => true
    case StopForget => true
    case Check(w) => w < |s.workers| && s.workers[w].Checking?
    case Get(w) => w < |s.workers| && s.workers[w].Waiting? && s.queue != []
    case Read(w) => w < |s.workers| && s.workers[w].Got?
    case Lookup(w, _) => w < |s.workers| && s.workers[w].Loaded?
    case Open(w) => w < |s.workers| && s.workers[w].Opening?
    case Execute(w, _, _) => w < |s.workers| && s.workers[w].Executing?
    case Close(w) => w < |s.workers| && s.workers[w].Closing?
  }

  function Count(executions: map<JobId, nat>, id: JobId): nat {
    if id in executions then executions[id] else 0
  }

  function Apply(s: State, step: Step): State
    requires Enabled(s, step)
  {
    match step
    case Register(jobType) => s.(executors := s.executors + {jobType})
    case SubmitSave(id, jobType, now) =>
      s.(store := s.store[id := Job(id, jobType, Queued, now, None, None)], saved := s.saved + {id})
    case SubmitPut(id) => s.(saved := s.saved - {id}, queue := s.queue + [Some(id)])
    case Start =>
      if s.thread.Some? && !s.workers[s.thread.value].Dead? then s
      else s.(running := true, thread := Some(|s.workers|), workers := s.workers + [Checking])
    case StopFlag => s.(running := false)
    case StopPut => s.(queue := s.queue + [None])
    case StopForget => s.(thread := None)
    case Check(w) => s.(workers := s.workers[w := if s.running then Waiting else Dead])
    case Get(w) =>
      var task := s.queue[0];
      s.(queue := s.queue[1..], workers := s.workers[w := if task.None? then Checking else Got(task.value)])
    case Read(w) =>
      var id := s.workers[w].id;
      s.(workers := s.workers[w := if id in s.store then Loaded(s.store[id]) else Checking])
    case Lookup(w, now) =>
      var job := s.workers[w].job;
      s.(workers := s.workers[w :=
           if job.jobType in s.executors then Opening(job.(status := Running, startedAt := Some(now)))
           else Closing(job.(status := Failed, endedAt := Some(now)))])
    case Open(w) =>
      var job := s.workers[w].job;
      s.(store := s.store[job.id := job], workers := s.workers[w := Executing(job)])
    case Execute(w, ok, now) =>
      var job := s.workers[w].job;
      s.(executions := s.executions[job.id := Count(s.executions, job.id) + 1],
         workers := s.workers[w := Closing(job.(status := if ok then Succeeded else Failed, endedAt := Some(now)))])
    case Close(w) =>
      var job := s.workers[w].job;
      s.(store := s.store[job.id := job], workers := s.workers[w := Checking])
  }

  // ----- who owns a job -----

  function HeldBy(w: Worker): Option<JobId> {
    match w
    case Got(id) => Some(id)
    case Loaded(job) => Some(job.id)
    case Opening(job) => Some(job.id)
    case Executing(job) => Some(job.id)
    case Closing(job) => Some(job.id)
    case _ => None
  }

  function One(held: Option<JobId>, id: JobId): nat {
    if held == Some(id) then 1 else 0
  }

  function Holders(workers: seq<Worker>, id: JobId): nat {
    if workers == [] then 0 else One(HeldBy(workers[0]), id) + Holders(workers[1..], id)
  }

  function Places(queue: seq<Option<JobId>>, id: JobId): nat {
    if queue == [] then 0 else One(queue[0], id) + Places(queue[1..], id)
  }

  /** How often the job stands between save and put, in the queue, or in a worker's hands. */
  function Owners(s: State, id: JobId): nat {
    One(if id in s.saved then Some(id) else None, id) + Places(s.queue, id) + Holders(s.workers, id)
  }

  lemma {:induction false} HoldersAfter(workers: seq<Worker>, w: nat, x: Worker, id: JobId)
    requires w < |workers|
    ensures Holders(workers[w := x], id) == Holders(workers, id) - One(HeldBy(workers[w]), id) + One(HeldBy(x), id)
    ensures Holders(workers, id) >= One(HeldBy(workers[w]), id)
  {
    if w == 0 {
      assert workers[0 := x] == [x] + workers[1..];
    } else {
      HoldersAfter(workers[1..], w - 1, x, id);
      assert workers[w := x] == [workers[0]] + workers[1..][w - 1 := x];
    }
  }

  lemma {:induction false} HoldersWithNewcomer(workers: seq<Worker>, x: Worker, id: JobId)
    ensures Holders(workers + [x], id) == Holders(workers, id) + One(HeldBy(x), id)
  {
    if workers == [] {
      assert workers + [x] == [x];
    } else {
      HoldersWithNewcomer(workers[1..], x, id);
      assert workers + [x] == [workers[0]] + (workers[1..] + [x]);
    }
  }

  lemma {:induction false} PlacesAfterPut(queue: seq<Option<JobId>>, task: Option<JobId>, id: JobId)
    ensures Places(queue + [task], id) == Places(queue, id) + One(task, id)
  {
    if queue == [] {
      assert queue + [task] == [task];
    } else {
      PlacesAfterPut(queue[1..], task, id);
      assert queue + [task] == [queue[0]] + (queue[1..] + [task]);
    }
  }

  /** Two workers holding the same job count twice. */
  lemma {:induction false} TwoHolders(workers: seq<Worker>, i: nat, j: nat, id: JobId)
    requires i < j < |workers| && HeldBy(workers[i]) == Some(id) == HeldBy(workers[j])
    ensures Holders(workers, id) >= 2
  {
    if i == 0 {
      HoldersAfter(workers[1..], j - 1, Dead, id);
    } else {
      TwoHolders(workers[1..], i - 1, j - 1, id);
    }
  }

  // ----- the invariant -----

  ghost predicate JobFits(s: State, id: JobId) {
    id in s.store ==>
      var job, n := s.store[id], Count(s.executions, id);
      && job.id == id
      && (Terminal(job.status) <==> job.endedAt.Some?)
      && n <= 1
      && (job.status.Queued? ==> n == 0)
      && (job.status.Succeeded? ==> n == 1)
  }

  predicate Unfinished(s: State, id: JobId) {
    id in s.store && !Terminal(s.store[id].status)
  }

  /** An unfinished job has exactly one owner, any other id none. */
  ghost predicate OwnerFits(s: State, id: JobId) {
    Owners(s, id) == if Unfinished(s, id) then 1 else 0
  }

  predicate WaitsFresh(s: State, id: JobId) {
    id in s.store && s.store[id].status.Queued?
  }

  ghost predicate WaiterFits(s: State, id: JobId) {
    id in s.saved || Places(s.queue, id) > 0 ==> WaitsFresh(s, id)
  }

  ghost predicate WorkerFits(s: State, w: Worker) {
    match w
    case Got(id) => WaitsFresh(s, id)
    case Loaded(job) => WaitsFresh(s, job.id) && s.store[job.id] == job
    case Opening(job) => WaitsFresh(s, job.id) && job.status.Running? && job.endedAt.None?
    case Executing(job) =>
      job.id in s.store && s.store[job.id] == job && job.status.Running? && Count(s.executions, job.id) == 0
    case Closing(job) =>
      && job.id in s.store && Terminal(job.status) && job.endedAt.Some?
      && (if s.store[job.id].status.Queued? then job.status.Failed?
          else s.store[job.id].status.Running? && Count(s.executions, job.id) == 1)
    case _ => true
  }

  ghost predicate JobsFit(s: State) { forall id :: JobFits(s, id) }

  ghost predicate OwnersFit(s: State) { forall id :: OwnerFits(s, id) }

  ghost predicate WaitersFit(s: State) { forall id :: WaiterFits(s, id) }

  ghost predicate WorkersFit(s: State) { forall w :: 0 <= w < |s.workers| ==> WorkerFits(s, s.workers[w]) }

  ghost predicate Inv(s: State) {
    JobsFit(s) && OwnersFit(s) && WaitersFit(s) && WorkersFit(s) && s.executions.Keys <= s.store.Keys
  }

  function Initial(executors: set<Text>): State {
    State(map[], executors, {}, [], false, None, [], map[])
  }

  lemma InitialFits(executors: set<Text>)
    ensures Inv(Initial(executors))
  {
  }

  /** The job a step writes about, if it writes about one. */
  function Subject(s: State, step: Step): Option<JobId>
    requires Enabled(s, step)
  {
    match step
    case SubmitSave(id, _, _) => Some(id)
    case Open(w) => Some(s.workers[w].job.id)
    case Execute(w, _, _) => Some(s.workers[w].job.id)
    case Close(w) => Some(s.workers[w].job.id)
    case _ => None
  }

  lemma OthersUntouched(s: State, step: Step, id: JobId)
    requires Enabled(s, step) && Subject(s, step) != Some(id)
    ensures var s' := Apply(s, step);
            (id in s'.store <==> id in s.store) && (id in s.store ==> s'.store[id] == s.store[id])
            && Count(s'.executions, id) == Count(s.executions, id)
  {
  }

  predicate ByWorker(step: Step) {
    step.Check? || step.Get? || step.Read? || step.Lookup? || step.Open? || step.Execute? || step.Close?
  }

  lemma WorkerStepKeepsOwner(s: State, step: Step, w: nat, x: Worker, id: JobId)
    requires ByWorker(step) && step.w == w && Enabled(s, step) && OwnerFits(s, id)
    requires WorkerFits(s, s.workers[w]) && (step.Read? ==> JobFits(s, s.workers[w].id))
             && x == Apply(s, step).workers[w]
    ensures OwnerFits(Apply(s, step), id)
  {
    HoldersAfter(s.workers, w, x, id);
    assert Apply(s, step).workers == s.workers[w := x];
  }

  lemma StepKeepsOwner(s: State, step: Step, id: JobId)
    requires Enabled(s, step) && OwnerFits(s, id) && JobsFit(s) && WorkersFit(s)
    ensures OwnerFits(Apply(s, step), id)
  {
    if ByWorker(step) {
      assert WorkerFits(s, s.workers[step.w]) && (step.Read? ==> JobFits(s, s.workers[step.w].id));
      WorkerStepKeepsOwner(s, step, step.w, Apply(s, step).workers[step.w], id);
    } else {
      OtherStepKeepsOwner(s, step, id);
    }
  }

  lemma OtherStepKeepsOwner(s: State, step: Step, id: JobId)
    requires Enabled(s, step) && !ByWorker(step) && OwnerFits(s, id)
    ensures OwnerFits(Apply(s, step), id)
  {
    match step
    case SubmitPut(i) => PlacesAfterPut(s.queue, Some(i), id);
    case Start => HoldersWithNewcomer(s.workers, Checking, id);
    case StopPut => PlacesAfterPut(s.queue, None, id);
    case _ =>
  }

  /** A job in one worker's hands is nowhere else. */
  lemma SoleOwner(s: State, w: nat, id: JobId)
    requires OwnerFits(s, id) && w < |s.workers| && HeldBy(s.workers[w]) == Some(id)
    ensures id !in s.saved && Places(s.queue, id) == 0
    ensures forall v :: 0 <= v < |s.workers| && v != w ==> HeldBy(s.workers[v]) != Some(id)
  {
    HoldersAfter(s.workers, w, Dead, id);
    forall v | 0 <= v < |s.workers| && v != w ensures HeldBy(s.workers[v]) != Some(id) {
      if HeldBy(s.workers[v]) == Some(id) {
        TwoHolders(s.workers, if v < w then v else w, if v < w then w else v, id);
      }
    }
  }

  lemma StepKeepsWaiter(s: State, step: Step, id: JobId)
    requires Enabled(s, step) && OwnerFits(s, id) && WaiterFits(s, id)
    ensures WaiterFits(Apply(s, step), id)
  {
    match step
    case SubmitPut(i) => PlacesAfterPut(s.queue, Some(i), id);
    case StopPut => PlacesAfterPut(s.queue, None, id);
    case Open(w) => if s.workers[w].job.id == id { SoleOwner(s, w, id); }
    case Close(w) => if s.workers[w].job.id == id { SoleOwner(s, w, id); }
    case _ =>
  }

  lemma StepKeepsJob(s: State, step: Step, id: JobId)
    requires Enabled(s, step) && JobFits(s, id) && WorkersFit(s) && s.executions.Keys <= s.store.Keys
    ensures JobFits(Apply(s, step), id)
  {
    if Subject(s, step) != Some(id) {
      OthersUntouched(s, step, id);
    } else if !step.SubmitSave? {
      assert WorkerFits(s, s.workers[step.w]);
    }
  }

  /** Another worker's step leaves this worker's facts alone. */
  lemma BystanderFits(s: State, step: Step, v: nat)
    requires Enabled(s, step) && OwnersFit(s) && WorkersFit(s)
    requires v < |s.workers| && Apply(s, step).workers[v] == s.workers[v]
    requires ByWorker(step) ==> step.w != v
    ensures WorkerFits(Apply(s, step), s.workers[v])
  {
    var held := HeldBy(s.workers[v]);
    assert WorkerFits(s, s.workers[v]);
    if held.Some? {
      if Subject(s, step) == held && !step.SubmitSave? {
        assert OwnerFits(s, held.value);
        SoleOwner(s, step.w, held.value);
      } else if Subject(s, step) != held {
        OthersUntouched(s, step, held.value);
      }
    }
  }

  lemma ActorFits(s: State, step: Step)
    requires Enabled(s, step) && ByWorker(step) && Inv(s)
    ensures WorkerFits(Apply(s, step), Apply(s, step).workers[step.w])
  {
    var x := s.workers[step.w];
    assert WorkerFits(s, x);
    match step
    case Get(w) => if s.queue[0].Some? { assert WaiterFits(s, s.queue[0].value); }
    case Read(w) => assert JobFits(s, x.id);
    case Lookup(w, _) => assert JobFits(s, x.job.id);
    case Open(w) => assert JobFits(s, x.job.id);
    case _ =>
  }

  lemma StepKeepsWorker(s: State, step: Step, v: nat)
    requires Inv(s) && Enabled(s, step) && v < |Apply(s, step).workers|
    ensures WorkerFits(Apply(s, step), Apply(s, step).workers[v])
  {
    if ByWorker(step) && step.w == v {
      ActorFits(s, step);
    } else if v < |s.workers| {
      BystanderFits(s, step, v);
    }
  }

  /** Every step of every thread keeps the invariant. */
  lemma StepKeepsInv(s: State, step: Step)
    requires Inv(s) && Enabled(s, step)
    ensures Inv(Apply(s, step))
  {
    var s' := Apply(s, step);
    forall id ensures JobFits(s', id) { assert JobFits(s, id); StepKeepsJob(s, step, id); }
    forall id ensures OwnerFits(s', id) { assert OwnerFits(s, id); StepKeepsOwner(s, step, id); }
    forall id ensures WaiterFits(s', id) { assert OwnerFits(s, id) && WaiterFits(s, id); StepKeepsWaiter(s, step, id); }
    forall v | 0 <= v < |s'.workers| ensures WorkerFits(s', s'.workers[v]) { StepKeepsWorker(s, step, v); }
    if step.Execute? { assert WorkerFits(s, s.workers[step.w]); }
  }

  // ----- what a client of the store sees -----

  /** The moves a stored job may make. */
  predicate Moves(before: Job, after: Job) {
    || after == before
    || (before.status.Queued? && (after.status.Running? || after.status.Failed?))
    || (before.status.Running? && Terminal(after.status))
  }

  /** One step moves a job along its life cycle, and never moves a finished one. */
  lemma StepMoves(s: State, step: Step, id: JobId)
    requires Inv(s) && Enabled(s, step) && id in s.store
    ensures var s' := Apply(s, step); id in s'.store && Moves(s.store[id], s'.store[id])
    ensures Count(s.executions, id) <= Count(Apply(s, step).executions, id)
  {
    if step.Open? || step.Close? {
      assert WorkerFits(s, s.workers[step.w]);
    }
  }

  ghost predicate IsRun(states: seq<State>, steps: seq<Step>, executors: set<Text>) {
    && |states| == |steps| + 1 && states[0] == Initial(executors)
    && forall i :: 0 <= i < |steps| ==> Enabled(states[i], steps[i]) && states[i + 1] == Apply(states[i], steps[i])
  }

  lemma {:induction false} RunsFit(states: seq<State>, steps: seq<Step>, executors: set<Text>, i: nat)
    requires IsRun(states, steps, executors) && i < |states|
    ensures Inv(states[i])
  {
    if i > 0 {
      RunsFit(states, steps, executors, i - 1);
      assert states[i - 1 + 1] == Apply(states[i - 1], steps[i - 1]);
      StepKeepsInv(states[i - 1], steps[i - 1]);
    } else {
      InitialFits(executors);
    }
  }

  /** In every run, at every moment: at most one execution per job, and end times exactly on finished jobs. */
  lemma AtMostOnce(states: seq<State>, steps: seq<Step>, executors: set<Text>, i: nat, id: JobId)
    requires IsRun(states, steps, executors) && i < |states|
    ensures Count(states[i].executions, id) <= 1
    ensures id in states[i].store ==> (Terminal(states[i].store[id].status) <==> states[i].store[id].endedAt.Some?)
    ensures id in states[i].store && states[i].store[id].status.Succeeded? ==> Count(states[i].executions, id) == 1
  {
    RunsFit(states, steps, executors, i);
    if id in states[i].store {
      assert JobFits(states[i], id);
    }
  }

  function StatusRank(s: Status): nat {
    match s
    case Queued => 0
    case Running => 1
    case _ => 2
  }

  /** In every run a job is never forgotten, its status never goes back, and once finished it never changes again. */
  lemma {:induction false} LifeCycle(states: seq<State>, steps: seq<Step>, executors: set<Text>, i: nat, j: nat,
      id: JobId)
    requires IsRun(states, steps, executors) && i <= j < |states| && id in states[i].store
    ensures id in states[j].store
    ensures StatusRank(states[i].store[id].status) <= StatusRank(states[j].store[id].status)
    ensures Terminal(states[i].store[id].status) ==> states[j].store[id] == states[i].store[id]
    ensures Count(states[i].executions, id) <= Count(states[j].executions, id)
    decreases j - i
  {
    if i < j {
      LifeCycle(states, steps, executors, i, j - 1, id);
      RunsFit(states, steps, executors, j - 1);
      assert states[j - 1 + 1] == Apply(states[j - 1], steps[j - 1]);
      StepMoves(states[j - 1], steps[j - 1], id);
    }
  }

  /** No job is lost: an unfinished job is between save and put, in the queue, or in one worker's hands. */
  lemma NoJobLost(states: seq<State>, steps: seq<Step>, executors: set<Text>, i: nat, id: JobId)
    requires IsRun(states, steps, executors) && i < |states|
    ensures Unfinished(states[i], id) <==>
            id in states[i].saved || Some(id) in states[i].queue
            || exists w :: 0 <= w < |states[i].workers| && HeldBy(states[i].workers[w]) == Some(id)
  {
    RunsFit(states, steps, executors, i);
    assert OwnerFits(states[i], id);
    PlacesInQueue(states[i].queue, id);
    HoldersHold(states[i].workers, id);
  }

  lemma {:induction false} PlacesInQueue(queue: seq<Option<JobId>>, id: JobId)
    ensures Places(queue, id) > 0 <==> Some(id) in queue
  {
    if queue != [] {
      PlacesInQueue(queue[1..], id);
      assert queue == [queue[0]] + queue[1..];
    }
  }

  lemma {:induction false} HoldersHold(workers: seq<Worker>, id: JobId)
    ensures Holders(workers, id) > 0 <==> exists w :: 0 <= w < |workers| && HeldBy(workers[w]) == Some(id)
  {
    if workers != [] {
      HoldersHold(workers[1..], id);
      if Holders(workers[1..], id) > 0 {
        var w :| 0 <= w < |workers[1..]| && HeldBy(workers[1..][w]) == Some(id);
        assert workers[w + 1] == workers[1..][w];
      }
      if w :| 0 <= w < |workers| && HeldBy(workers[w]) == Some(id) {
        assert w > 0 ==> workers[1..][w - 1] == workers[w];
      }
    }
  }

  ghost predicate Reachable(s: State, executors: set<Text>) {
    exists states: seq<State>, steps: seq<Step> :: IsRun(states, steps, executors) && states[|steps|] == s
  }

  lemma ReachStart(executors: set<Text>)
    ensures Reachable(Initial(executors), executors)
  {
    assert IsRun([Initial(executors)], [], executors);
  }

  lemma ReachStep(s: State, step: Step, s': State, executors: set<Text>)
    requires Reachable(s, executors) && Enabled(s, step) && s' == Apply(s, step)
    ensures Reachable(s', executors)
  {
    var states: seq<State>, steps: seq<Step> :| IsRun(states, steps, executors) && states[|steps|] == s;
    var more := states + [s'];
    assert IsRun(more, steps + [step], executors);
    assert more[|steps + [step]|] == s';
  }

  /** stop waits only 1.5 seconds: with an executor still busy, start adds a second live worker.  This run is an
      example of the failing half of OneWorkerExactly. */
  lemma TwoLiveWorkers(job: Job, now: Text, executors: set<Text>, s: State)
    requires job == Job(job.id, job.jobType, Running, job.createdAt, Some(now), None) && job.jobType in executors
    requires s == Initial(executors).(store := map[job.id := job], running := true, queue := [None], thread := Some(1),
                                      workers := [Executing(job), Waiting])
    ensures Reachable(s, executors)
  {
    var s8 := Initial(executors).(store := map[job.id := job], running := true, thread := Some(0),
      workers := [Executing(job)]);
    BusyWorker(job, now, executors, s8);
    var s9 := s8.(running := false);
    ReachStep(s8, StopFlag, s9, executors);
    var s10 := s9.(queue := [None]);
    ReachStep(s9, StopPut, s10, executors);
    var s11 := s10.(thread := None);
    ReachStep(s10, StopForget, s11, executors);
    var s12 := s11.(running := true, thread := Some(1), workers := [Executing(job), Checking]);
    ReachStep(s11, Start, s12, executors);
    ReachStep(s12, Check(1), s, executors);
  }

  lemma IdleWorker(job: Job, executors: set<Text>, s: State)
    requires job.status.Queued? && job.startedAt.None? && job.endedAt.None?
    requires s == Initial(executors).(store := map[job.id := job], queue := [Some(job.id)], running := true,
             thread := Some(0), workers := [Waiting])
    ensures Reachable(s, executors)
  {
    var s0 := Initial(executors);
    ReachStart(executors);
    var s1 := s0.(store := map[job.id := job], saved := {job.id});
    ReachStep(s0, SubmitSave(job.id, job.jobType, job.createdAt), s1, executors);
    var s2 := s1.(saved := {}, queue := [Some(job.id)]);
    ReachStep(s1, SubmitPut(job.id), s2, executors);
    var s3 := s2.(running := true, thread := Some(0), workers := [Checking]);
    ReachStep(s2, Start, s3, executors);
    ReachStep(s3, Check(0), s, executors);
  }

  lemma BusyWorker(job: Job, now: Text, executors: set<Text>, s: State)
    requires job == Job(job.id, job.jobType, Running, job.createdAt, Some(now), None) && job.jobType in executors
    requires s == Initial(executors).(store := map[job.id := job], running := true, thread := Some(0),
             workers := [Executing(job)])
    ensures Reachable(s, executors)
  {
    var queued := job.(status := Queued, startedAt := None);
    var s4 := Initial(executors).(store := map[job.id := queued], queue := [Some(job.id)], running := true,
      thread := Some(0), workers := [Waiting]);
    IdleWorker(queued, executors, s4);
    var s5 := s4.(queue := [], workers := [Got(job.id)]);
    ReachStep(s4, Get(0), s5, executors);
    var s6 := s5.(workers := [Loaded(queued)]);
    ReachStep(s5, Read(0), s6, executors);
    var s7 := s6.(workers := [Opening(job)]);
    ReachStep(s6, Lookup(0, now), s7, executors);
    ReachStep(s7, Open(0), s, executors);
  }

  // ----- how many workers are live -----

  ghost predicate SomeLive(s: State) {
    exists w :: 0 <= w < |s.workers| && !s.workers[w].Dead?
  }

  ghost predicate AtMostOneLive(s: State) {
    forall v, w :: 0 <= v < w < |s.workers| ==> s.workers[v].Dead? || s.workers[w].Dead?
  }

  /** start adds a worker: it knows of no live thread. */
  predicate AddsWorker(s: State, step: Step) {
    step.Start? && Enabled(s, step) && (s.thread.None? || s.workers[s.thread.value].Dead?)
  }

  lemma StepKeepsOneLiveExactly(s: State, step: Step)
    requires Enabled(s, step) && AtMostOneLive(s)
    ensures AtMostOneLive(Apply(s, step)) <==> (AddsWorker(s, step) ==> !SomeLive(s))
  {
    var s' := Apply(s, step);
    if AddsWorker(s, step) {
      var n := |s.workers|;
      assert s'.workers == s.workers + [Checking] && s'.workers[n] == Checking;
      if w :| 0 <= w < n && !s.workers[w].Dead? {
        assert s'.workers[w] == s.workers[w];
      }
    } else {
      assert |s'.workers| == |s.workers|;
      assert forall w :: 0 <= w < |s.workers| && s.workers[w].Dead? ==> s'.workers[w].Dead?;
    }
  }

  /** Every start up to the i-th step that added a worker found none alive. */
  ghost predicate StartsFindNoneLive(states: seq<State>, steps: seq<Step>, i: nat)
    requires i <= |steps| < |states|
  {
    forall k :: 0 <= k < i && AddsWorker(states[k], steps[k]) ==> !SomeLive(states[k])
  }

  ghost predicate OneLiveUpTo(states: seq<State>, i: nat)
    requires i < |states|
  {
    forall k :: 0 <= k <= i ==> AtMostOneLive(states[k])
  }

  /** In every run, up to every moment: there was never more than one live worker if and only if every start that
      added a worker found none alive. */
  lemma {:induction false} OneWorkerExactly(states: seq<State>, steps: seq<Step>, executors: set<Text>, i: nat)
    requires IsRun(states, steps, executors) && i <= |steps|
    ensures OneLiveUpTo(states, i) <==> StartsFindNoneLive(states, steps, i)
  {
    if i > 0 {
      OneWorkerExactly(states, steps, executors, i - 1);
      assert states[i - 1 + 1] == Apply(states[i - 1], steps[i - 1]);
      if AtMostOneLive(states[i - 1]) {
        StepKeepsOneLiveExactly(states[i - 1], steps[i - 1]);
      }
      if OneLiveUpTo(states, i) {
        assert OneLiveUpTo(states, i - 1) && AtMostOneLive(states[i - 1]) && AtMostOneLive(states[i]);
      }
      if StartsFindNoneLive(states, steps, i) {
        assert StartsFindNoneLive(states, steps, i - 1) && OneLiveUpTo(states, i - 1) && AtMostOneLive(states[i - 1]);
      }
    }
  }

  /** Only the thread that the manager knows of can be alive. */
  ghost predicate KnowsLive(s: State) {
    && (s.thread.Some? ==> s.thread.value < |s.workers|)
    && forall w :: 0 <= w < |s.workers| && !s.workers[w].Dead? ==> s.thread == Some(w)
  }

  /** stop has waited long enough: it forgets the thread only once that is dead. */
  predicate ForgetsDead(s: State, step: Step) {
    step.StopForget? && s.thread.Some? && s.thread.value < |s.workers| ==> s.workers[s.thread.value].Dead?
  }

  lemma StepKeepsKnown(s: State, step: Step)
    requires Enabled(s, step) && KnowsLive(s) && ForgetsDead(s, step)
    ensures KnowsLive(Apply(s, step))
  {
  }

  /** If every stop outwaits its worker, no run ever has two live workers. */
  lemma {:induction false} PatientStopsSuffice(states: seq<State>, steps: seq<Step>, executors: set<Text>, i: nat)
    requires IsRun(states, steps, executors) && i <= |steps|
    requires forall k :: 0 <= k < i ==> ForgetsDead(states[k], steps[k])
    ensures KnowsLive(states[i]) && AtMostOneLive(states[i])
  {
    if i > 0 {
      PatientStopsSuffice(states, steps, executors, i - 1);
      assert states[i - 1 + 1] == Apply(states[i - 1], steps[i - 1]);
      StepKeepsKnown(states[i - 1], steps[i - 1]);
    }
  }

  // ----- how jobs end -----

  lemma RunStep(states: seq<State>, steps: seq<Step>, executors: set<Text>, i: nat)
    requires IsRun(states, steps, executors) && i < |steps|
    ensures Inv(states[i]) && Enabled(states[i], steps[i]) && states[i + 1] == Apply(states[i], steps[i])
  {
    RunsFit(states, steps, executors, i);
  }

  /** What a worker is about to store, or has stored, as the end of a job. */
  ghost predicate EndsAs(s: State, w: nat, job: Job) {
    && w < |s.workers| && Terminal(job.status)
    && (s.workers[w] == Closing(job) || (job.id in s.store && s.store[job.id] == job))
  }

  /** Once a worker has the outcome of a job, that is what the job ends as. */
  lemma StepKeepsEnd(s: State, step: Step, w: nat, job: Job)
    requires Inv(s) && Enabled(s, step) && EndsAs(s, w, job)
    ensures EndsAs(Apply(s, step), w, job)
  {
    if job.id in s.store && s.store[job.id] == job {
      StepMoves(s, step, job.id);
    }
  }

  lemma {:induction false} EndStays(states: seq<State>, steps: seq<Step>, executors: set<Text>, i: nat, j: nat, w: nat,
      job: Job)
    requires IsRun(states, steps, executors) && i <= j < |states| && EndsAs(states[i], w, job)
    ensures EndsAs(states[j], w, job)
    decreases j - i
  {
    if i < j {
      EndStays(states, steps, executors, i, j - 1, w, job);
      RunStep(states, steps, executors, j - 1);
      StepKeepsEnd(states[j - 1], steps[j - 1], w, job);
    }
  }

  /** A finished job is in no worker's hands. */
  lemma FinishedIsReleased(s: State, w: nat, job: Job)
    requires Inv(s) && EndsAs(s, w, job) && job.id in s.store && Terminal(s.store[job.id].status)
    ensures s.store[job.id] == job
  {
    if s.workers[w] == Closing(job) {
      assert OwnerFits(s, job.id);
      HoldersAfter(s.workers, w, Dead, job.id);
    }
  }

  /** Step i is a worker's call of the executor for this job. */
  ghost predicate Executes(s: State, step: Step, id: JobId) {
    step.Execute? && Enabled(s, step) && s.workers[step.w].job.id == id
  }

  /** A job whose executor has returned is finished as succeeded, one whose executor has raised as failed, and
      ended_at is the time of that. */
  lemma OutcomeIsStored(states: seq<State>, steps: seq<Step>, executors: set<Text>, i: nat, j: nat, id: JobId)
    requires IsRun(states, steps, executors) && i < j < |states| && Executes(states[i], steps[i], id)
    requires id in states[j].store && Terminal(states[j].store[id].status)
    ensures states[j].store[id].status == if steps[i].ok then Succeeded else Failed
    ensures states[j].store[id].endedAt == Some(steps[i].now)
  {
    assert states[i + 1] == Apply(states[i], steps[i]);
    var job := states[i + 1].workers[steps[i].w].job;
    assert EndsAs(states[i + 1], steps[i].w, job);
    EndStays(states, steps, executors, i + 1, j, steps[i].w, job);
    RunsFit(states, steps, executors, j);
    FinishedIsReleased(states[j], steps[i].w, job);
  }

  /** Step i looks up the executor for this job. */
  ghost predicate LooksUp(s: State, step: Step, id: JobId) {
    step.Lookup? && Enabled(s, step) && s.workers[step.w].job.id == id
  }

  /** A job without an executor fails at the moment it is looked up. */
  lemma RefusalIsStored(states: seq<State>, steps: seq<Step>, executors: set<Text>, i: nat, j: nat, id: JobId)
    requires IsRun(states, steps, executors) && i < j < |states| && LooksUp(states[i], steps[i], id)
    requires states[i].workers[steps[i].w].job.jobType !in states[i].executors
    requires id in states[j].store && Terminal(states[j].store[id].status)
    ensures states[j].store[id].status.Failed? && states[j].store[id].endedAt == Some(steps[i].now)
  {
    assert states[i + 1] == Apply(states[i], steps[i]);
    var job := states[i + 1].workers[steps[i].w].job;
    assert EndsAs(states[i + 1], steps[i].w, job);
    EndStays(states, steps, executors, i + 1, j, steps[i].w, job);
    RunsFit(states, steps, executors, j);
    FinishedIsReleased(states[j], steps[i].w, job);
  }

  /** What stays true of a job that is not executed: w holds its end unstored, or it is stored, and nobody calls
      its executor. */
  ghost predicate Unexecuted(s: State, w: nat, job: Job) {
    EndsAs(s, w, job) && Count(s.executions, job.id) == 0
  }

  lemma OtherIsExecuted(s: State, v: nat, w: nat, job: Job)
    requires Inv(s) && EndsAs(s, w, job) && v < |s.workers| && s.workers[v].Executing?
    ensures s.workers[v].job.id != job.id
  {
    assert WorkerFits(s, s.workers[v]);
    if s.workers[w] == Closing(job) {
      assert OwnerFits(s, job.id);
      SoleOwner(s, w, job.id);
    }
  }

  lemma StepKeepsUnexecuted(s: State, step: Step, w: nat, job: Job)
    requires Inv(s) && Enabled(s, step) && Unexecuted(s, w, job)
    ensures Unexecuted(Apply(s, step), w, job)
  {
    StepKeepsEnd(s, step, w, job);
    if step.Execute? {
      OtherIsExecuted(s, step.w, w, job);
    }
  }

  lemma {:induction false} StaysUnexecuted(states: seq<State>, steps: seq<Step>, executors: set<Text>, i: nat, j: nat,
      w: nat, job: Job)
    requires IsRun(states, steps, executors) && i <= j < |states| && Unexecuted(states[i], w, job)
    ensures Unexecuted(states[j], w, job)
    decreases j - i
  {
    if i < j {
      StaysUnexecuted(states, steps, executors, i, j - 1, w, job);
      RunStep(states, steps, executors, j - 1);
      StepKeepsUnexecuted(states[j - 1], steps[j - 1], w, job);
    }
  }

  /** No executor is ever called for a job that was refused. */
  lemma RefusedIsNeverExecuted(states: seq<State>, steps: seq<Step>, executors: set<Text>, i: nat, j: nat, id: JobId)
    requires IsRun(states, steps, executors) && i < j < |states| && LooksUp(states[i], steps[i], id)
    requires states[i].workers[steps[i].w].job.jobType !in states[i].executors
    ensures Count(states[j].executions, id) == 0
  {
    RunsFit(states, steps, executors, i);
    assert WorkerFits(states[i], states[i].workers[steps[i].w]) && JobFits(states[i], id);
    assert states[i + 1] == Apply(states[i], steps[i]);
    var job := states[i + 1].workers[steps[i].w].job;
    assert Unexecuted(states[i + 1], steps[i].w, job);
    StaysUnexecuted(states, steps, executors, i + 1, j, steps[i].w, job);
  }

  // ----- what started a job, and what it was submitted as -----

  /** The executor has been found at time t and w is about to store the job as running ... */
  ghost predicate AboutToStart(s: State, w: nat, id: JobId, t: Text) {
    && w < |s.workers| && s.workers[w].Opening? && s.workers[w].job.id == id
    && s.workers[w].job.startedAt == Some(t)
  }

  /** ... or the store says since when it runs, and so will what a worker is about to store. */
  ghost predicate Started(s: State, id: JobId, t: Text) {
    && id in s.store && !s.store[id].status.Queued? && s.store[id].startedAt == Some(t)
    && forall v :: 0 <= v < |s.workers| && s.workers[v].Closing? && s.workers[v].job.id == id ==>
         s.workers[v].job.startedAt == Some(t)
  }

  ghost predicate StartedAt(s: State, w: nat, id: JobId, t: Text) {
    AboutToStart(s, w, id, t) || Started(s, id, t)
  }

  lemma OpeningStarts(s: State, w: nat, id: JobId, t: Text)
    requires Inv(s) && AboutToStart(s, w, id, t)
    ensures Started(Apply(s, Open(w)), id, t)
  {
    assert WorkerFits(s, s.workers[w]) && OwnerFits(s, id);
    SoleOwner(s, w, id);
  }

  lemma StepKeepsStarted(s: State, step: Step, id: JobId, t: Text)
    requires Inv(s) && Enabled(s, step) && Started(s, id, t)
    ensures Started(Apply(s, step), id, t)
  {
    if step.Open? || step.Execute? || step.Close? || step.Lookup? {
      assert WorkerFits(s, s.workers[step.w]);
    }
    if Subject(s, step) != Some(id) {
      OthersUntouched(s, step, id);
    }
  }

  lemma StepKeepsStart(s: State, step: Step, w: nat, id: JobId, t: Text)
    requires Inv(s) && Enabled(s, step) && StartedAt(s, w, id, t)
    ensures StartedAt(Apply(s, step), w, id, t)
  {
    if Started(s, id, t) {
      StepKeepsStarted(s, step, id, t);
    } else if step == Open(w) {
      OpeningStarts(s, w, id, t);
    }
  }

  lemma {:induction false} StartStays(states: seq<State>, steps: seq<Step>, executors: set<Text>, i: nat, j: nat,
      w: nat, id: JobId, t: Text)
    requires IsRun(states, steps, executors) && i <= j < |states| && StartedAt(states[i], w, id, t)
    ensures StartedAt(states[j], w, id, t)
    decreases j - i
  {
    if i < j {
      StartStays(states, steps, executors, i, j - 1, w, id, t);
      RunStep(states, steps, executors, j - 1);
      StepKeepsStart(states[j - 1], steps[j - 1], w, id, t);
    }
  }

  lemma StartedOnceRunning(s: State, w: nat, id: JobId, t: Text)
    requires Inv(s) && StartedAt(s, w, id, t)
    ensures id in s.store && (!s.store[id].status.Queued? ==> s.store[id].startedAt == Some(t))
  {
    if AboutToStart(s, w, id, t) {
      assert WorkerFits(s, s.workers[w]);
    }
  }

  /** A job with an executor is stored as started at the moment it was looked up, from its opening on. */
  lemma StartIsStored(states: seq<State>, steps: seq<Step>, executors: set<Text>, i: nat, j: nat, id: JobId)
    requires IsRun(states, steps, executors) && i < j < |states| && LooksUp(states[i], steps[i], id)
    requires states[i].workers[steps[i].w].job.jobType in states[i].executors
    ensures id in states[j].store
    ensures !states[j].store[id].status.Queued? ==> states[j].store[id].startedAt == Some(steps[i].now)
  {
    RunStep(states, steps, executors, i);
    assert AboutToStart(states[i + 1], steps[i].w, id, steps[i].now);
    StartStays(states, steps, executors, i + 1, j, steps[i].w, id, steps[i].now);
    RunsFit(states, steps, executors, j);
    StartedOnceRunning(states[j], steps[i].w, id, steps[i].now);
  }

  /** The holder's copy of the job, if there is one. */
  predicate Copies(x: Worker, id: JobId) {
    (x.Loaded? || x.Opening? || x.Executing? || x.Closing?) && x.job.id == id
  }

  /** The stored job and the holder's copy keep what was submitted. */
  ghost predicate SubmittedAs(s: State, id: JobId, jobType: Text, createdAt: Text) {
    && id in s.store && s.store[id].jobType == jobType && s.store[id].createdAt == createdAt
    && forall w :: 0 <= w < |s.workers| && Copies(s.workers[w], id) ==>
         s.workers[w].job.jobType == jobType && s.workers[w].job.createdAt == createdAt
  }

  lemma StepKeepsSubmission(s: State, step: Step, id: JobId, jobType: Text, createdAt: Text)
    requires Inv(s) && Enabled(s, step) && SubmittedAs(s, id, jobType, createdAt)
    ensures SubmittedAs(Apply(s, step), id, jobType, createdAt)
  {
    if step.Read? {
      assert JobFits(s, s.workers[step.w].id);
    }
  }

  lemma {:induction false} SubmissionStays(states: seq<State>, steps: seq<Step>, executors: set<Text>, i: nat, j: nat,
      id: JobId, jobType: Text, createdAt: Text)
    requires IsRun(states, steps, executors) && i <= j < |states| && SubmittedAs(states[i], id, jobType, createdAt)
    ensures SubmittedAs(states[j], id, jobType, createdAt)
    decreases j - i
  {
    if i < j {
      SubmissionStays(states, steps, executors, i, j - 1, id, jobType, createdAt);
      RunStep(states, steps, executors, j - 1);
      StepKeepsSubmission(states[j - 1], steps[j - 1], id, jobType, createdAt);
    }
  }

  /** From its submission on a job keeps its type and its creation time, and it starts out queued. */
  lemma SubmissionIsKept(states: seq<State>, steps: seq<Step>, executors: set<Text>, i: nat, j: nat, id: JobId)
    requires IsRun(states, steps, executors) && i < j < |states| && steps[i].SubmitSave? && steps[i].id == id
    ensures states[i + 1].store[id] == Job(id, steps[i].jobType, Queued, steps[i].now, None, None)
    ensures id in states[j].store
    ensures states[j].store[id].jobType == steps[i].jobType && states[j].store[id].createdAt == steps[i].now
  {
    RunStep(states, steps, executors, i);
    assert OwnerFits(states[i], id);
    forall w | 0 <= w < |states[i].workers| ensures HeldBy(states[i].workers[w]) != Some(id) {
      HoldersAfter(states[i].workers, w, Dead, id);
    }
    assert SubmittedAs(states[i + 1], id, steps[i].jobType, steps[i].now);
    SubmissionStays(states, steps, executors, i + 1, j, id, steps[i].jobType, steps[i].now);
  }

  // ----- the queue -----

  function PutBy(step: Step): seq<Option<JobId>> {
    match step
    case SubmitPut(id) => [Some(id)]
    case StopPut => [None]
    case _ => []
  }

  function TakenBy(s: State, step: Step): seq<Option<JobId>> {
    if step.Get? && s.queue != [] then [s.queue[0]] else []
  }

  /** What the steps have put into the queue, in order. */
  function Puts(steps: seq<Step>): seq<Option<JobId>> {
    if steps == [] then [] else Puts(steps[..|steps| - 1]) + PutBy(steps[|steps| - 1])
  }

  /** What the workers have taken out of it in the first i steps, in order. */
  ghost function Taken(states: seq<State>, steps: seq<Step>, i: nat): seq<Option<JobId>>
    requires i <= |steps| < |states|
  {
    if i == 0 then [] else Taken(states, steps, i - 1) + TakenBy(states[i - 1], steps[i - 1])
  }

  lemma StepKeepsFifo(s: State, step: Step, puts: seq<Option<JobId>>, taken: seq<Option<JobId>>)
    requires Enabled(s, step) && puts == taken + s.queue
    ensures puts + PutBy(step) == (taken + TakenBy(s, step)) + Apply(s, step).queue
  {
    if step.Get? {
      assert s.queue == [s.queue[0]] + s.queue[1..];
    }
  }

  /** First in, first out: what was put is what was taken, followed by what is still in the queue. */
  lemma {:induction false} QueueIsFifo(states: seq<State>, steps: seq<Step>, executors: set<Text>, i: nat)
    requires IsRun(states, steps, executors) && i <= |steps|
    ensures Puts(steps[..i]) == Taken(states, steps, i) + states[i].queue
  {
    if i > 0 {
      QueueIsFifo(states, steps, executors, i - 1);
      RunStep(states, steps, executors, i - 1);
      TakeOneMore(steps, i - 1);
      StepKeepsFifo(states[i - 1], steps[i - 1], Puts(steps[..i - 1]), Taken(states, steps, i - 1));
    }
  }

  /** A job with an executor can run to success. */
  lemma SomeJobSucceeds(job: Job, now: Text, executors: set<Text>)
    requires job == Job(job.id, job.jobType, Running, job.createdAt, Some(now), None) && job.jobType in executors
    ensures exists s :: Reachable(s, executors) && job.id in s.store && s.store[job.id].status.Succeeded?
                        && s.store[job.id].endedAt == Some(now)
  {
    var s := Initial(executors).(store := map[job.id := job], running := true, thread := Some(0),
      workers := [Executing(job)]);
    BusyWorker(job, now, executors, s);
    var s' := Apply(s, Execute(0, true, now));
    ReachStep(s, Execute(0, true, now), s', executors);
    ReachStep(s', Close(0), Apply(s', Close(0)), executors);
    assert Apply(s', Close(0)).store[job.id].status.Succeeded?;
  }

  // ----- when workers stop -----

  /** A start has added a worker since the last stop. */
  ghost predicate FlagUp(states: seq<State>, steps: seq<Step>, i: nat)
    requires i <= |steps| < |states|
  {
    exists k :: 0 <= k < i && AddsWorker(states[k], steps[k]) && forall m :: k < m < i ==> !steps[m].StopFlag?
  }

  lemma FlagAfterStep(states: seq<State>, steps: seq<Step>, i: nat)
    requires i < |steps| < |states|
    ensures FlagUp(states, steps, i + 1) <==>
            AddsWorker(states[i], steps[i]) || (FlagUp(states, steps, i) && !steps[i].StopFlag?)
  {
    if AddsWorker(states[i], steps[i]) {
      assert FlagUp(states, steps, i + 1);
    } else if FlagUp(states, steps, i) && !steps[i].StopFlag? {
      var k :| 0 <= k < i && AddsWorker(states[k], steps[k]) && forall m :: k < m < i ==> !steps[m].StopFlag?;
      assert forall m :: k < m < i + 1 ==> !steps[m].StopFlag?;
    }
  }

  lemma {:induction false} FlagExactly(states: seq<State>, steps: seq<Step>, executors: set<Text>, i: nat)
    requires IsRun(states, steps, executors) && i <= |steps|
    ensures states[i].running <==> FlagUp(states, steps, i)
  {
    if i > 0 {
      FlagExactly(states, steps, executors, i - 1);
      RunStep(states, steps, executors, i - 1);
      FlagAfterStep(states, steps, i - 1);
    }
  }

  /** A worker ends exactly when it looks at the flag after a stop, and until then it stays in its loop. */
  lemma WorkerEndsExactly(states: seq<State>, steps: seq<Step>, executors: set<Text>, i: nat, w: nat)
    requires IsRun(states, steps, executors) && i < |steps| && w < |states[i].workers| && !states[i].workers[w].Dead?
    ensures w < |states[i + 1].workers|
    ensures states[i + 1].workers[w].Dead? <==> steps[i] == Check(w) && !FlagUp(states, steps, i)
  {
    FlagExactly(states, steps, executors, i);
    RunStep(states, steps, executors, i);
  }
}
