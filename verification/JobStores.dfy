/** The two job stores behind the API: one file per job, or one SQLite row per job. */
module JobStores {
  import opened Prelude
  import opened Sorting
  import opened Jobs

  /** A missing or empty argument of list_jobs does not restrict the listing. */
  datatype Filter = Filter(status: Option<Status>, jobType: Option<Text>, createdAfter: Option<Text>)

  predicate Given(x: Option<Text>) {
    x.Some? && x.value.chars != ""
  }

  predicate Matches(f: Filter, status: Status, jobType: Text, createdAt: Text) {
    && (f.status.Some? ==> status == f.status.value)
    && (Given(f.jobType) ==> jobType == f.jobType.value)
    && (Given(f.createdAfter) ==> TextLess(f.createdAfter.value, createdAt))
  }

  predicate JobMatches(f: Filter, job: Job) {
    Matches(f, job.status, job.jobType, job.createdAt)
  }

  predicate Newer(a: Job, b: Job) {
    TextLess(b.createdAt, a.createdAt)
  }

  /** The matching jobs, in the order of the ids. */
  function Pick(ids: seq<JobId>, jobs: map<JobId, Job>, f: Filter): seq<Job>
    requires forall id :: id in ids ==> id in jobs
  {
    if ids == [] then []
    else
      var last := jobs[ids[|ids| - 1]];
      Pick(ids[..|ids| - 1], jobs, f) + if JobMatches(f, last) then [last] else []
  }

  function Listing(ids: seq<JobId>, jobs: map<JobId, Job>, f: Filter): seq<Job>
    requires forall id :: id in ids ==> id in jobs
  {
    StableSort(Pick(ids, jobs, f), Newer)
  }

  /** What the caller asked for: the given status, the given type unless it is empty, and created after the given
      time unless that is empty. */
  ghost predicate Asked(f: Filter, job: Job) {
    && (forall s :: f.status == Some(s) ==> job.status == s)
    && (forall t :: f.jobType == Some(t) && t != Text("") ==> job.jobType == t)
    && (forall t :: f.createdAfter == Some(t) && t != Text("") ==> CharsLess(t.chars, job.createdAt.chars))
  }

  /** rows holds exactly the jobs asked for, and none before a newer one. */
  ghost predicate Answers(rows: seq<Job>, jobs: map<JobId, Job>, f: Filter) {
    && (forall job :: job in rows <==> (exists id :: id in jobs && jobs[id] == job) && Asked(f, job))
    && forall i, j :: 0 <= i < j < |rows| ==> !CharsLess(rows[i].createdAt.chars, rows[j].createdAt.chars)
  }

  lemma {:induction false} PickMembers(ids: seq<JobId>, jobs: map<JobId, Job>, f: Filter)
    requires forall id :: id in ids ==> id in jobs
    ensures forall job :: job in Pick(ids, jobs, f) <==> (exists id :: id in ids && jobs[id] == job) && Asked(f, job)
  {
    if ids != [] {
      var init, last := ids[..|ids| - 1], ids[|ids| - 1];
      PickMembers(init, jobs, f);
      assert ids == init + [last];
      assert JobMatches(f, jobs[last]) <==> Asked(f, jobs[last]);
    }
  }

  lemma ListingAnswers(ids: seq<JobId>, jobs: map<JobId, Job>, f: Filter)
    requires forall id :: id in ids <==> id in jobs
    ensures Answers(Listing(ids, jobs, f), jobs, f)
  {
    var picked, rows := Pick(ids, jobs, f), Listing(ids, jobs, f);
    PickMembers(ids, jobs, f);
    StableSortElements(picked, Newer);
    TextOrder();
    forall i, j | 0 <= i < j < |rows| ensures !CharsLess(rows[i].createdAt.chars, rows[j].createdAt.chars) {
      StableSortAscends(picked, Newer, i, j);
    }
  }

  // ----- files -----

  class FileJobStore {
    var files: map<JobId, Job>

    constructor ()
      ensures files == map[]
    {
      files := map[];
    }

    method WriteJob(job: Job)
      modifies this
      ensures files == old(files)[job.id := job]
    {
      files := files[job.id := job];
    }

    method ReadJob(id: JobId) returns (job: Option<Job>)
      ensures job == if id in files then Some(files[id]) else None
    {
      job := if id in files then Some(files[id]) else None;
    }

    method ListJobs(f: Filter) returns (rows: seq<Job>)
      ensures (forall id :: id in SortedTexts(files.Keys) ==> id in files)
              && rows == Listing(SortedTexts(files.Keys), files, f)
      ensures Answers(rows, files, f)
    {
      var ids := SortedTexts(files.Keys);
      SortedTextsLists(files.Keys);
      ListingAnswers(ids, files, f);
      rows := [];
      for i := 0 to |ids|
        invariant rows == Pick(ids[..i], files, f)
      {
        TakeOneMore(ids, i);
        var job := files[ids[i]];
        if f.status.Some? && job.status != f.status.value { continue; }
        if Given(f.jobType) && job.jobType != f.jobType.value { continue; }
        if Given(f.createdAfter) && !TextLess(f.createdAfter.value, job.createdAt) { continue; }
        rows := rows + [job];
      }
      TakeAll(ids);
      rows := StableSort(rows, Newer);
    }
  }

  // ----- SQLite -----

  /** The columns the queries look at, and the stored payload. */
  datatype Row = Row(status: Status, jobType: Text, createdAt: Text, payload: Job)

  function RowFor(job: Job): Row {
    Row(job.status, job.jobType, job.createdAt, job)
  }

  function Payloads(table: map<JobId, Row>): map<JobId, Job> {
    map id | id in table :: table[id].payload
  }

  class SqliteJobStore {
    var table: map<JobId, Row>

    /** Every row's columns repeat what its payload says. */
    ghost predicate Valid()
      reads this
    {
      forall id :: id in table ==> table[id] == RowFor(table[id].payload)
    }

    constructor ()
      ensures Valid() && table == map[]
    {
      table := map[];
    }

    /** INSERT ... ON CONFLICT DO UPDATE of every column. */
    method WriteJob(job: Job)
      requires Valid()
      modifies this
      ensures Valid() && table == old(table)[job.id := RowFor(job)]
      ensures Payloads(table) == old(Payloads(table))[job.id := job]
    {
      if job.id in table {
        var row := table[job.id];
        row := row.(status := job.status, jobType := job.jobType, createdAt := job.createdAt, payload := job);
        table := table[job.id := row];
      } else {
        table := table[job.id := RowFor(job)];
      }
    }

    method ReadJob(id: JobId) returns (job: Option<Job>)
      ensures job == if id in Payloads(table) then Some(Payloads(table)[id]) else None
    {
      job := if id in table then Some(table[id].payload) else None;
    }

    /** SELECT ... ORDER BY created_at DESC; the engine may scan the table in any order, and ties stay in scan order. */
    method ListJobs(f: Filter, scan: seq<JobId>) returns (rows: seq<Job>)
      requires Valid() && Distinct(scan) && forall id :: id in scan <==> id in table
      ensures rows == Listing(scan, Payloads(table), f)
      ensures Answers(rows, Payloads(table), f)
    {
      ListingAnswers(scan, Payloads(table), f);
      rows := [];
      for i := 0 to |scan|
        invariant rows == Pick(scan[..i], Payloads(table), f)
      {
        TakeOneMore(scan, i);
        var row := table[scan[i]];
        if Matches(f, row.status, row.jobType, row.createdAt) {
          rows := rows + [row.payload];
        }
      }
      TakeAll(scan);
      rows := StableSort(rows, Newer);
    }
  }

  // ----- what a listing is -----

  ghost predicate KeyedById(jobs: map<JobId, Job>) {
    forall id :: id in jobs ==> jobs[id].id == id
  }

  predicate NotOlder(a: Job, b: Job) {
    !TextLess(a.createdAt, b.createdAt)
  }

  /** rows holds each matching job once, newest first. */
  ghost predicate Lists(rows: seq<Job>, jobs: map<JobId, Job>, f: Filter) {
    && Distinct(rows)
    && (forall job :: job in rows <==> job.id in jobs && jobs[job.id] == job && JobMatches(f, job))
    && InOrder(rows, NotOlder)
  }

  lemma {:induction false} PickLists(ids: seq<JobId>, jobs: map<JobId, Job>, f: Filter)
    requires Distinct(ids) && KeyedById(jobs) && forall id :: id in ids ==> id in jobs
    ensures Distinct(Pick(ids, jobs, f))
    ensures forall job :: job in Pick(ids, jobs, f) <==> job.id in ids && jobs[job.id] == job && JobMatches(f, job)
  {
    if ids != [] {
      var init, last := ids[..|ids| - 1], ids[|ids| - 1];
      PickLists(init, jobs, f);
      assert ids == init + [last];
      assert last !in init;
    }
  }

  /** Whatever order the ids are scanned in, the listing lists. */
  lemma ListingLists(ids: seq<JobId>, jobs: map<JobId, Job>, f: Filter)
    requires Distinct(ids) && KeyedById(jobs) && forall id :: id in ids <==> id in jobs
    ensures Lists(Listing(ids, jobs, f), jobs, f)
  {
    PickLists(ids, jobs, f);
    StableSortElements(Pick(ids, jobs, f), Newer);
    NewerIsOrder();
    var rows := Listing(ids, jobs, f);
    forall i, j | 0 <= i < j < |rows| ensures NotOlder(rows[i], rows[j]) {
      StableSortAscends(Pick(ids, jobs, f), Newer, i, j);
    }
  }

  lemma NewerIsOrder()
    ensures StrictWeakOrder(Newer)
  {
    TextOrder();
  }

  function CreatedAt(job: Job): Text { job.createdAt }

  predicate TextNotBefore(a: Text, b: Text) { !TextLess(a, b) }

  /** Two listings of the same jobs agree up to the order among equal timestamps. */
  lemma ListingsAgree(a: seq<Job>, b: seq<Job>, jobs: map<JobId, Job>, f: Filter)
    requires Lists(a, jobs, f) && Lists(b, jobs, f)
    ensures multiset(a) == multiset(b) && |a| == |b|
    ensures forall i :: 0 <= i < |a| ==> a[i].createdAt == b[i].createdAt
  {
    DistinctSameMultiset(a, b);
    assert |a| == |multiset(a)| && |b| == |multiset(b)|;
    MapOfPermutation(a, b, CreatedAt);
    TextOrder();
    KeysInOrder(a);
    KeysInOrder(b);
    OrderedUnique(MapSeq(a, CreatedAt), MapSeq(b, CreatedAt), TextNotBefore);
    forall i | 0 <= i < |a| ensures a[i].createdAt == b[i].createdAt {
      assert MapSeq(a, CreatedAt)[i] == MapSeq(b, CreatedAt)[i];
    }
  }

  lemma KeysInOrder(a: seq<Job>)
    requires InOrder(a, NotOlder)
    ensures InOrder(MapSeq(a, CreatedAt), TextNotBefore)
  {
    forall i, j | 0 <= i < j < |a| ensures TextNotBefore(MapSeq(a, CreatedAt)[i], MapSeq(a, CreatedAt)[j]) {
      assert NotOlder(a[i], a[j]);
    }
  }

  // ----- the backends agree after any writes -----

  function FilesAfter(writes: seq<Job>): map<JobId, Job> {
    if writes == [] then map[]
    else FilesAfter(writes[..|writes| - 1])[writes[|writes| - 1].id := writes[|writes| - 1]]
  }

  function TableAfter(writes: seq<Job>): map<JobId, Row> {
    if writes == [] then map[]
    else TableAfter(writes[..|writes| - 1])[writes[|writes| - 1].id := RowFor(writes[|writes| - 1])]
  }

  /** The same saves on both backends. */
  method WriteAll(writes: seq<Job>, files: FileJobStore, sqlite: SqliteJobStore)
    requires files.files == map[] && sqlite.table == map[] && sqlite.Valid()
    modifies files, sqlite
    ensures files.files == FilesAfter(writes)
    ensures sqlite.Valid() && sqlite.table == TableAfter(writes)
  {
    for i := 0 to |writes|
      invariant files.files == FilesAfter(writes[..i])
      invariant sqlite.Valid() && sqlite.table == TableAfter(writes[..i])
    {
      TakeOneMore(writes, i);
      files.WriteJob(writes[i]);
      sqlite.WriteJob(writes[i]);
    }
    TakeAll(writes);
  }

  lemma {:induction false} WritesAgree(writes: seq<Job>)
    ensures Payloads(TableAfter(writes)) == FilesAfter(writes)
    ensures TableAfter(writes).Keys == FilesAfter(writes).Keys
    ensures KeyedById(FilesAfter(writes))
  {
    if writes != [] {
      WritesAgree(writes[..|writes| - 1]);
    }
  }

  /** After the same writes both backends answer every query alike, up to the order among equal timestamps. */
  lemma BackendsAgree(writes: seq<Job>, f: Filter, scan: seq<JobId>, a: seq<Job>, b: seq<Job>)
    requires Distinct(scan) && forall id :: id in scan <==> id in TableAfter(writes)
    requires forall id :: id in scan ==> id in Payloads(TableAfter(writes))
    requires forall id :: id in SortedTexts(FilesAfter(writes).Keys) ==> id in FilesAfter(writes)
    requires a == Listing(SortedTexts(FilesAfter(writes).Keys), FilesAfter(writes), f)
    requires b == Listing(scan, Payloads(TableAfter(writes)), f)
    ensures multiset(a) == multiset(b) && |a| == |b|
    ensures forall i :: 0 <= i < |a| ==> a[i].createdAt == b[i].createdAt
    ensures Lists(a, FilesAfter(writes), f)
  {
    var jobs := FilesAfter(writes);
    WritesAgree(writes);
    SortedTextsLists(jobs.Keys);
    ListingLists(SortedTexts(jobs.Keys), jobs, f);
    ListingLists(scan, jobs, f);
    ListingsAgree(a, b, jobs, f);
  }
}
