/**
 * The pipeline routes of the API service: trigger a pipeline for a
 * repository, list pipelines, show one pipeline with its jobs, cancel a
 * pipeline. Each handler is a function from the store before the request
 * to its reply and the store after it.
 */
module PipelineRoutes {
  import opened Wrappers
  import opened Text
  import opened Records
  import opened Ordering
  import RepoRoutes

  // ---------------------------------------------------------------------
  // Selecting row ids
  // ---------------------------------------------------------------------

  /** The ids below `n` that satisfy `p`, in increasing order (a `WHERE` clause over a serial key). */
  function IdsWhere(n: nat, p: nat -> bool): (r: seq<nat>)
    ensures forall k :: 0 <= k < |r| ==> r[k] < n && p(r[k])
    ensures forall i :: 0 <= i < n && p(i) ==> i in r
    ensures forall k, l :: 0 <= k < l < |r| ==> r[k] < r[l]
    decreases n
  {
    if n == 0 then []
    else IdsWhere(n - 1, p) + (if p(n - 1) then [n - 1] else [])
  }

  // ---------------------------------------------------------------------
  // POST /repos/:repoId/pipelines
  // ---------------------------------------------------------------------

  /** The request body; an empty string stands for an absent or falsy field. */
  datatype TriggerBody = TriggerBody(branch: string, commitSha: string, triggeredBy: string)

  /**
   * The reply: the created pipeline, or one of the two errors the handler
   * throws (Fastify answers both with a 500).
   */
  datatype TriggerReply =
    | Created(pipelineId: nat, jobsCreated: nat, status: string)
    | RepoNotFound
    | JobRowMissing

  /** The row the handler's first INSERT writes, with the body's defaults applied. */
  function NewPipeline(repoId: nat, body: TriggerBody, now: int): Pipeline {
    Pipeline(repoId, Pending, OrElse(body.branch, "main"),
             if body.commitSha != [] then Some(body.commitSha) else None,
             OrElse(body.triggeredBy, "manual"), now)
  }

  function NewJob(pipelineId: nat, step: Step): Job {
    Job(pipelineId, step.name, step.run, Queued, "")
  }

  /** INSERT INTO jobs: the new row's id is the next serial id. */
  function InsertJob(s: Store, pipelineId: nat, step: Step): Store {
    s.(jobs := s.jobs + [NewJob(pipelineId, step)])
  }

  /** `jobQueue.add("run-job", payload)`. */
  function Enqueue(s: Store, p: Payload): Store {
    s.(queue := s.queue + [p])
  }

  /** The job rows the loop inserts for `steps`, in step order. */
  function NewJobs(pipelineId: nat, steps: seq<Step>): seq<Job> {
    seq(|steps|, i requires 0 <= i < |steps| => NewJob(pipelineId, steps[i]))
  }

  /** The queue entries the loop adds for `steps`, the first naming job `firstJobId`. */
  function NewPayloads(firstJobId: nat, repoUrl: string, steps: seq<Step>, pipelineId: nat): seq<Payload> {
    seq(|steps|, i requires 0 <= i < |steps| => Payload(firstJobId + i, repoUrl, steps[i].run, pipelineId))
  }

  /** The loop over the steps: per step, insert the job row and then enqueue it. */
  function AddJobs(s: Store, pipelineId: nat, repoUrl: string, steps: seq<Step>): (r: Store)
    ensures r.repos == s.repos && r.pipelines == s.pipelines && r.webhooks == s.webhooks
    ensures r.jobs == s.jobs + NewJobs(pipelineId, steps)
    ensures r.queue == s.queue + NewPayloads(|s.jobs|, repoUrl, steps, pipelineId)
    decreases |steps|
  {
    if steps == [] then s
    else
      var s1 := InsertJob(s, pipelineId, steps[0]);
      var s2 := Enqueue(s1, Payload(|s.jobs|, repoUrl, steps[0].run, pipelineId));
      var r := AddJobs(s2, pipelineId, repoUrl, steps[1..]);
      assert [NewJob(pipelineId, steps[0])] + NewJobs(pipelineId, steps[1..]) == NewJobs(pipelineId, steps);
      assert [Payload(|s.jobs|, repoUrl, steps[0].run, pipelineId)]
             + NewPayloads(|s.jobs| + 1, repoUrl, steps[1..], pipelineId)
             == NewPayloads(|s.jobs|, repoUrl, steps, pipelineId);
      r
  }

  /**
   * How many job rows the loop creates: all the steps, unless the INSERT
   * for step `missingRow` returns no row, which stops the loop there.
   */
  function RowsCreated(steps: seq<Step>, missingRow: Option<nat>): nat {
    if missingRow.Some? && missingRow.value < |steps| then missingRow.value else |steps|
  }

  /**
   * The trigger handler. The manifest `steps` is an input (the YAML file is
   * read before anything is written); `now` is the `created_at` the
   * database assigns; `missingRow` is the step whose job INSERT returns no
   * row, if any. The pipeline row is inserted before the repository is
   * looked up, so an unknown repository leaves a PENDING pipeline behind.
   */
  function Trigger(s: Store, repoId: nat, body: TriggerBody, steps: seq<Step>, now: int,
                   missingRow: Option<nat>): (r: (TriggerReply, Store))
    ensures r.1.repos == s.repos && r.1.webhooks == s.webhooks
    ensures |r.1.pipelines| == |s.pipelines| + 1 && r.1.pipelines[..|s.pipelines|] == s.pipelines
    ensures var p := r.1.pipelines[|s.pipelines|];
      && p.repoId == repoId
      && p.createdAt == now
      && p.branch == (if body.branch == "" then "main" else body.branch)
      && p.commitSha == (if body.commitSha == "" then None else Some(body.commitSha))
      && p.triggeredBy == (if body.triggeredBy == "" then "manual" else body.triggeredBy)
    ensures r.0 == RepoNotFound <==> !HasRepo(s, repoId)
    ensures r.0 == JobRowMissing <==> HasRepo(s, repoId) && RowsCreated(steps, missingRow) < |steps|
    ensures !HasRepo(s, repoId) ==>
      && r.1.pipelines[|s.pipelines|].status == Pending
      && r.1.jobs == s.jobs
      && r.1.queue == s.queue
    ensures HasRepo(s, repoId) ==> r.1.pipelines[|s.pipelines|].status == Running
    ensures r.0.Created? <==> HasRepo(s, repoId) && RowsCreated(steps, missingRow) == |steps|
    ensures r.0.Created? ==> r.0 == Created(|s.pipelines|, |steps|, "RUNNING")
    ensures HasRepo(s, repoId) ==>
      var n := RowsCreated(steps, missingRow);
      && |r.1.jobs| == |s.jobs| + n && r.1.jobs[..|s.jobs|] == s.jobs
      && |r.1.queue| == |s.queue| + n && r.1.queue[..|s.queue|] == s.queue
      && (forall i :: 0 <= i < n ==>
            r.1.jobs[|s.jobs| + i] == Job(|s.pipelines|, steps[i].name, steps[i].run, Queued, ""))
      && (forall i :: 0 <= i < n ==>
            r.1.queue[|s.queue| + i] == Payload(|s.jobs| + i, RepoAt(s, repoId).value.gitUrl, steps[i].run, |s.pipelines|))
  {
    var pid := |s.pipelines|;
    var s1 := s.(pipelines := s.pipelines + [NewPipeline(repoId, body, now)]);
    match RepoUrl(s1, repoId)
    case None => (RepoNotFound, s1)
    case Some(url) =>
      var s2 := s1.(pipelines := s1.pipelines[pid := s1.pipelines[pid].(status := Running)]);
      var n := RowsCreated(steps, missingRow);
      var s3 := AddJobs(s2, pid, url, steps[..n]);
      if n < |steps| then (JobRowMissing, s3) else (Created(pid, |steps|, "RUNNING"), s3)
  }

  /** Trigger keeps the store invariant, also on its error paths. */
  lemma TriggerKeepsValid(s: Store, repoId: nat, body: TriggerBody, steps: seq<Step>, now: int,
                          missingRow: Option<nat>)
    requires Valid(s)
    ensures Valid(Trigger(s, repoId, body, steps, now, missingRow).1)
  {
    var s' := Trigger(s, repoId, body, steps, now, missingRow).1;
    var n := RowsCreated(steps, missingRow);
    forall j | 0 <= j < |s'.jobs|
      ensures IsJobStatus(s'.jobs[j].status) && s'.jobs[j].pipelineId < |s'.pipelines|
    {
      if j >= |s.jobs| {
        assert s'.jobs[|s.jobs| + (j - |s.jobs|)].status == Queued;
      } else {
        assert s'.jobs[j] == s'.jobs[..|s.jobs|][j];
      }
    }
    forall k | 0 <= k < |s'.queue|
      ensures PayloadValid(s', s'.queue[k])
    {
      if k >= |s.queue| {
        var i := k - |s.queue|;
        assert s'.queue[|s.queue| + i].jobId == |s.jobs| + i;
        assert s'.jobs[|s.jobs| + i].command == steps[i].run;
      } else {
        assert s'.queue[k] == s'.queue[..|s.queue|][k];
        var jid := s.queue[k].jobId;
        assert s'.jobs[jid] == s'.jobs[..|s.jobs|][jid];
      }
    }
    forall i | 0 <= i < |s'.pipelines|
      ensures IsPipelineStatus(s'.pipelines[i].status)
    {
      if i < |s.pipelines| {
        assert s'.pipelines[i] == s'.pipelines[..|s.pipelines|][i];
      }
    }
  }

  /**
   * Once its repository is deleted, a trigger for that id is a 404 that
   * still leaves a PENDING pipeline row behind.
   */
  lemma DeletedRepositoryNotFound(s: Store, repoId: nat, body: TriggerBody, steps: seq<Step>, now: int,
                                  missingRow: Option<nat>)
    ensures var s1 := RepoRoutes.DeleteRepo(s, repoId).1;
      var r := Trigger(s1, repoId, body, steps, now, missingRow);
      && r.0 == RepoNotFound
      && r.1.pipelines == s1.pipelines + [r.1.pipelines[|s1.pipelines|]]
      && r.1.pipelines[|s1.pipelines|].status == Pending
  {
    var s1 := RepoRoutes.DeleteRepo(s, repoId).1;
    var r := Trigger(s1, repoId, body, steps, now, missingRow);
    assert r.1.pipelines == r.1.pipelines[..|s1.pipelines|] + [r.1.pipelines[|s1.pipelines|]];
  }

  // ---------------------------------------------------------------------
  // The trigger handler statement by statement
  // ---------------------------------------------------------------------

  /** The stores another request can observe while the job loop runs, one per statement. */
  function JobLoopStates(s: Store, pipelineId: nat, repoUrl: string, steps: seq<Step>): (t: seq<Store>)
    ensures |t| == 2 * |steps|
    decreases |steps|
  {
    if steps == [] then []
    else
      var s1 := InsertJob(s, pipelineId, steps[0]);
      var s2 := Enqueue(s1, Payload(|s.jobs|, repoUrl, steps[0].run, pipelineId));
      [s1, s2] + JobLoopStates(s2, pipelineId, repoUrl, steps[1..])
  }

  /**
   * The stores after each statement of the trigger handler: the pipeline
   * INSERT, then (for a known repository) the RUNNING update, then the
   * INSERT and the enqueue of each created job.
   */
  function TriggerStates(s: Store, repoId: nat, body: TriggerBody, steps: seq<Step>, now: int,
                         missingRow: Option<nat>): seq<Store>
  {
    var pid := |s.pipelines|;
    var s1 := s.(pipelines := s.pipelines + [NewPipeline(repoId, body, now)]);
    match RepoUrl(s1, repoId)
    case None => [s1]
    case Some(url) =>
      var s2 := s1.(pipelines := s1.pipelines[pid := s1.pipelines[pid].(status := Running)]);
      [s1, s2] + JobLoopStates(s2, pid, url, steps[..RowsCreated(steps, missingRow)])
  }

  /** The new pipeline is RUNNING whenever one of its jobs exists, and every queue entry names a job row. */
  predicate OrderlyDuring(st: Store, pipelineId: nat) {
    && pipelineId < |st.pipelines|
    && ((exists j :: 0 <= j < |st.jobs| && st.jobs[j].pipelineId == pipelineId)
        ==> st.pipelines[pipelineId].status == Running)
    && (forall k :: 0 <= k < |st.queue| ==> PayloadValid(st, st.queue[k]))
  }

  lemma {:induction false} JobLoopOrderly(s: Store, pipelineId: nat, repoUrl: string, steps: seq<Step>)
    requires pipelineId < |s.pipelines| && s.pipelines[pipelineId].status == Running
    requires forall k :: 0 <= k < |s.queue| ==> PayloadValid(s, s.queue[k])
    ensures forall i :: 0 <= i < |JobLoopStates(s, pipelineId, repoUrl, steps)| ==>
      OrderlyDuring(JobLoopStates(s, pipelineId, repoUrl, steps)[i], pipelineId)
    ensures |steps| > 0 ==> JobLoopStates(s, pipelineId, repoUrl, steps)[2 * |steps| - 1]
                             == AddJobs(s, pipelineId, repoUrl, steps)
    decreases |steps|
  {
    if steps != [] {
      var s1 := InsertJob(s, pipelineId, steps[0]);
      var p := Payload(|s.jobs|, repoUrl, steps[0].run, pipelineId);
      var s2 := Enqueue(s1, p);
      assert forall k :: 0 <= k < |s1.queue| ==> PayloadValid(s1, s1.queue[k]) by {
        forall k | 0 <= k < |s1.queue| ensures PayloadValid(s1, s1.queue[k]) {
          assert s1.jobs[s.queue[k].jobId] == s.jobs[s.queue[k].jobId];
        }
      }
      assert PayloadValid(s2, p);
      assert forall k :: 0 <= k < |s2.queue| ==> PayloadValid(s2, s2.queue[k]);
      JobLoopOrderly(s2, pipelineId, repoUrl, steps[1..]);
      var t := JobLoopStates(s, pipelineId, repoUrl, steps);
      var rest := JobLoopStates(s2, pipelineId, repoUrl, steps[1..]);
      assert t == [s1, s2] + rest;
      forall i | 0 <= i < |t| ensures OrderlyDuring(t[i], pipelineId) {
        if i >= 2 {
          assert t[i] == rest[i - 2];
        }
      }
      if |steps| > 1 {
        assert t[2 * |steps| - 1] == rest[2 * |steps[1..]| - 1];
      }
    }
  }

  /**
   * Create-then-submit: in every intermediate state of a trigger, a job of
   * the new pipeline exists only once the pipeline is RUNNING, and every
   * queue entry names a job row that already exists. The last state is
   * the store `Trigger` returns.
   */
  lemma TriggerStatesOrderly(s: Store, repoId: nat, body: TriggerBody, steps: seq<Step>, now: int,
                             missingRow: Option<nat>)
    requires Valid(s)
    ensures var t := TriggerStates(s, repoId, body, steps, now, missingRow);
      && |t| > 0
      && t[|t| - 1] == Trigger(s, repoId, body, steps, now, missingRow).1
      && forall i :: 0 <= i < |t| ==> OrderlyDuring(t[i], |s.pipelines|)
  {
    var pid := |s.pipelines|;
    var s1 := s.(pipelines := s.pipelines + [NewPipeline(repoId, body, now)]);
    assert forall j :: 0 <= j < |s1.jobs| ==> s1.jobs[j].pipelineId != pid;
    assert forall k :: 0 <= k < |s1.queue| ==> PayloadValid(s1, s1.queue[k]);
    assert OrderlyDuring(s1, pid);
    if HasRepo(s, repoId) {
      var url := RepoAt(s, repoId).value.gitUrl;
      var s2 := s1.(pipelines := s1.pipelines[pid := s1.pipelines[pid].(status := Running)]);
      assert forall k :: 0 <= k < |s2.queue| ==> PayloadValid(s2, s2.queue[k]);
      var n := RowsCreated(steps, missingRow);
      JobLoopOrderly(s2, pid, url, steps[..n]);
      var t := TriggerStates(s, repoId, body, steps, now, missingRow);
      var rest := JobLoopStates(s2, pid, url, steps[..n]);
      assert t == [s1, s2] + rest;
      forall i | 0 <= i < |t| ensures OrderlyDuring(t[i], pid) {
        if i >= 2 {
          assert t[i] == rest[i - 2];
        }
      }
    }
  }

  // ---------------------------------------------------------------------
  // GET /pipelines
  // ---------------------------------------------------------------------

  /** The query string; an empty `status` is no filter, an absent `limit` is 50. */
  datatype ListQuery = ListQuery(repoId: Option<nat>, status: string, limit: Option<nat>)

  /** A pipeline row joined with its repository's name and git URL. */
  datatype ListedPipeline = ListedPipeline(id: nat, pipeline: Pipeline, repoName: string, gitUrl: string)

  datatype ListReply = ListReply(pipelines: seq<ListedPipeline>, total: nat)

  function Limit(q: ListQuery): nat {
    q.limit.GetOr(50)
  }

  /** The pipeline exists and joins with an existing repository. */
  predicate Joined(s: Store, id: nat) {
    id < |s.pipelines| && HasRepo(s, s.pipelines[id].repoId)
  }

  /** The rows the `WHERE` clause keeps: joined, and matching the optional filters. */
  predicate Selected(s: Store, q: ListQuery, id: nat) {
    && Joined(s, id)
    && (q.repoId.None? || s.pipelines[id].repoId == q.repoId.value)
    && (q.status == "" || StatusName(s.pipelines[id].status) == q.status)
  }

  function RowOf(s: Store, id: nat): ListedPipeline
    requires Joined(s, id)
  {
    var p := s.pipelines[id];
    var repo := RepoAt(s, p.repoId).value;
    ListedPipeline(id, p, repo.name, repo.gitUrl)
  }

  predicate NewestFirst(rows: seq<ListedPipeline>) {
    forall k, l :: 0 <= k < l < |rows| ==> rows[k].pipeline.createdAt >= rows[l].pipeline.createdAt
  }

  predicate DistinctIds(rows: seq<ListedPipeline>) {
    forall k, l :: 0 <= k < l < |rows| ==> rows[k].id != rows[l].id
  }

  function Min(a: nat, b: nat): nat {
    if a <= b then a else b
  }

  /**
   * A selected pipeline missing from a reply is left out only because the
   * reply is full of rows at least as new as it.
   */
  predicate Crowded(s: Store, q: ListQuery, rows: seq<ListedPipeline>, id: nat)
    requires id < |s.pipelines|
  {
    |rows| == Limit(q)
    && forall k :: 0 <= k < |rows| ==> rows[k].pipeline.createdAt >= s.pipelines[id].createdAt
  }

  /** The sort key of a pipeline id: its row's `created_at`. */
  function CreatedKey(s: Store): nat -> int {
    (id: nat) => if id < |s.pipelines| then s.pipelines[id].createdAt else 0
  }

  /** The ids of the reply: selected, sorted newest first, cut at the limit. */
  function ListIds(s: Store, q: ListQuery): (top: seq<nat>)
    ensures |top| <= Limit(q)
    ensures forall k :: 0 <= k < |top| ==> Selected(s, q, top[k])
    ensures Distinct(top)
    ensures SortedDesc(top, CreatedKey(s))
    ensures forall id: nat :: Selected(s, q, id) ==>
      id in top || (|top| == Limit(q) && forall k :: 0 <= k < |top| ==> CreatedKey(s)(top[k]) >= CreatedKey(s)(id))
  {
    var ids := IdsWhere(|s.pipelines|, (id: nat) => Selected(s, q, id));
    var sorted := SortDesc(ids, CreatedKey(s));
    var top := sorted[..Min(Limit(q), |sorted|)];
    ListIdsFacts(s, q, ids, sorted, top);
    top
  }

  lemma ListIdsFacts(s: Store, q: ListQuery, ids: seq<nat>, sorted: seq<nat>, top: seq<nat>)
    requires forall k :: 0 <= k < |ids| ==> Selected(s, q, ids[k])
    requires forall id: nat :: Selected(s, q, id) ==> id in ids
    requires forall k, l :: 0 <= k < l < |ids| ==> ids[k] < ids[l]
    requires multiset(sorted) == multiset(ids) && (Distinct(ids) ==> Distinct(sorted))
    requires SortedDesc(sorted, CreatedKey(s))
    requires top == sorted[..Min(Limit(q), |sorted|)]
    ensures forall k :: 0 <= k < |top| ==> Selected(s, q, top[k])
    ensures Distinct(top)
    ensures forall id: nat :: Selected(s, q, id) ==>
      id in top || (|top| == Limit(q) && forall k :: 0 <= k < |top| ==> CreatedKey(s)(top[k]) >= CreatedKey(s)(id))
  {
    assert Distinct(ids);
    forall k | 0 <= k < |top| ensures Selected(s, q, top[k]) {
      assert top[k] == sorted[k] && sorted[k] in multiset(sorted);
      assert top[k] in ids;
    }
    forall id: nat | Selected(s, q, id)
      ensures id in top || (|top| == Limit(q) && forall k :: 0 <= k < |top| ==> CreatedKey(s)(top[k]) >= CreatedKey(s)(id))
    {
      assert id in multiset(sorted);
      var m :| 0 <= m < |sorted| && sorted[m] == id;
      if m >= |top| {
        assert forall k :: 0 <= k < |top| ==> top[k] == sorted[k] && CreatedKey(s)(sorted[k]) >= CreatedKey(s)(sorted[m]);
      }
    }
  }

  lemma ListRows(s: Store, q: ListQuery, top: seq<nat>, rows: seq<ListedPipeline>)
    requires forall k :: 0 <= k < |top| ==> Selected(s, q, top[k])
    requires Distinct(top)
    requires SortedDesc(top, CreatedKey(s))
    requires forall id: nat :: Selected(s, q, id) ==>
      id in top || (|top| == Limit(q) && forall k :: 0 <= k < |top| ==> CreatedKey(s)(top[k]) >= CreatedKey(s)(id))
    requires |rows| == |top| && forall k :: 0 <= k < |top| ==> Joined(s, top[k]) && rows[k] == RowOf(s, top[k])
    ensures DistinctIds(rows)
    ensures NewestFirst(rows)
    ensures forall id: nat :: Selected(s, q, id) ==>
      (exists k :: 0 <= k < |rows| && rows[k].id == id) || Crowded(s, q, rows, id)
  {
    assert forall k :: 0 <= k < |rows| ==> rows[k].id == top[k] && rows[k].pipeline.createdAt == CreatedKey(s)(top[k]);
    forall id: nat | Selected(s, q, id)
      ensures (exists k :: 0 <= k < |rows| && rows[k].id == id) || Crowded(s, q, rows, id)
    {
      if id in top {
        var k :| 0 <= k < |top| && top[k] == id;
        assert rows[k].id == id;
      }
    }
  }

  /** The list handler. */
  function List(s: Store, q: ListQuery): (r: ListReply)
    ensures r.total == |r.pipelines|
    ensures |r.pipelines| <= Limit(q)
    ensures forall k :: 0 <= k < |r.pipelines| ==>
      Selected(s, q, r.pipelines[k].id) && r.pipelines[k] == RowOf(s, r.pipelines[k].id)
    ensures DistinctIds(r.pipelines)
    ensures NewestFirst(r.pipelines)
    ensures forall id: nat :: Selected(s, q, id) ==>
      (exists k :: 0 <= k < |r.pipelines| && r.pipelines[k].id == id) || Crowded(s, q, r.pipelines, id)
  {
    var top := ListIds(s, q);
    var rows := seq(|top|, k requires 0 <= k < |top| => RowOf(s, top[k]));
    ListRows(s, q, top, rows);
    ListReply(rows, |rows|)
  }

  // ---------------------------------------------------------------------
  // GET /pipelines/:id
  // ---------------------------------------------------------------------

  /** A pipeline with its jobs, each job paired with its id. */
  datatype PipelineDetail = PipelineDetail(pipeline: ListedPipeline, jobs: seq<(nat, Job)>)

  /** The detail handler; `None` is the 404 reply. Jobs come in creation (id) order. */
  function GetPipeline(s: Store, id: nat): (r: Option<PipelineDetail>)
    ensures r.None? <==> !Joined(s, id)
    ensures r.Some? ==> r.value.pipeline == RowOf(s, id)
    ensures r.Some? ==> forall k :: 0 <= k < |r.value.jobs| ==>
      var (jid, job) := r.value.jobs[k]; jid < |s.jobs| && s.jobs[jid] == job && job.pipelineId == id
    ensures r.Some? ==> forall j :: 0 <= j < |s.jobs| && s.jobs[j].pipelineId == id ==>
      exists k :: 0 <= k < |r.value.jobs| && r.value.jobs[k].0 == j
    ensures r.Some? ==> forall k, l :: 0 <= k < l < |r.value.jobs| ==> r.value.jobs[k].0 < r.value.jobs[l].0
  {
    if !Joined(s, id) then None
    else
      var ids := IdsWhere(|s.jobs|, (j: nat) => j < |s.jobs| && s.jobs[j].pipelineId == id);
      var jobs := seq(|ids|, k requires 0 <= k < |ids| => (ids[k], s.jobs[ids[k]]));
      assert forall k :: 0 <= k < |ids| ==> jobs[k].0 == ids[k];
      assert forall j :: 0 <= j < |s.jobs| && s.jobs[j].pipelineId == id ==> j in ids;
      Some(PipelineDetail(RowOf(s, id), jobs))
  }

  // ---------------------------------------------------------------------
  // POST /pipelines/:id/cancel
  // ---------------------------------------------------------------------

  /** A job the cancel UPDATE selects: `status IN ('QUEUED', 'RUNNING')`. */
  predicate Cancellable(j: Job, pipelineId: nat) {
    j.pipelineId == pipelineId && (j.status == Queued || j.status == Running)
  }

  function CancelJob(j: Job, pipelineId: nat): Job {
    if Cancellable(j, pipelineId) then j.(status := Cancelled) else j
  }

  /**
   * The cancel handler (its reply is always "Pipeline cancelled"). The
   * pipeline UPDATE has no status guard, so a finished pipeline becomes
   * CANCELLED too; an unknown id updates no row.
   */
  function Cancel(s: Store, id: nat): (r: Store)
    ensures r.repos == s.repos && r.webhooks == s.webhooks && r.queue == s.queue
    ensures |r.pipelines| == |s.pipelines| && |r.jobs| == |s.jobs|
    ensures id < |s.pipelines| ==> r.pipelines[id] == s.pipelines[id].(status := Cancelled)
    ensures forall i :: 0 <= i < |s.pipelines| && i != id ==> r.pipelines[i] == s.pipelines[i]
    ensures forall j :: 0 <= j < |s.jobs| && s.jobs[j].pipelineId != id ==> r.jobs[j] == s.jobs[j]
    ensures forall j :: 0 <= j < |s.jobs| && s.jobs[j].pipelineId == id ==>
      r.jobs[j].status == (if s.jobs[j].status in {Queued, Running} then Cancelled else s.jobs[j].status)
      && r.jobs[j] == s.jobs[j].(status := r.jobs[j].status)
  {
    var pipelines := if id < |s.pipelines| then s.pipelines[id := s.pipelines[id].(status := Cancelled)]
                     else s.pipelines;
    var jobs := seq(|s.jobs|, j requires 0 <= j < |s.jobs| => CancelJob(s.jobs[j], id));
    s.(pipelines := pipelines, jobs := jobs)
  }

  /** Cancelling twice leaves the store as cancelling once. */
  lemma CancelIdempotent(s: Store, id: nat)
    ensures Cancel(Cancel(s, id), id) == Cancel(s, id)
  {
    var once := Cancel(s, id);
    var twice := Cancel(once, id);
    assert twice.jobs == once.jobs;
    assert twice.pipelines == once.pipelines;
  }

  /** After a cancel none of the pipeline's jobs is waiting or running. */
  lemma CancelLeavesNoActiveJob(s: Store, id: nat)
    ensures var r := Cancel(s, id);
      forall j :: 0 <= j < |r.jobs| && r.jobs[j].pipelineId == id ==>
        r.jobs[j].status != Queued && r.jobs[j].status != Running
  {
  }

  lemma CancelKeepsValid(s: Store, id: nat)
    requires Valid(s)
    ensures Valid(Cancel(s, id))
  {
    var r := Cancel(s, id);
    forall k | 0 <= k < |r.queue| ensures PayloadValid(r, r.queue[k]) {
      var jid := r.queue[k].jobId;
      assert r.jobs[jid].command == s.jobs[jid].command;
    }
  }
}
