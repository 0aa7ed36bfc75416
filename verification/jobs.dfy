/**
 * The job routes of the API service: show one job, and retry a failed
 * job by resetting its row and enqueueing it again.
 */
module JobRoutes {
  import opened Wrappers
  import opened Records
  import PipelineRoutes

  /** A job joined with its pipeline's repository. */
  datatype JobDetail = JobDetail(id: nat, job: Job, repoId: nat, repoName: string)

  /**
   * GET /jobs/:id; `None` is the 404 reply. The query joins the job with
   * its pipeline and that pipeline's repository, so a job whose pipeline or
   * repository row is missing is not found either.
   */
  function GetJob(s: Store, id: nat): (r: Option<JobDetail>)
    ensures r.Some? <==>
      && id < |s.jobs|
      && s.jobs[id].pipelineId < |s.pipelines|
      && HasRepo(s, s.pipelines[s.jobs[id].pipelineId].repoId)
    ensures r.Some? ==>
      var p := s.pipelines[s.jobs[id].pipelineId];
      r.value == JobDetail(id, s.jobs[id], p.repoId, RepoAt(s, p.repoId).value.name)
  {
    if id >= |s.jobs| then None
    else
      var job := s.jobs[id];
      if job.pipelineId >= |s.pipelines| then None
      else
        var repoId := s.pipelines[job.pipelineId].repoId;
        match RepoAt(s, repoId)
        case None => None
        case Some(repo) => Some(JobDetail(id, job, repoId, repo.name))
  }

  /** An id with no job row is a 404, whatever else the store holds. */
  lemma GetJobMissing(s: Store, id: nat)
    requires id >= |s.jobs|
    ensures GetJob(s, id).None?
  {
  }

  /**
   * Every job a trigger creates for an existing repository is found by the
   * job route, under the new pipeline and with that repository's id and
   * name.
   */
  lemma TriggeredJobFound(s: Store, repoId: nat, body: PipelineRoutes.TriggerBody, steps: seq<Step>, now: int,
                          missingRow: Option<nat>, i: nat)
    requires HasRepo(s, repoId)
    requires i < PipelineRoutes.RowsCreated(steps, missingRow)
    ensures var t := PipelineRoutes.Trigger(s, repoId, body, steps, now, missingRow).1;
      GetJob(t, |s.jobs| + i)
        == Some(JobDetail(|s.jobs| + i, Job(|s.pipelines|, steps[i].name, steps[i].run, Queued, ""),
                          repoId, RepoAt(s, repoId).value.name))
  {
    var t := PipelineRoutes.Trigger(s, repoId, body, steps, now, missingRow).1;
    assert t.jobs[|s.jobs| + i] == Job(|s.pipelines|, steps[i].name, steps[i].run, Queued, "");
    assert t.pipelines[|s.pipelines|].repoId == repoId;
    assert RepoAt(t, repoId) == RepoAt(s, repoId);
  }

  /**
   * The git URL the retry handler reads for a pipeline:
   * `repositories JOIN pipelines ... WHERE p.id = pipelineId`.
   */
  function PipelineRepoUrl(s: Store, pipelineId: nat): Option<string> {
    if pipelineId < |s.pipelines| then RepoUrl(s, s.pipelines[pipelineId].repoId) else None
  }

  /**
   * The reply of POST /jobs/:id/retry. `RepoLookupFailed` is the 500 the
   * handler produces when it reads `git_url` from an empty result: by then
   * the job row has already been reset.
   */
  datatype RetryReply = Requeued | JobNotFound | NotFailed | RepoLookupFailed

  /** The row the retry UPDATE writes: QUEUED, with its log cleared. */
  function ResetJob(j: Job): Job {
    j.(status := Queued, logs := "")
  }

  function Retry(s: Store, id: nat): (r: (RetryReply, Store))
    ensures r.0 == JobNotFound <==> id >= |s.jobs|
    ensures r.0 == NotFailed <==> id < |s.jobs| && s.jobs[id].status != Failed
    ensures r.0 == JobNotFound || r.0 == NotFailed ==> r.1 == s
    ensures id < |s.jobs| && s.jobs[id].status == Failed ==>
      var job := s.jobs[id];
      && |r.1.jobs| == |s.jobs|
      && r.1.jobs[id].status == Queued
      && r.1.jobs[id].logs == ""
      && r.1.jobs[id].pipelineId == job.pipelineId
      && r.1.jobs[id].name == job.name
      && r.1.jobs[id].command == job.command
      && (forall j :: 0 <= j < |s.jobs| && j != id ==> r.1.jobs[j] == s.jobs[j])
      && r.1.pipelines == s.pipelines && r.1.repos == s.repos && r.1.webhooks == s.webhooks
      && (r.0 == Requeued <==> PipelineRepoUrl(s, job.pipelineId).Some?)
      && (r.0 == Requeued ==>
            r.1.queue == s.queue + [Payload(id, PipelineRepoUrl(s, job.pipelineId).value, job.command, job.pipelineId)])
      && (r.0 != Requeued ==> r.0 == RepoLookupFailed && r.1.queue == s.queue)
  {
    if id >= |s.jobs| then (JobNotFound, s)
    else
      var job := s.jobs[id];
      if job.status != Failed then (NotFailed, s)
      else
        var reset := s.(jobs := s.jobs[id := ResetJob(job)]);
        match PipelineRepoUrl(reset, job.pipelineId)
        case None => (RepoLookupFailed, reset)
        case Some(url) =>
          (Requeued, reset.(queue := reset.queue + [Payload(id, url, job.command, job.pipelineId)]))
  }

  /** A retry that got past the guards leaves the job QUEUED, so retrying it again at once is a 400 that changes nothing. */
  lemma RetryTwiceRejected(s: Store, id: nat)
    requires Retry(s, id).0 == Requeued || Retry(s, id).0 == RepoLookupFailed
    ensures var s1 := Retry(s, id).1; Retry(s1, id) == (NotFailed, s1)
  {
  }

  /** Retry keeps the store invariant: the new queue entry names the retried job with its own command. */
  lemma RetryKeepsValid(s: Store, id: nat)
    requires Valid(s)
    ensures Valid(Retry(s, id).1)
  {
    var r := Retry(s, id);
    if r.0 == Requeued || r.0 == RepoLookupFailed {
      var s1 := r.1;
      forall k | 0 <= k < |s1.queue| ensures PayloadValid(s1, s1.queue[k]) {
        if k < |s.queue| {
          assert s1.queue[k] == s.queue[k];
          assert PayloadValid(s, s.queue[k]);
        }
      }
    }
  }
}
