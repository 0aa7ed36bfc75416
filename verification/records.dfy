/**
 * The record store behind the API and the runner: the repositories,
 * pipelines, jobs and webhooks tables plus the job queue.
 *
 * Every table is a sequence indexed by its serial id, so a row's id is its
 * position and an id at or past the end of the table is a missing row.
 * Pipelines, jobs and webhooks are only ever inserted or updated; a
 * repository can also be deleted, which empties its slot (serial ids are
 * never reused). Each SQL statement of a handler is one update of this
 * value.
 */
module Records {
  import opened Wrappers

  /** The status strings stored in the `status` columns of both tables. */
  datatype Status = Pending | Queued | Running | Success | Failed | Cancelled

  function StatusName(st: Status): string {
    match st
    case Pending => "PENDING"
    case Queued => "QUEUED"
    case Running => "RUNNING"
    case Success => "SUCCESS"
    case Failed => "FAILED"
    case Cancelled => "CANCELLED"
  }

  /** The status a column string names, if it names one. */
  function StatusOf(name: string): (r: Option<Status>)
    ensures r.Some? ==> StatusName(r.value) == name
    ensures forall st: Status :: StatusName(st) == name ==> r == Some(st)
  {
    if name == "PENDING" then Some(Pending)
    else if name == "QUEUED" then Some(Queued)
    else if name == "RUNNING" then Some(Running)
    else if name == "SUCCESS" then Some(Success)
    else if name == "FAILED" then Some(Failed)
    else if name == "CANCELLED" then Some(Cancelled)
    else None
  }

  /** The statuses the pipelines table holds. */
  predicate IsPipelineStatus(st: Status) {
    st != Queued
  }

  /** The statuses the jobs table holds. */
  predicate IsJobStatus(st: Status) {
    st != Pending
  }

  /** A status after which the log stream stops (`SUCCESS` or `FAILED`). */
  predicate IsTerminal(st: Status) {
    st == Success || st == Failed
  }

  datatype Repo = Repo(name: string, gitUrl: string)

  datatype Pipeline = Pipeline(
    repoId: nat,
    status: Status,
    branch: string,
    commitSha: Option<string>,
    triggeredBy: string,
    createdAt: int)

  /** A job row; `logs` is the empty string until the runner writes it. */
  datatype Job = Job(pipelineId: nat, name: string, command: string, status: Status, logs: string)

  datatype Webhook = Webhook(repoId: nat, provider: string, secret: Option<string>, isActive: bool)

  /** The data of one `run-job` queue entry. */
  datatype Payload = Payload(jobId: nat, repoUrl: string, command: string, pipelineId: nat)

  /** One step of the pipeline manifest, as `{ name, run }`. */
  datatype Step = Step(name: string, run: string)

  datatype Store = Store(
    repos: seq<Option<Repo>>,
    pipelines: seq<Pipeline>,
    jobs: seq<Job>,
    webhooks: seq<Webhook>,
    queue: seq<Payload>)

  /** The repository row that `repositories.id = id` selects, if there is one. */
  function RepoAt(s: Store, id: nat): Option<Repo> {
    if id < |s.repos| then s.repos[id] else None
  }

  predicate HasRepo(s: Store, id: nat) {
    RepoAt(s, id).Some?
  }

  /** `SELECT git_url FROM repositories WHERE id = repoId`. */
  function RepoUrl(s: Store, repoId: nat): (r: Option<string>)
    ensures r.Some? <==> HasRepo(s, repoId)
    ensures r.Some? ==> r.value == RepoAt(s, repoId).value.gitUrl
  {
    match RepoAt(s, repoId)
    case None => None
    case Some(repo) => Some(repo.gitUrl)
  }

  /** Every queued entry names an existing job of the pipeline it carries, with that job's command. */
  predicate PayloadValid(s: Store, p: Payload) {
    p.jobId < |s.jobs|
    && s.jobs[p.jobId].pipelineId == p.pipelineId
    && s.jobs[p.jobId].command == p.command
  }

  /**
   * The store invariant the routes keep: each job belongs to an existing
   * pipeline, statuses are drawn from their table's set, and no queue
   * entry refers to a job row that was never created.
   */
  predicate Valid(s: Store) {
    && (forall i :: 0 <= i < |s.pipelines| ==> IsPipelineStatus(s.pipelines[i].status))
    && (forall j :: 0 <= j < |s.jobs| ==> IsJobStatus(s.jobs[j].status))
    && (forall j :: 0 <= j < |s.jobs| ==> s.jobs[j].pipelineId < |s.pipelines|)
    && (forall k :: 0 <= k < |s.queue| ==> PayloadValid(s, s.queue[k]))
  }
}
