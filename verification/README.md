# deployX pipeline and job orchestration, modelled in Dafny

deployX runs build, test and deploy pipelines for registered git
repositories. A trigger (manual or a GitHub push webhook) inserts a
pipeline row and one QUEUED job row per manifest step, and puts one
`run-job` entry per job on the queue. A runner worker picks an entry up,
marks the job RUNNING, runs its command in a `node:18` container and writes
SUCCESS or FAILED with the captured output. Observers list pipelines, read
a pipeline with its jobs, follow a job's log as a server-sent event stream,
cancel a pipeline, and retry a failed job. The dashboard renders durations
and status colours and icons.

The API server as built in `services/api/src/app.ts` registers only the
health, repository and pipeline routes. The job, log-stream and webhook
route files are modelled as written, but that server does not serve them.
So a GitHub delivery, a log subscription or the dashboard's retry call
gets a 404 from it.

The model is a set of pure functions over an immutable record store
(`Records.Store`). Every table is a sequence indexed by serial id, and an
id past the end of a table is a missing row. Pipelines, jobs and webhooks
are only inserted or updated. A repository can also be deleted
(`DELETE /repos/:id`): its slot becomes empty and its id is not reused. The job
queue is an append-only sequence of payloads. Each HTTP handler maps the
store before a request to its reply and the store after it. Each SQL
statement is one step of that map.

| file | module | what it models |
|---|---|---|
| `wrappers.dfy` | `Wrappers` | `Option` |
| `text.dfy` | `Text` | JavaScript's `a or b` on strings (the empty string is falsy), `indexOf`/`replace` with a string pattern, the log stream's new-line escape, `split(" ")`/`join(" ")`, decimal rendering |
| `records.dfy` | `Records` | the statuses, the rows of the four tables, queue payloads, the store and its invariant `Valid` |
| `repos.dfy` | `RepoRoutes` | deleting a repository |
| `ordering.dfy` | `Ordering` | `ORDER BY key DESC` as an insertion sort with its order, permutation and distinctness facts |
| `pipelines.dfy` | `PipelineRoutes` | trigger, list, detail and cancel of pipelines |
| `jobs.dfy` | `JobRoutes` | job detail and retry |
| `worker.dfy` | `Worker` | the runner's queue worker |
| `logs.dfy` | `LogStream` | the polling log stream of one job |
| `webhooks.dfy` | `Webhooks` | the GitHub delivery endpoint, webhook registration and the active toggle |
| `exec.dfy` | `Exec` | the runner's streaming command helper |
| `dashboard.dfy` | `DashboardUtils` | `formatDuration`, `getStatusColor`, `getStatusIcon` |

Outside inputs are parameters:
- the pipeline manifest (`steps`);
- the database clock (`now`);
- the job insert that returns no row (`missingRow`);
- the container run (`exec`);
- the HMAC-SHA256 function (`hmac`), applied to the serialised body that each delivery carries;
- the configured webhook secret (`envSecret`);
- the browser clock (`nowMs`);
- the rows each log poll reads.

Behaviour of the code worth noting:
- **Trigger on an unknown repository:** the pipeline row is inserted as
  PENDING before the repository lookup, and the handler then throws.
  Fastify answers 500, not 404, and the PENDING row stays. This assumes
  the schema has no foreign key on `pipelines.repo_id` (see "Left out").
- **Job insert with no returned row:** the jobs already created stay, and
  are already enqueued.
- **Empty manifest:** it is not rejected. The pipeline is set RUNNING with
  no jobs.
- **Pipeline outcome:** there is no roll-up of job outcomes into a pipeline
  outcome. A pipeline stays RUNNING unless it is cancelled.
- **Cancel:** the pipeline UPDATE has no status guard, so a SUCCESS or
  FAILED pipeline becomes CANCELLED. Only the jobs that are QUEUED or
  RUNNING change.
- **Worker:** it never checks a job's previous status. A job cancelled
  while queued is run, and ends SUCCESS or FAILED.
- **Retry:** the job row is reset before the repository URL is read. When
  that read finds no row, the handler crashes with the job QUEUED and
  nothing enqueued.
- **Webhook signature:** it is checked against the environment secret, not
  against the secret stored with the webhook. It is checked only when a
  signature header is present.
- **Webhook trigger failure:** when the trigger call answers with an error,
  the webhook still replies 200, with no pipeline id.
- **Log stream:** it ends only on SUCCESS or FAILED. A CANCELLED job keeps
  the stream polling.
- **Log escape:** only line feeds are escaped. A carriage return in a log
  is sent as is, and an event-stream client reads it as a line break.
  Such a chunk's event then spans several lines.

## Model

| member | source | states |
|---|---|---|
| `Text.EscapeNewlines` | services/api/src/routes/logs.ts:26 | the escaped chunk holds no line feed and is one character longer per line feed |
| `Text.EscapeAppend` | services/api/src/routes/logs.ts:24-27 | escaping distributes over concatenation, so chunks escaped one poll at a time equal the whole text escaped at once |
| `Text.EscapeNotInjective` | services/api/src/routes/logs.ts:26 | a line feed and a literal backslash-n are sent alike, so the stream cannot always be unescaped |
| `Text.Split` | services/runner/src/utils/exec.ts:9 | `split(" ")` gives one more token than there are spaces, and no token holds a space |
| `Text.DoubledSeparatorGivesEmptyToken` | services/runner/src/utils/exec.ts:9 | two separators in a row anywhere give an empty token that is not the first one |
| `Text.JoinSplit` | services/runner/src/utils/exec.ts:9 | joining the tokens with single spaces gives the command back |
| `Text.SplitJoin` | services/runner/src/utils/exec.ts:9 | space-free words joined with spaces split back into the same words |
| `Text.Decimal` | dashboard/lib/utils.ts:27-29 | a number renders as a non-empty string of digits with no leading zero |
| `Text.DecimalRoundTrip` | dashboard/lib/utils.ts:27-29 | parsing the rendered digits gives the number back |
| `Text.DecimalInjective` | dashboard/lib/utils.ts:27-29 | distinct numbers render differently |
| `Records.RepoUrl` | services/api/src/routes/pipelines.ts:26-35 | a repository's URL is found exactly when its row exists and has not been deleted |
| `RepoRoutes.DeleteRepo` | services/api/src/routes/repos.ts:62-76 | the reply is 404 exactly when no repository row has the id. Afterwards no row has it, every other repository is unchanged, and the pipelines, jobs, webhooks and queue are untouched |
| `Records.StatusOf` | dashboard/lib/utils.ts:32-48 | the six status strings name exactly one status each, and no other string names one |
| `Ordering.SortDesc` | services/api/src/routes/pipelines.ts:93 | `ORDER BY ... DESC` yields the same rows, in non-increasing key order, still distinct |
| `PipelineRoutes.AddJobs` | services/api/src/routes/pipelines.ts:44-61 | the job loop appends exactly one QUEUED job row and one queue entry per step, in step order, leaving earlier rows untouched |
| `PipelineRoutes.Trigger` | services/api/src/routes/pipelines.ts:8-68 | the trigger appends a pipeline with the body's defaults (main, null, manual) at the next id. The reply is RepoNotFound exactly when the repository is missing or deleted; the pipeline then stays PENDING and no jobs are created. Otherwise the pipeline is RUNNING and each created job is inserted and enqueued with the repository URL. The reply is JobRowMissing exactly when the repository exists and some job row was not returned, and Created exactly when the repository exists and every job row was created |
| `PipelineRoutes.DeletedRepositoryNotFound` | services/api/src/routes/pipelines.ts:18-33 | after a repository is deleted, a trigger for its id is RepoNotFound and still appends a PENDING pipeline row (with no foreign key on `pipelines.repo_id`) |
| `PipelineRoutes.TriggerKeepsValid` | services/api/src/routes/pipelines.ts:8-68 | a trigger, also on its error paths, keeps every job attached to an existing pipeline and every queue entry naming an existing job with its command |
| `PipelineRoutes.JobLoopOrderly` | services/api/src/routes/pipelines.ts:44-61 | at every statement of the job loop, every queue entry names a job row that already exists; the loop's last state is the closed-form result |
| `PipelineRoutes.TriggerStatesOrderly` | services/api/src/routes/pipelines.ts:18-61 | create-then-submit: in every state another request can observe, a job of the new pipeline exists only once the pipeline is RUNNING, and no queue entry points at a missing job; the last state is the trigger's result |
| `PipelineRoutes.ListIds` | services/api/src/routes/pipelines.ts:74-95 | the listed ids are selected by the filters and the join, distinct, newest first, at most the limit, and any selected id left out is crowded out by newer rows |
| `PipelineRoutes.List` | services/api/src/routes/pipelines.ts:71-101 | the reply lists joined rows matching the optional repository and status filters, distinct, newest first, at most `limit` (50 by default). `total` is the number returned. Every matching pipeline is listed, unless the reply is full of rows at least as new |
| `PipelineRoutes.GetPipeline` | services/api/src/routes/pipelines.ts:104-128 | 404 exactly when the pipeline or its repository row is missing; otherwise the joined row and exactly the pipeline's jobs, in id order |
| `PipelineRoutes.Cancel` | services/api/src/routes/pipelines.ts:131-145 | the pipeline becomes CANCELLED whatever its status. Its QUEUED and RUNNING jobs become CANCELLED, and nothing else changes |
| `PipelineRoutes.CancelIdempotent` | services/api/src/routes/pipelines.ts:131-145 | cancelling twice is cancelling once |
| `PipelineRoutes.CancelLeavesNoActiveJob` | services/api/src/routes/pipelines.ts:139-142 | after a cancel no job of the pipeline is QUEUED or RUNNING |
| `PipelineRoutes.CancelKeepsValid` | services/api/src/routes/pipelines.ts:131-145 | cancel keeps the store invariant |
| `JobRoutes.GetJob` | services/api/src/routes/jobs.ts:5-22 | a job is found exactly when it, its pipeline and that pipeline's repository exist; the reply carries the repository id and name |
| `JobRoutes.TriggeredJobFound` | services/api/src/routes/jobs.ts:5-22 | every job a trigger creates for an existing repository is found by the job route, as a QUEUED job of the new pipeline with that repository's id and name |
| `JobRoutes.GetJobMissing` | services/api/src/routes/jobs.ts:17-19 | an id with no job row is a 404 |
| `JobRoutes.Retry` | services/api/src/routes/jobs.ts:25-67 | a missing job is a 404 and a non-FAILED job is a 400, both writing nothing. A FAILED job is reset to QUEUED with an empty log and its other fields kept. It is re-enqueued with its command and pipeline exactly when its repository URL can be read; otherwise it stays reset with nothing enqueued |
| `JobRoutes.RetryTwiceRejected` | services/api/src/routes/jobs.ts:39-47 | a job that got past the guards is QUEUED, so an immediate second retry is a 400 that changes nothing |
| `JobRoutes.RetryKeepsValid` | services/api/src/routes/jobs.ts:57-64 | the re-enqueued entry names the retried job with its own command and pipeline |
| `Worker.DockerCommandReadBack` | services/runner/src/worker.ts:28 | the job command can be read back from the container command line between the fixed prefix and the closing quote |
| `Worker.DockerCommandInjective` | services/runner/src/worker.ts:28 | different job commands give different command lines |
| `Worker.Pickup` | services/runner/src/worker.ts:23-26 | only the picked job's status changes, to RUNNING, with no check of its previous status |
| `Worker.Finish` | services/runner/src/worker.ts:32-49 | the exec callback sets FAILED on error and SUCCESS otherwise, and replaces the log with stdout followed by stderr. The row's pipeline, name and command are kept |
| `Worker.RunJob` | services/runner/src/worker.ts:17-53 | the worker rejects exactly when the container run fails. Only the picked job changes: it keeps its pipeline, name and command, and gets its terminal status and output. The pipelines table is untouched |
| `Worker.RunJobForgetsPriorRow` | services/runner/src/worker.ts:23-49 | the row left behind depends on the job's identity fields and the exec result only, not on its previous status or log |
| `Worker.RunJobEndsTerminal` | services/runner/src/worker.ts:32-49 | every job the worker finds ends SUCCESS or FAILED, a cancelled one included |
| `Worker.RunJobKeepsValid` | services/runner/src/worker.ts:17-53 | the worker keeps the store invariant |
| `LogStream.Poll` | services/api/src/routes/logs.ts:14-35 | a missing row sends nothing. A longer log sends exactly the suffix past the cursor and advances the cursor to the log's length. A log at or below the cursor sends nothing. The stream ends exactly on SUCCESS or FAILED |
| `LogStream.Follow` | services/api/src/routes/logs.ts:12-35 | the interval loop over the rows its polls read: the cursor never decreases, whatever the rows hold, a shrinking or missing log included |
| `LogStream.DataEventHasNoLineFeed` | services/api/src/routes/logs.ts:24-28 | a data event's payload holds no line feed, so the event has exactly the two closing line feeds (carriage returns are not escaped) |
| `LogStream.FollowSendsSlice` | services/api/src/routes/logs.ts:12-28 | on a growing log the text sent is exactly the log between the first and the last cursor: nothing twice, nothing skipped |
| `LogStream.FollowFromStart` | services/api/src/routes/logs.ts:12-28 | from a fresh subscription the text sent is the log's prefix up to the cursor |
| `LogStream.FollowEndsIff` | services/api/src/routes/logs.ts:30-34 | the stream ends exactly when some poll reads SUCCESS or FAILED |
| `LogStream.FollowDataIsEscaped` | services/api/src/routes/logs.ts:24-28 | the data events together carry the sent text, escaped |
| `LogStream.FollowEndIsLast` | services/api/src/routes/logs.ts:30-34 | an end event appears only if the stream ended, and only as the last event |
| `Webhooks.HandleGithub` | services/api/src/routes/webhooks.ts:6-83 | 401 exactly when a secret and a signature are present and the signature is not the digest of the whole serialised body. A push whose URL matches no repository is a 404. A repository whose first GitHub webhook row is inactive gets 200 "disabled". Otherwise the trigger runs for the first matching repository, with a pipeline id only when it succeeded. ping gives pong, other events are acknowledged, and only a trigger writes |
| `Webhooks.PushGitUrl` | services/api/src/routes/webhooks.ts:25 | the repository URL is `clone_url` when it is non-empty, and otherwise `html_url` with `.git` appended |
| `Webhooks.BranchOfHeadsRef` | services/api/src/routes/webhooks.ts:26 | `refs/heads/<name>` gives branch `<name>` |
| `Webhooks.BranchOfOtherRef` | services/api/src/routes/webhooks.ts:26 | a ref without `refs/heads/` is used as the branch unchanged |
| `Webhooks.PushCreatesPipelineOnBranch` | services/api/src/routes/webhooks.ts:23-69 | an accepted push to `refs/heads/<name>` of a registered, enabled repository creates a RUNNING pipeline for that repository on `<name>` (main when empty), credited to `github:` plus the pusher's name or e-mail |
| `Webhooks.UnsignedDeliveryAccepted` | services/api/src/routes/webhooks.ts:12-20 | a delivery without a signature header is never rejected |
| `Webhooks.ForgedSignatureRejected` | services/api/src/routes/webhooks.ts:12-20 | with a secret configured, a wrong signature is a 401 that writes nothing |
| `Webhooks.SignatureCoversUnreadFields` | services/api/src/routes/webhooks.ts:12-20 | two deliveries that agree on every header and every field the handler reads, but whose serialised bodies have different digests, are not both accepted when a secret is configured |
| `Webhooks.UpdateMatching` | services/api/src/routes/webhooks.ts:125-128 | every row with the repository and provider gets the new secret and becomes active; no other row changes |
| `Webhooks.Register` | services/api/src/routes/webhooks.ts:113-139 | the reply is "updated" exactly when a row with the repository and provider (default github, only when absent) exists. Then all such rows get the secret (empty means null) and become active. Otherwise one active row is appended at the next id and returned. No other table changes |
| `Webhooks.RegisterKeepsUniqueKeys` | services/api/src/routes/webhooks.ts:117-136 | registration never creates a second row for a repository and provider |
| `Webhooks.RegisterIdempotent` | services/api/src/routes/webhooks.ts:113-139 | registering the same webhook twice is an update that leaves the store as registering once |
| `Webhooks.RegisterEnablesDelivery` | services/api/src/routes/webhooks.ts:123-136 | after a GitHub webhook is registered, pushes for that repository are not turned away as disabled |
| `Webhooks.SetActive` | services/api/src/routes/webhooks.ts:153-168 | an unknown id is a 404 that writes nothing; otherwise only that row's active flag changes, and the row is returned |
| `Webhooks.DisabledWebhookStopsPushes` | services/api/src/routes/webhooks.ts:40-48 | switching a repository's only GitHub webhook off makes every accepted push for it a 200 "disabled" that writes nothing |
| `Exec.TokensRoundTrip` | services/runner/src/utils/exec.ts:9-11 | the program followed by the arguments, joined with single spaces, is the command |
| `Exec.TokensOfJoin` | services/runner/src/utils/exec.ts:9-11 | space-free words joined with spaces come back as that program and those arguments |
| `Exec.DoubledSpaceGivesEmptyArgument` | services/runner/src/utils/exec.ts:9-11 | a command holding two spaces in a row anywhere passes an empty argument to the program |
| `Exec.Forwarded` | services/runner/src/utils/exec.ts:13-14 | at most one chunk per event, and when the child has not closed, exactly its chunks, stdout and stderr alike, in arrival order |
| `Exec.OnClose` | services/runner/src/utils/exec.ts:16-19 | the promise resolves exactly on exit code 0 and otherwise rejects with `Command failed: <command>` |
| `Exec.Run` | services/runner/src/utils/exec.ts:8-20 | an empty program name rejects at once with the `spawn` error and forwards nothing. Otherwise every output chunk is forwarded in order, the promise settles exactly when the child closes, and it resolves exactly when the first close has code 0 |
| `Exec.SettlesOnce` | services/runner/src/utils/exec.ts:13-19 | events after settlement leave the settlement unchanged. Their output is still forwarded in order, except when there is no child because the program name is empty |
| `Exec.RejectionNamesCommand` | services/runner/src/utils/exec.ts:9-18 | a command with a program name always rejects with the same message naming the command, whatever the exit code. One with an empty program name rejects with the `spawn` error |
| `Exec.LeadingSpaceNeverRuns` | services/runner/src/utils/exec.ts:9-11 | every command starting with a space has an empty program name, so it rejects at once without running or forwarding anything |
| `DashboardUtils.Elapsed` | dashboard/lib/utils.ts:19-21 | the end (or the clock when there is no end) minus the start, and 0 when that is negative |
| `DashboardUtils.ShownOf` | dashboard/lib/utils.ts:23-29 | hours and minutes from one hour up, minutes and seconds from one minute up, seconds below that. The smaller unit is below 60, and the shown units bound the duration to within one smaller unit |
| `DashboardUtils.ReadRender` | dashboard/lib/utils.ts:27-29 | the rendered duration text can be read back into its units |
| `DashboardUtils.FormatDurationReadsBack` | dashboard/lib/utils.ts:18-30 | the text `formatDuration` returns reads back as the units of the elapsed time |
| `DashboardUtils.NegativeDurationShowsZero` | dashboard/lib/utils.ts:21 | an end before the start shows `0s` |
| `DashboardUtils.StatusColor` | dashboard/lib/utils.ts:32-48 | one of five colour classes, gray for any unknown string |
| `DashboardUtils.StatusIcon` | dashboard/lib/utils.ts:50-66 | `?` exactly for a string that names no status |
| `DashboardUtils.IconSeparatesStatuses` | dashboard/lib/utils.ts:50-66 | two statuses share an icon exactly when they are equal or both PENDING/QUEUED |
| `DashboardUtils.ColorSeparatesStatuses` | dashboard/lib/utils.ts:32-48 | two statuses share a colour exactly when they are equal or both PENDING/QUEUED, and unknown strings get CANCELLED's colour |

## Left out

- I/O, timers and concurrency: each handler and each worker callback is one atomic step. Interleavings between requests are covered only through `TriggerStates`, the stores another request can observe between the trigger's statements.
- Reading and parsing the `.deployx.yml` manifest (YAML): the steps are an input to the trigger.
- The database and the queue broker: their failures, their delivery and retry policies, and column types. Ids arrive as strings in the source and are naturals here; a non-numeric id is not modelled.
- The HMAC-SHA256 function is the parameter `hmac`. `JSON.stringify` of the parsed body is the delivery's `serialized` field; the model does not relate its text to the fields the handler reads.
- The `fetch` from the webhook to the trigger route is modelled as a direct call. A network failure of that call (the 500 reply) is not modelled.
- The GitLab webhook endpoint: its handler is unfinished in the source and triggers nothing.
- The webhook listing route, the repository create, list and detail routes, and the health route: these are not part of the orchestration core. Repository deletion is modelled as `RepoRoutes.DeleteRepo`.
- `RepoRoutes.DeleteRepo`: whether the schema cascades the delete to pipelines, jobs and webhooks, or refuses it while they exist, is not modelled, because the schema is not part of this model. The rows referring to the repository stay, and the joins no longer find it.
- Route registration: the job, log-stream and webhook routes are modelled as handlers, although `services/api/src/app.ts` does not register them, so the server shown answers them with 404.
- A push body missing `repository`, `ref` or `pusher` makes the handler throw (500). Absent string fields rendered as `undefined` in template strings are not modelled either; an absent or empty field is the empty string.
- `Worker.DockerCommand` splices the command between double quotes without escaping; what the shell then does with an embedded quote is not modelled.
- Spawning the child process in `Exec`: the child is the sequence of events it emits. The runner's worker does not call this helper; it uses `exec` directly.
- `Exec.Run`: a program name that cannot be started (for example `ENOENT`) makes the child emit `error`. The helper has no `error` listener, so this raises an uncaught exception in the calling process. The child's events here contain no `error` event, so that crash is not modelled.
- `PipelineRoutes.GetPipeline` orders a pipeline's jobs by id. The source orders by `created_at`, and jobs are inserted one after another by the trigger loop, so the two agree.
- `PipelineRoutes.List`: rows with equal `created_at` come back in no promised order, as in SQL.
- `PipelineRoutes.List`: `limit` is a natural here. A negative or non-numeric `limit` query value reaches SQL `LIMIT` unchecked, and the database's error becomes a 500 reply; that path is not modelled.
- `Webhooks.HandleGithub` and `Webhooks.FindRepo` read the first matching row in id order. The source's queries have no ORDER BY, so the row the database returns first is not promised.
- Parsing timestamps in `formatDuration`, `NaN` durations, and `formatDate` and `cn` (locale formatting and CSS class merging): durations start from milliseconds.
- The schema is not part of this model, and the model assumes it has no foreign-key constraints. Any row may name a repository or pipeline id with no row. The trigger bullet above and `PipelineRoutes.DeletedRepositoryNotFound` hold only under that assumption: with a foreign key on `pipelines.repo_id`, the first INSERT of the trigger would fail and leave no PENDING row. Registering a webhook for a missing repository is likewise accepted here.
- Requests without a body: the trigger, webhook-registration and webhook-toggle handlers destructure `req.body` before writing, so a request with no body is an error reply in the source, with no rows written. The model's request bodies always exist, and an absent field is read as empty or absent.
- A JSON `null` in a request body cannot be expressed: `isActive` is a boolean, an absent `provider` is `None` (read as github), and an absent or empty string field is the empty string. NOT NULL constraints therefore never arise.
- `LogStream`: the client disconnect that clears the interval, and the HTTP headers. A subscription is the sequence of rows its polls read.
- `LogStream.Poll`: log lengths and the cursor count Unicode characters. JavaScript's `length` and `slice` count UTF-16 code units. The two agree while a log only grows, since the cursor then always sits at a character boundary. After a log is replaced by a different text containing characters outside the Basic Multilingual Plane, the source can resume mid-character or skip text, and the model does not show that.
