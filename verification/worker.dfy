/**
 * The runner's queue worker. For one `run-job` entry it marks the job
 * RUNNING, runs the job's command in a throw-away `node:18` container, and
 * writes the job's terminal status and captured output.
 *
 * The container run is the parameter `exec`: it maps the shell command
 * line to whether it failed and what it printed.
 */
module Worker {
  import opened Records

  /** What `exec` hands to its callback: an error (or none), stdout and stderr. */
  datatype ExecResult = ExecResult(error: bool, stdout: string, stderr: string)

  /** How the worker's promise settles: resolved on success, rejected with the exec error. */
  datatype Settlement = Resolved | Rejected

  const DockerPrefix: string := "docker run --rm node:18 sh -c \""

  /** The command line the worker executes for a job command. */
  function DockerCommand(command: string): string {
    DockerPrefix + command + "\""
  }

  /** The job command sits between the fixed prefix and the closing quote, so it can be read back. */
  lemma DockerCommandReadBack(command: string)
    ensures var line := DockerCommand(command);
      && |line| == |DockerPrefix| + |command| + 1
      && DockerPrefix <= line
      && line[|line| - 1] == '"'
      && line[|DockerPrefix|..|line| - 1] == command
  {
    var line := DockerCommand(command);
    assert line[..|DockerPrefix|] == DockerPrefix;
    assert line[|DockerPrefix|..|line| - 1] == command;
  }

  /** Different job commands give different command lines. */
  lemma DockerCommandInjective(a: string, b: string)
    requires DockerCommand(a) == DockerCommand(b)
    ensures a == b
  {
    DockerCommandReadBack(a);
    DockerCommandReadBack(b);
  }

  /** `UPDATE jobs SET status='RUNNING' WHERE id=jobId`, with no check of the previous status. */
  function Pickup(s: Store, jobId: nat): (r: Store)
    ensures r.repos == s.repos && r.pipelines == s.pipelines && r.webhooks == s.webhooks && r.queue == s.queue
    ensures |r.jobs| == |s.jobs|
    ensures forall j :: 0 <= j < |s.jobs| && j != jobId ==> r.jobs[j] == s.jobs[j]
    ensures jobId < |s.jobs| ==> r.jobs[jobId] == s.jobs[jobId].(status := Running)
  {
    if jobId < |s.jobs| then s.(jobs := s.jobs[jobId := s.jobs[jobId].(status := Running)]) else s
  }

  /** The exec callback's UPDATE: terminal status from the error flag, logs replaced by stdout then stderr. */
  function Finish(s: Store, jobId: nat, res: ExecResult): (r: Store)
    ensures r.repos == s.repos && r.pipelines == s.pipelines && r.webhooks == s.webhooks && r.queue == s.queue
    ensures |r.jobs| == |s.jobs|
    ensures forall j :: 0 <= j < |s.jobs| && j != jobId ==> r.jobs[j] == s.jobs[j]
    ensures jobId < |s.jobs| ==>
      r.jobs[jobId] == Job(s.jobs[jobId].pipelineId, s.jobs[jobId].name, s.jobs[jobId].command,
                           if res.error then Failed else Success, res.stdout + res.stderr)
  {
    var status := if res.error then Failed else Success;
    if jobId < |s.jobs| then
      s.(jobs := s.jobs[jobId := s.jobs[jobId].(status := status, logs := res.stdout + res.stderr)])
    else s
  }

  /** The whole worker callback for one queue entry. */
  function RunJob(s: Store, p: Payload, exec: string -> ExecResult): (r: (Settlement, Store))
    ensures r.0 == Rejected <==> exec(DockerCommand(p.command)).error
    ensures r.1.pipelines == s.pipelines
    ensures r.1.repos == s.repos && r.1.webhooks == s.webhooks && r.1.queue == s.queue
    ensures |r.1.jobs| == |s.jobs|
    ensures forall j :: 0 <= j < |s.jobs| && j != p.jobId ==> r.1.jobs[j] == s.jobs[j]
    ensures p.jobId < |s.jobs| ==>
      var res := exec(DockerCommand(p.command));
      var before := s.jobs[p.jobId];
      r.1.jobs[p.jobId] == Job(before.pipelineId, before.name, before.command,
                               if res.error then Failed else Success, res.stdout + res.stderr)
  {
    var res := exec(DockerCommand(p.command));
    var s' := Finish(Pickup(s, p.jobId), p.jobId, res);
    (if res.error then Rejected else Resolved, s')
  }

  /**
   * The row the worker leaves behind depends only on the row's identity
   * fields and the exec result: the previous status and the previous log
   * play no part (the log is replaced, never appended to).
   */
  lemma RunJobForgetsPriorRow(s1: Store, s2: Store, p: Payload, exec: string -> ExecResult)
    requires p.jobId < |s1.jobs| && p.jobId < |s2.jobs|
    requires s1.jobs[p.jobId].pipelineId == s2.jobs[p.jobId].pipelineId
    requires s1.jobs[p.jobId].name == s2.jobs[p.jobId].name
    requires s1.jobs[p.jobId].command == s2.jobs[p.jobId].command
    ensures RunJob(s1, p, exec).1.jobs[p.jobId] == RunJob(s2, p, exec).1.jobs[p.jobId]
  {
  }

  /** The worker ends every job it finds in SUCCESS or FAILED, a CANCELLED one included. */
  lemma RunJobEndsTerminal(s: Store, p: Payload, exec: string -> ExecResult)
    requires p.jobId < |s.jobs|
    ensures IsTerminal(RunJob(s, p, exec).1.jobs[p.jobId].status)
  {
  }

  lemma RunJobKeepsValid(s: Store, p: Payload, exec: string -> ExecResult)
    requires Valid(s)
    ensures Valid(RunJob(s, p, exec).1)
  {
    var r := RunJob(s, p, exec).1;
    forall k | 0 <= k < |r.queue| ensures PayloadValid(r, r.queue[k]) {
      assert PayloadValid(s, s.queue[k]);
    }
  }
}
