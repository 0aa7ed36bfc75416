/**
 * The runner's streaming command helper. The command line is cut at every
 * single space into the program and its arguments (no quoting, no
 * collapsing of repeated spaces). Every chunk the child writes to stdout
 * or stderr is forwarded to the log callback. The returned promise
 * settles when the child closes: it resolves on exit code 0 and otherwise
 * rejects with `Command failed: <command>`. An empty program name (an empty
 * command, or one starting with a space) makes `spawn` throw before any
 * child exists, which rejects the promise at once.
 *
 * The child process is the sequence of events it emits; `spawn` itself
 * and the working directory are left to the caller.
 */
module Exec {
  import opened Wrappers
  import opened Text

  /** `const [cmd, ...args] = command.split(" ")`: there is always a first token, possibly empty. */
  function Program(command: string): string {
    Split(command, ' ')[0]
  }

  function Args(command: string): seq<string> {
    Split(command, ' ')[1..]
  }

  /** Joining the program and its arguments with single spaces gives the command back. */
  lemma TokensRoundTrip(command: string)
    ensures Join([Program(command)] + Args(command), ' ') == command
    ensures |Args(command)| == Count(command, ' ')
  {
    var t := Split(command, ' ');
    assert [t[0]] + t[1..] == t;
    JoinSplit(command, ' ');
  }

  /** Any list of space-free words is split back into exactly those words. */
  lemma TokensOfJoin(words: seq<string>)
    requires |words| >= 1
    requires forall i :: 0 <= i < |words| ==> ' ' !in words[i]
    ensures Program(Join(words, ' ')) == words[0]
    ensures Args(Join(words, ' ')) == words[1..]
  {
    SplitJoin(words, ' ');
  }

  /** A doubled space anywhere in the command passes an empty argument to the program. */
  lemma DoubledSpaceGivesEmptyArgument(command: string, i: nat)
    requires i + 1 < |command| && command[i] == ' ' && command[i + 1] == ' '
    ensures "" in Args(command)
  {
    DoubledSeparatorGivesEmptyToken(command, ' ', i);
  }

  /** For example, `ls  -l` runs `ls` with the arguments `""` and `-l`. */
  lemma DoubledSpaceExample()
    ensures Program("ls  -l") == "ls"
    ensures Args("ls  -l") == ["", "-l"]
  {
    TokensOfJoin(["ls", "", "-l"]);
    assert Join(["ls", "", "-l"], ' ') == "ls  -l" by {
      assert Join(["-l"], ' ') == "-l";
      assert Join(["", "-l"], ' ') == " -l";
    }
  }

  /** What the child emits: output chunks, and `close` with an exit code (none when killed by a signal). */
  datatype ChildEvent = StdoutData(chunk: string) | StderrData(chunk: string) | Close(code: Option<int>)

  /**
   * How the promise settles. `EmptyProgramRejected` is the rejection with
   * the `ERR_INVALID_ARG_VALUE` error that `spawn` throws for an empty
   * program name.
   */
  datatype Settlement = Resolved | Rejected(message: string) | EmptyProgramRejected

  /** The promise settles on the first `close`; later ones do not change it. */
  datatype Observed = Observed(logs: seq<string>, settled: Option<Settlement>)

  const FailurePrefix: string := "Command failed: "

  /** The `close` handler: `code === 0` resolves, anything else (a non-zero code or none) rejects. */
  function OnClose(command: string, code: Option<int>): (r: Settlement)
    ensures r == Resolved <==> code == Some(0)
    ensures r.Rejected? ==> r.message == FailurePrefix + command
  {
    if code == Some(0) then Resolved else Rejected(FailurePrefix + command)
  }

  /** The first `close` event among `events`, if any. */
  function FirstClose(events: seq<ChildEvent>): (r: Option<nat>)
    ensures r.Some? ==> r.value < |events| && events[r.value].Close?
    ensures r.Some? ==> forall i :: 0 <= i < r.value ==> !events[i].Close?
    ensures r.None? ==> forall i :: 0 <= i < |events| ==> !events[i].Close?
    decreases |events|
  {
    if events == [] then None
    else if events[0].Close? then Some(0)
    else match FirstClose(events[1..]) {
      case None => None
      case Some(k) => Some(k + 1)
    }
  }

  /** The chunks forwarded to the log callback, stdout and stderr alike, in arrival order. */
  function Forwarded(events: seq<ChildEvent>): (r: seq<string>)
    ensures |r| <= |events|
    ensures (forall i :: 0 <= i < |events| ==> !events[i].Close?) ==>
      |r| == |events| && forall i :: 0 <= i < |r| ==> r[i] == events[i].chunk
    decreases |events|
  {
    if events == [] then []
    else (if events[0].Close? then [] else [events[0].chunk]) + Forwarded(events[1..])
  }

  /**
   * `runCommandStreaming(command, cwd, onLog)` observed over the child's
   * events; with an empty program name there is no child, so `events` is
   * never seen.
   */
  function Run(command: string, events: seq<ChildEvent>): (r: Observed)
    ensures r.settled == Some(EmptyProgramRejected) <==> Program(command) == ""
    ensures Program(command) == "" ==> r.logs == []
    ensures Program(command) != "" ==> r.logs == Forwarded(events)
    ensures Program(command) != "" ==>
      (r.settled.None? <==> forall i :: 0 <= i < |events| ==> !events[i].Close?)
    ensures Program(command) != "" ==>
      (r.settled == Some(Resolved) <==>
         exists k :: 0 <= k < |events| && events[k] == Close(Some(0)) && forall i :: 0 <= i < k ==> !events[i].Close?)
  {
    if Program(command) == "" then Observed([], Some(EmptyProgramRejected))
    else
      var settled := match FirstClose(events) {
        case None => None
        case Some(k) => Some(OnClose(command, events[k].code))
      };
      Observed(Forwarded(events), settled)
  }

  lemma {:induction false} ForwardedAppend(a: seq<ChildEvent>, b: seq<ChildEvent>)
    ensures Forwarded(a + b) == Forwarded(a) + Forwarded(b)
    decreases |a|
  {
    if a == [] {
      assert a + b == b;
    } else {
      assert (a + b)[1..] == a[1..] + b;
      assert (a + b)[0] == a[0];
      ForwardedAppend(a[1..], b);
    }
  }

  /** Events after the promise has settled change the log but never the settlement. */
  lemma SettlesOnce(command: string, a: seq<ChildEvent>, b: seq<ChildEvent>)
    requires Run(command, a).settled.Some?
    ensures Run(command, a + b).settled == Run(command, a).settled
    ensures Program(command) != "" ==> Run(command, a + b).logs == Run(command, a).logs + Forwarded(b)
    ensures Program(command) == "" ==> Run(command, a + b).logs == []
  {
    if Program(command) != "" {
      var k := FirstClose(a).value;
      var ab := a + b;
      assert ab[k] == a[k];
      assert forall i :: 0 <= i < k ==> ab[i] == a[i];
      ForwardedAppend(a, b);
    }
  }

  /**
   * A failed command always rejects with the same message, whatever its
   * exit code; a command with an empty program name rejects with the
   * `spawn` error instead.
   */
  lemma RejectionNamesCommand(command: string, events: seq<ChildEvent>)
    requires Run(command, events).settled.Some? && Run(command, events).settled != Some(Resolved)
    ensures Program(command) != "" ==> Run(command, events).settled == Some(Rejected(FailurePrefix + command))
    ensures Program(command) == "" ==> Run(command, events).settled == Some(EmptyProgramRejected)
  {
  }

  /** A command with a leading space has an empty program name, so it never runs. */
  lemma LeadingSpaceNeverRuns(command: string, events: seq<ChildEvent>)
    requires |command| > 0 && command[0] == ' '
    ensures Program(command) == ""
    ensures Run(command, events) == Observed([], Some(EmptyProgramRejected))
  {
    assert Split(command, ' ') == [[]] + Split(command[1..], ' ');
  }
}
