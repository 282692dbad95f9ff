/**
 `invoke_databricks_wheel_tasks/utils/databricks.py`: the second generation
 of the DBFS path helpers, `list_jobs`, `create_or_reset_job` and
 `wait_for_run_status`.

 The `databricks` command line is replaced by its decoded replies, the
 local working directory by a map from file names to contents, and the
 shell by a log of the commands issued.
 */
module Databricks {
  import opened Common
  import opened Text
  import opened Dbfs
  import opened Polling
  import opened Utils

  // ---------------------------------------------------------------------
  // Default DBFS paths
  // ---------------------------------------------------------------------

  /** An explicit branch name is used as given; only `None` falls back to the current git branch. */
  function ChosenBranch(branchName: Option<string>, currentBranch: string): (b: string)
    ensures branchName.Some? ==> b == branchName.value
    ensures branchName.None? ==> b == currentBranch
  {
    if branchName.None? then currentBranch else branchName.value
  }

  /** `dbfs:/FileStore/wheels/<branch>/<project>/`: under the wheels root, and ending in `/`. */
  function DefaultDbfsArtifactPath(branchName: Option<string>, currentBranch: string, projectName: string): (path: string)
    ensures |WheelsRoot| < |path| && path[..|WheelsRoot|] == WheelsRoot
    ensures path[|path| - 1] == '/'
  {
    WheelsDir(ChosenBranch(branchName, currentBranch), projectName)
  }

  /** The artifact directory followed by the wheel file name: the directory is a prefix, and what follows it is the wheel name. */
  function DefaultDbfsWheelPath(branchName: Option<string>, currentBranch: string, projectName: string, wheelName: string): (path: string)
    ensures var dir := DefaultDbfsArtifactPath(branchName, currentBranch, projectName);
      |dir| <= |path| && path[..|dir|] == dir && path[|dir|..] == wheelName
  {
    DefaultDbfsArtifactPath(branchName, currentBranch, projectName) + wheelName
  }

  /**
   In this generation the branch comes before the project. The artifact
   path splits on `/` into the root segments, the pieces of the chosen
   branch (one per segment of a branch such as `feature/x`), the pieces of
   the project and an empty piece; the wheel path ends in the pieces of the
   wheel name instead. For a project and a wheel name free of `/`, each
   contributes exactly one piece.
   */
  lemma DefaultDbfsPathsLayout(branchName: Option<string>, currentBranch: string, projectName: string, wheelName: string)
    ensures var branch := ChosenBranch(branchName, currentBranch);
      Split(DefaultDbfsArtifactPath(branchName, currentBranch, projectName), '/')
      == ["dbfs:", "FileStore", "wheels"] + Split(branch, '/') + Split(projectName, '/') + [""]
    ensures var branch := ChosenBranch(branchName, currentBranch);
      Split(DefaultDbfsWheelPath(branchName, currentBranch, projectName, wheelName), '/')
      == ["dbfs:", "FileStore", "wheels"] + Split(branch, '/') + Split(projectName, '/') + Split(wheelName, '/')
    ensures '/' !in projectName && '/' !in wheelName ==>
      var branch := ChosenBranch(branchName, currentBranch);
      Split(DefaultDbfsWheelPath(branchName, currentBranch, projectName, wheelName), '/')
      == ["dbfs:", "FileStore", "wheels"] + Split(branch, '/') + [projectName, wheelName]
  {
    var branch := ChosenBranch(branchName, currentBranch);
    WheelsDirSegments(branch, projectName);
    WheelsFileSegments(branch, projectName, wheelName);
    if '/' !in projectName && '/' !in wheelName {
      SplitNoSeparator(projectName, '/');
      SplitNoSeparator(wheelName, '/');
      var front := ["dbfs:", "FileStore", "wheels"] + Split(branch, '/');
      assert front + [projectName] + [wheelName] == front + [projectName, wheelName];
    }
  }

  /** The expected path for the branch `fake_branch` and the project `invoke-databricks-wheel-tasks`. */
  lemma ArtifactPathExample(currentBranch: string)
    ensures DefaultDbfsArtifactPath(Some("fake_branch"), currentBranch, "invoke-databricks-wheel-tasks")
         == "dbfs:/FileStore/wheels/fake_branch/invoke-databricks-wheel-tasks/"
  {
    ExampleNames();
    ExampleRoot();
  }

  /** One literal step of `ArtifactPathExample`, kept apart because the solver runs out of resource when these steps share one proof */
  lemma ExampleNames()
    ensures "fake_branch" + "/" + "invoke-databricks-wheel-tasks" + "/" == "fake_branch/invoke-databricks-wheel-tasks/"
  {
  }

  /** One literal step of `ArtifactPathExample`, kept apart because the solver runs out of resource when these steps share one proof */
  lemma ExampleRoot()
    ensures WheelsRoot + "fake_branch/invoke-databricks-wheel-tasks/"
         == "dbfs:/FileStore/wheels/fake_branch/invoke-databricks-wheel-tasks/"
  {
    assert WheelsRoot + "fake_branch/invoke-databricks-wheel-tasks/"
        == (WheelsRoot + "fake_branch/") + "invoke-databricks-wheel-tasks/";
    ExampleBranch();
    ExampleProject();
  }

  /** One literal step of `ExampleRoot`, kept apart because the solver runs out of resource when these steps share one proof */
  lemma ExampleBranch()
    ensures WheelsRoot + "fake_branch/" == "dbfs:/FileStore/wheels/fake_branch/"
  {
  }

  /** One literal step of `ExampleRoot`, kept apart because the solver runs out of resource when these steps share one proof */
  lemma ExampleProject()
    ensures "dbfs:/FileStore/wheels/fake_branch/" + "invoke-databricks-wheel-tasks/"
         == "dbfs:/FileStore/wheels/fake_branch/invoke-databricks-wheel-tasks/"
  {
  }

  // ---------------------------------------------------------------------
  // list_jobs
  // ---------------------------------------------------------------------

  /** One entry of the `jobs` list: `settings.name` and `job_id`. */
  datatype JobEntry = JobEntry(name: string, jobId: string)

  function JobPairs(entries: seq<JobEntry>): (pairs: seq<(string, string)>)
    ensures |pairs| == |entries|
    ensures forall i :: 0 <= i < |entries| ==> pairs[i] == (entries[i].name, entries[i].jobId)
  {
    seq(|entries|, i requires 0 <= i < |entries| => (entries[i].name, entries[i].jobId))
  }

  /** The dict comprehension `{e["settings"]["name"]: e["job_id"] for e in jobs}`; its keys are exactly the listed names. */
  function ListJobs(entries: seq<JobEntry>): (jobs: map<string, string>)
    ensures jobs.Keys == set i | 0 <= i < |entries| :: entries[i].name
  {
    var pairs := JobPairs(entries);
    assert KeysOf(pairs) == set i | 0 <= i < |entries| :: entries[i].name by {
      forall k | k in KeysOf(pairs) ensures k in set i | 0 <= i < |entries| :: entries[i].name {
        var i :| 0 <= i < |pairs| && pairs[i].0 == k;
        assert entries[i].name == k;
      }
      forall k | k in set i | 0 <= i < |entries| :: entries[i].name ensures k in KeysOf(pairs) {
        var i :| 0 <= i < |entries| && entries[i].name == k;
        assert pairs[i].0 == k;
      }
    }
    PairsToMap(pairs)
  }

  /** Each name maps to the id of its last entry: a later entry with the same name overwrites. */
  lemma ListJobsLastWins(entries: seq<JobEntry>, i: nat)
    requires i < |entries|
    requires forall j :: i < j < |entries| ==> entries[j].name != entries[i].name
    ensures entries[i].name in ListJobs(entries) && ListJobs(entries)[entries[i].name] == entries[i].jobId
  {
    var pairs := JobPairs(entries);
    assert forall j :: i < j < |pairs| ==> pairs[j].0 != pairs[i].0;
    PairsToMapLastWins(pairs, i);
  }

  // ---------------------------------------------------------------------
  // create_or_reset_job
  // ---------------------------------------------------------------------

  /** The temporary file the job payload is written to. */
  const TempJobFile: string := "temp_job_file.json"

  /** Which `jobs` sub-command is issued. */
  datatype JobAction = CreateJob | ResetJob(jobId: string)

  /** `if job_id:`: a reset for a truthy id, a create for `None` and for the empty string. */
  function ChooseAction(jobId: Option<string>): (a: JobAction)
    ensures a.ResetJob? <==> jobId.Some? && jobId.value != ""
    ensures a.ResetJob? ==> a.jobId == jobId.value
  {
    if jobId.Some? && jobId.value != "" then ResetJob(jobId.value) else CreateJob
  }

  /**
   `profile_flag`: `--profile <profile>` for a truthy profile, otherwise
   nothing; the flag is empty exactly when the profile is `None` or empty.
   */
  function ProfileFlag(profile: Option<string>): (flag: string)
    ensures flag == "" <==> profile.None? || profile.value == ""
    ensures flag != "" ==> |flag| == 10 + |profile.value| && flag[..10] == "--profile " && flag[10..] == profile.value
  {
    if profile.Some? && profile.value != "" then "--profile " + profile.value else ""
  }

  /** The `jobs` sub-command with its arguments, up to the payload file. */
  function ActionText(action: JobAction): string
  {
    match action
    case ResetJob(id) => "jobs reset --job-id " + id
    case CreateJob => "jobs create"
  }

  /**
   The command `create_or_reset_job` hands to the shell for the chosen
   action: it always runs `databricks` and always reads the payload from
   the temporary file.
   */
  function JobCommand(profile: Option<string>, action: JobAction): (command: string)
    ensures |"databricks "| <= |command| && command[..|"databricks "|] == "databricks "
    ensures EndsWith(command, " --json-file " + TempJobFile)
  {
    var middle := ProfileFlag(profile) + " " + ActionText(action);
    FramedBy("databricks ", middle, " --json-file " + TempJobFile);
    "databricks " + middle + (" --json-file " + TempJobFile)
  }

  function ProfileWords(profile: Option<string>): seq<string>
  {
    if profile.Some? && profile.value != "" then ["--profile", profile.value] else [""]
  }

  function ActionWords(action: JobAction): seq<string>
  {
    match action
    case ResetJob(id) => ["jobs", "reset", "--job-id", id]
    case CreateJob => ["jobs", "create"]
  }

  /** The words of a command line, an absent profile leaving an empty word (a doubled space). */
  function JobCommandWords(profile: Option<string>, action: JobAction): seq<string>
  {
    ["databricks"] + (ProfileWords(profile) + (ActionWords(action) + ["--json-file", TempJobFile]))
  }

  /** One literal step of `ProfileJoin`, kept apart because the solver runs out of resource when these steps share one proof */
  lemma FlagText(p: string)
    ensures "--profile" + [' '] + p == "--profile " + p
  {
  }

  lemma ProfileJoin(profile: Option<string>, rest: seq<string>)
    requires |rest| >= 1
    ensures Join(ProfileWords(profile) + rest, ' ') == ProfileFlag(profile) + [' '] + Join(rest, ' ')
  {
    if profile.Some? && profile.value != "" {
      var p := profile.value;
      JoinPair("--profile", p, rest, ' ');
      FlagText(p);
      assert ProfileWords(profile) == ["--profile", p];
      assert ProfileFlag(profile) == "--profile " + p;
    } else {
      JoinCons("", rest, ' ');
    }
  }

  /** One literal step of `ActionJoin`, kept apart because the solver runs out of resource when these steps share one proof */
  lemma ResetWords(id: string, rest: seq<string>)
    ensures ActionWords(ResetJob(id)) + rest == ["jobs", "reset"] + (["--job-id", id] + rest)
  {
  }

  /** One literal step of `ActionJoin`, kept apart because the solver runs out of resource when these steps share one proof */
  lemma ResetText(id: string, j: string)
    ensures "jobs" + [' '] + "reset" + [' '] + ("--job-id" + [' '] + id + [' '] + j) == ActionText(ResetJob(id)) + [' '] + j
  {
  }

  /** One literal step of `ActionJoin`, kept apart because the solver runs out of resource when these steps share one proof */
  lemma CreateText(j: string)
    ensures "jobs" + [' '] + "create" + [' '] + j == ActionText(CreateJob) + [' '] + j
  {
  }

  lemma ActionJoin(action: JobAction, rest: seq<string>)
    requires |rest| >= 1
    ensures Join(ActionWords(action) + rest, ' ') == ActionText(action) + [' '] + Join(rest, ' ')
  {
    var j := Join(rest, ' ');
    if action.ResetJob? {
      var id := action.jobId;
      var inner := ["--job-id", id] + rest;
      JoinPair("--job-id", id, rest, ' ');
      JoinPair("jobs", "reset", inner, ' ');
      ResetWords(id, rest);
      ResetText(id, j);
    } else {
      JoinPair("jobs", "create", rest, ' ');
      CreateText(j);
    }
  }

  /** One literal step of `JobCommandIsJoin`, kept apart because the solver runs out of resource when these steps share one proof */
  lemma CommandText(flag: string, action: string)
    ensures "databricks" + [' '] + (flag + [' '] + (action + [' '] + ("--json-file" + [' '] + TempJobFile)))
         == "databricks " + (flag + " " + action) + (" --json-file " + TempJobFile)
  {
    CommandRegroup("databricks", flag, action, "--json-file" + [' '] + TempJobFile);
    CommandPieces();
  }

  /** One literal step of `CommandText`, kept apart because the solver runs out of resource when these steps share one proof */
  lemma CommandRegroup(d: string, flag: string, action: string, t: string)
    ensures d + [' '] + (flag + [' '] + (action + [' '] + t)) == (d + [' ']) + (flag + [' '] + action) + ([' '] + t)
  {
  }

  /** One literal step of `CommandText`, kept apart because the solver runs out of resource when these steps share one proof */
  lemma CommandPieces()
    ensures "databricks" + [' '] == "databricks "
    ensures [' '] == " "
    ensures [' '] + ("--json-file" + [' '] + TempJobFile) == " --json-file " + TempJobFile
  {
  }

  /** The command line is its words separated by single spaces. */
  lemma JobCommandIsJoin(profile: Option<string>, action: JobAction)
    ensures JobCommand(profile, action) == Join(JobCommandWords(profile, action), ' ')
  {
    var tail := ["--json-file", TempJobFile];
    JoinCons("--json-file", [TempJobFile], ' ');
    ActionJoin(action, tail);
    ProfileJoin(profile, ActionWords(action) + tail);
    JoinCons("databricks", ProfileWords(profile) + (ActionWords(action) + tail), ' ');
    CommandText(ProfileFlag(profile), ActionText(action));
  }

  /**
   For a profile and an id free of spaces, the command splits on spaces into
   its words: the sub-command, the job id and the payload file can be read
   back from the command line.
   */
  lemma JobCommandReadsBack(profile: Option<string>, action: JobAction)
    requires profile.Some? ==> ' ' !in profile.value
    requires action.ResetJob? ==> ' ' !in action.jobId
    ensures Split(JobCommand(profile, action), ' ') == JobCommandWords(profile, action)
  {
    var words := JobCommandWords(profile, action);
    assert forall i :: 0 <= i < |words| ==> ' ' !in words[i];
    JobCommandIsJoin(profile, action);
    SplitJoin(words, ' ');
  }

  /**
   One command handed to the shell, with what `temp_job_file.json` held at
   that moment (`None` when the file did not exist): `--json-file` makes the
   command read its payload from there.
   */
  datatype Issued = Issued(command: string, payloadFile: Option<string>)

  /**
   The local working directory (file name to contents) and the shell
   (the commands issued, in order) of one task run.
   */
  class Session {
    var files: map<string, string>
    var commands: seq<Issued>

    constructor(initialFiles: map<string, string>)
      ensures files == initialFiles && commands == []
    {
      files := initialFiles;
      commands := [];
    }

    /**
     `create_or_reset_job`: remove a left-over temporary file, write the
     payload (already serialised as JSON) to it, issue one `jobs create` or
     `jobs reset` command, remove the file and return the command's output.
     `reply` is what that one command yields; a failing command raises out
     of the call before the removal, so the file is left behind. No other
     file is touched. When the command runs, the temporary file holds
     exactly this call's payload.
     */
    method CreateOrResetJob(payloadJson: string, profile: Option<string>, jobId: Option<string>, reply: Result<string>)
      returns (r: Result<string>)
      modifies this
      ensures commands == old(commands) + [Issued(JobCommand(profile, ChooseAction(jobId)), Some(payloadJson))]
      ensures r == reply
      ensures reply.Ok? ==> files == old(files) - {TempJobFile}
      ensures reply.Err? ==> files == old(files)[TempJobFile := payloadJson]
    {
      if TempJobFile in files {
        files := files - {TempJobFile};
      }
      files := files[TempJobFile := payloadJson];
      var action := ChooseAction(jobId);
      var onDisk := if TempJobFile in files then Some(files[TempJobFile]) else None;
      commands := commands + [Issued(JobCommand(profile, action), onDisk)];
      if reply.Err? {
        return reply;
      }
      files := files - {TempJobFile};
      return reply;
    }
  }

  /**
   Upserting by name: looking the job name up in `ListJobs` and passing the
   id found resets that job, while a name not listed creates a new one.
   */
  lemma UpsertByName(entries: seq<JobEntry>, name: string)
    requires forall i :: 0 <= i < |entries| ==> entries[i].jobId != ""
    ensures var jobs := ListJobs(entries);
      var found := if name in jobs then Some(jobs[name]) else None;
      && (name in jobs ==> ChooseAction(found) == ResetJob(jobs[name]))
      && (name !in jobs ==> ChooseAction(found) == CreateJob)
  {
    var jobs := ListJobs(entries);
    if name in jobs {
      var i :| 0 <= i < |entries| && entries[i].name == name;
      var last := LastWithName(entries, name, i);
      ListJobsLastWins(entries, last);
    }
  }

  /** A job name not listed is created; a name listed with id `42` is reset with that id. */
  lemma UpsertScenario()
    ensures var jobs := ListJobs([JobEntry("daily-report", "7")]);
      "nightly-etl" !in jobs && ChooseAction(None) == CreateJob
    ensures var jobs := ListJobs([JobEntry("daily-report", "7"), JobEntry("nightly-etl", "42")]);
      "nightly-etl" in jobs && ChooseAction(Some(jobs["nightly-etl"])) == ResetJob("42")
  {
    var entries := [JobEntry("daily-report", "7"), JobEntry("nightly-etl", "42")];
    ListJobsLastWins(entries, 1);
  }

  /** The index of the last entry carrying `name`, at or after `i`. */
  lemma LastWithName(entries: seq<JobEntry>, name: string, i: nat) returns (last: nat)
    requires i < |entries| && entries[i].name == name
    ensures i <= last < |entries| && entries[last].name == name
    ensures forall j :: last < j < |entries| ==> entries[j].name != name
    decreases |entries| - i
  {
    if j :| i < j < |entries| && entries[j].name == name {
      last := LastWithName(entries, name, j);
    } else {
      last := i;
    }
  }

  // ---------------------------------------------------------------------
  // wait_for_run_status
  // ---------------------------------------------------------------------

  const RunTarget: seq<string> := ["TERMINATED"]
  const RunFailure: seq<string> := ["INTERNAL_ERROR", "SKIPPED"]

  /**
   `wait_for_run_status` of this generation: one `runs get` query per
   iteration, the URL captured from the first reply that carries one, and
   no output fetched afterwards.
   */
  method WaitForRunStatus(replies: seq<RunInfo>, target: seq<string>, failure: seq<string>)
    returns (end: PollEnd, queries: nat, sleeps: nat, url: Option<string>)
    ensures PollTrace(end, queries, sleeps) == Poll(RunObservations(replies), target, failure)
    ensures queries <= |replies| && url == CapturedUrl(replies[..queries])
  {
    ghost var observed := RunObservations(replies);
    var current: Option<string> := None;
    queries, sleeps, url := 0, 0, None;
    while current.None? || current.value !in target
      invariant queries <= |replies| && sleeps == queries
      invariant url == CapturedUrl(replies[..queries])
      invariant current.Some? && current.value in target ==>
        Poll(observed, target, failure) == PollTrace(Reached(current.value), queries, sleeps)
      invariant current.None? || current.value !in target ==>
        Poll(observed, target, failure) == PollFrom(observed, queries, target, failure)
      decreases |replies| - queries
    {
      if queries == |replies| {
        return StillPolling, queries, sleeps, url;
      }
      var runStatus := replies[queries];
      assert replies[..queries + 1][..queries] == replies[..queries];
      queries := queries + 1;
      if url.None? {
        url := runStatus.runPageUrl;
      }
      current := Some(runStatus.lifeCycleState);
      if current.value in failure {
        return Failed(current.value), queries, sleeps, url;
      }
      sleeps := sleeps + 1;
    }
    end := Reached(current.value);
  }

  /**
   With this generation's defaults a `SKIPPED` run raises after the query
   that reports it, where the older defaults keep polling through it.
   */
  lemma SkippedRunRaises(replies: seq<RunInfo>, k: nat)
    requires k < |replies| && replies[k].lifeCycleState == "SKIPPED"
    requires forall j :: 0 <= j < k ==> replies[j].lifeCycleState !in RunTarget + RunFailure
    ensures Poll(RunObservations(replies), RunTarget, RunFailure) == PollTrace(Failed("SKIPPED"), k + 1, k)
    ensures !IsTerminal(RunObservations(replies)[k], RunTargetDefault, RunFailureDefault)
  {
    var observed := RunObservations(replies);
    forall j | 0 <= j < k ensures !IsTerminal(observed[j], RunTarget, RunFailure) {
      assert observed[j] == Ok(replies[j].lifeCycleState);
    }
    PollOutcome(observed, RunTarget, RunFailure);
    var t := Poll(observed, RunTarget, RunFailure);
    assert IsTerminal(observed[k], RunTarget, RunFailure);
    assert !t.end.StillPolling?;
  }
}
