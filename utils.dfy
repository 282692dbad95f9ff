/**
 `invoke_databricks_wheel_tasks/utils.py`: the configuration resolver
 `check_conf`, the three status pollers and the DBFS path helpers of the
 first generation of the package.

 Shelled-out commands are replaced by their already-decoded replies: a
 poller receives the sequence of replies its status query would get, one
 per query. `time.sleep` becomes a sleep counter, `print`/`pprint` are
 dropped, and the git branch, project name and wheel name are inputs.
 */
module Utils {
  import opened Common
  import opened Text
  import opened Dbfs
  import opened Polling

  // ---------------------------------------------------------------------
  // Default DBFS paths
  // ---------------------------------------------------------------------

  /** `dbfs:/FileStore/wheels/<project>/<branch>/`: under the wheels root, and ending in `/`. */
  function DefaultDbfsArtifactPath(projectName: string, currentBranch: string): (path: string)
    ensures |WheelsRoot| < |path| && path[..|WheelsRoot|] == WheelsRoot
    ensures path[|path| - 1] == '/'
  {
    WheelsDir(projectName, currentBranch)
  }

  /** The artifact directory followed by the wheel file name: the directory is a prefix, and what follows it is the wheel name. */
  function DefaultDbfsWheelPath(projectName: string, currentBranch: string, wheelName: string): (path: string)
    ensures var dir := DefaultDbfsArtifactPath(projectName, currentBranch);
      |dir| <= |path| && path[..|dir|] == dir && path[|dir|..] == wheelName
  {
    DefaultDbfsArtifactPath(projectName, currentBranch) + wheelName
  }

  /**
   In this generation the project name comes before the branch. The
   artifact path splits on `/` into the root segments, the pieces of the
   project and of the branch (one per segment of a branch such as
   `feature/x`) and an empty piece; the wheel path ends in the pieces of the
   wheel name instead. For a project and a wheel name free of `/`, each
   contributes exactly one piece.
   */
  lemma DefaultDbfsPathsLayout(projectName: string, currentBranch: string, wheelName: string)
    ensures Split(DefaultDbfsArtifactPath(projectName, currentBranch), '/')
         == ["dbfs:", "FileStore", "wheels"] + Split(projectName, '/') + Split(currentBranch, '/') + [""]
    ensures Split(DefaultDbfsWheelPath(projectName, currentBranch, wheelName), '/')
         == ["dbfs:", "FileStore", "wheels"] + Split(projectName, '/') + Split(currentBranch, '/') + Split(wheelName, '/')
    ensures '/' !in projectName && '/' !in wheelName ==>
      Split(DefaultDbfsWheelPath(projectName, currentBranch, wheelName), '/')
      == ["dbfs:", "FileStore", "wheels", projectName] + Split(currentBranch, '/') + [wheelName]
  {
    WheelsDirSegments(projectName, currentBranch);
    WheelsFileSegments(projectName, currentBranch, wheelName);
    if '/' !in projectName && '/' !in wheelName {
      SplitNoSeparator(projectName, '/');
      SplitNoSeparator(wheelName, '/');
      assert ["dbfs:", "FileStore", "wheels"] + [projectName] == ["dbfs:", "FileStore", "wheels", projectName];
    }
  }

  // ---------------------------------------------------------------------
  // The three pollers
  // ---------------------------------------------------------------------

  const ClusterTargetDefault: seq<string> := ["RUNNING"]
  const ClusterFailureDefault: seq<string> := []
  const LibraryTargetDefault: seq<string> := ["INSTALLED"]
  const LibraryFailureDefault: seq<string> := []
  const RunTargetDefault: seq<string> := ["TERMINATED"]
  const RunFailureDefault: seq<string> := ["INTERNAL_ERROR"]

  /** One entry of the `events` list that `clusters events` returns, newest first. */
  datatype ClusterEvent = ClusterEvent(eventType: string)

  /** `["events"][0]["type"]`: the newest event's type; an empty list raises. */
  function LatestEventType(events: seq<ClusterEvent>): (r: Result<string>)
    ensures r.Err? <==> |events| == 0
    ensures r.Err? ==> r.error == IndexError
    ensures r.Ok? ==> r.value == events[0].eventType
  {
    if |events| == 0 then Err(IndexError) else Ok(events[0].eventType)
  }

  function ClusterObservations(replies: seq<seq<ClusterEvent>>): seq<Result<string>>
  {
    seq(|replies|, i requires 0 <= i < |replies| => LatestEventType(replies[i]))
  }

  /**
   `wait_for_cluster_status`: one `clusters events` query per iteration,
   against the given replies; it ends, queries and sleeps exactly as the
   shared poll loop does on the newest event types.
   */
  method WaitForClusterStatus(replies: seq<seq<ClusterEvent>>, target: seq<string>, failure: seq<string>)
    returns (end: PollEnd, queries: nat, sleeps: nat)
    ensures PollTrace(end, queries, sleeps) == Poll(ClusterObservations(replies), target, failure)
  {
    ghost var observed := ClusterObservations(replies);
    var current: Option<string> := None;
    queries, sleeps := 0, 0;
    while current.None? || current.value !in target
      invariant queries <= |replies| && sleeps == queries
      invariant current.Some? && current.value in target ==>
        Poll(observed, target, failure) == PollTrace(Reached(current.value), queries, sleeps)
      invariant current.None? || current.value !in target ==>
        Poll(observed, target, failure) == PollFrom(observed, queries, target, failure)
      decreases |replies| - queries
    {
      if queries == |replies| {
        return StillPolling, queries, sleeps;
      }
      var events := replies[queries];
      queries := queries + 1;
      if |events| == 0 {
        return Crashed(IndexError), queries, sleeps;
      }
      current := Some(events[0].eventType);
      if current.value in failure {
        return Failed(current.value), queries, sleeps;
      }
      sleeps := sleeps + 1;
    }
    end := Reached(current.value);
  }

  /** With the default failure list the cluster poll never raises on a status. */
  lemma ClusterDefaultsNeverFail(replies: seq<seq<ClusterEvent>>)
    ensures !Poll(ClusterObservations(replies), ClusterTargetDefault, ClusterFailureDefault).end.Failed?
  {
    PollNeverFailsWithoutFailureList(ClusterObservations(replies), ClusterTargetDefault);
  }

  /** One entry of `library_statuses`: the wheel of its `library` (if it has a `whl` key) and its status. */
  datatype LibraryStatus = LibraryStatus(whl: Option<string>, status: string)

  /** The list comprehension keeping the entries whose `library` has a `whl` equal to `wheel`. */
  function MatchingStatuses(statuses: seq<LibraryStatus>, wheel: string): (r: seq<LibraryStatus>)
    ensures |r| <= |statuses|
    ensures forall e :: e in r ==> e in statuses && e.whl == Some(wheel)
  {
    if |statuses| == 0 then []
    else (if statuses[0].whl == Some(wheel) then [statuses[0]] else []) + MatchingStatuses(statuses[1..], wheel)
  }

  /**
   `filtered_status[0]["status"]`: the first match's status; no match
   raises. A status, when there is one, is that of an entry for `wheel`.
   */
  function SelectedLibraryStatus(statuses: seq<LibraryStatus>, wheel: string): (r: Result<string>)
    ensures r.Err? ==> r.error == IndexError
    ensures r.Ok? ==> exists k :: 0 <= k < |statuses| && statuses[k].whl == Some(wheel) && statuses[k].status == r.value
  {
    var matching := MatchingStatuses(statuses, wheel);
    assert |matching| > 0 ==> matching[0] in statuses;
    if |matching| == 0 then Err(IndexError) else Ok(matching[0].status)
  }

  /**
   The status used is that of the lowest-index entry for `wheel`; entries
   for other libraries before it play no part.
   */
  lemma {:induction false} SelectedIsFirstMatch(statuses: seq<LibraryStatus>, wheel: string, k: nat)
    requires k < |statuses| && statuses[k].whl == Some(wheel)
    requires forall j :: 0 <= j < k ==> statuses[j].whl != Some(wheel)
    ensures SelectedLibraryStatus(statuses, wheel) == Ok(statuses[k].status)
  {
    if k > 0 {
      SelectedIsFirstMatch(statuses[1..], wheel, k - 1);
    }
  }

  /** An `IndexError` exactly when no entry is for `wheel`. */
  lemma {:induction false} SelectedFailsIffNoMatch(statuses: seq<LibraryStatus>, wheel: string)
    ensures SelectedLibraryStatus(statuses, wheel).Err? <==> forall j :: 0 <= j < |statuses| ==> statuses[j].whl != Some(wheel)
  {
    if |statuses| > 0 {
      SelectedFailsIffNoMatch(statuses[1..], wheel);
      assert forall j :: 1 <= j < |statuses| ==> statuses[j] == statuses[1..][j - 1];
    }
  }

  function LibraryObservations(replies: seq<seq<LibraryStatus>>, wheel: string): seq<Result<string>>
  {
    seq(|replies|, i requires 0 <= i < |replies| => SelectedLibraryStatus(replies[i], wheel))
  }

  /**
   `wait_for_library_status`: one `libraries cluster-status` query per
   iteration; the status is that of the first entry for `wheel`.
   */
  method WaitForLibraryStatus(replies: seq<seq<LibraryStatus>>, wheel: string, target: seq<string>, failure: seq<string>)
    returns (end: PollEnd, queries: nat, sleeps: nat)
    ensures PollTrace(end, queries, sleeps) == Poll(LibraryObservations(replies, wheel), target, failure)
  {
    ghost var observed := LibraryObservations(replies, wheel);
    var current: Option<string> := None;
    queries, sleeps := 0, 0;
    while current.None? || current.value !in target
      invariant queries <= |replies| && sleeps == queries
      invariant current.Some? && current.value in target ==>
        Poll(observed, target, failure) == PollTrace(Reached(current.value), queries, sleeps)
      invariant current.None? || current.value !in target ==>
        Poll(observed, target, failure) == PollFrom(observed, queries, target, failure)
      decreases |replies| - queries
    {
      if queries == |replies| {
        return StillPolling, queries, sleeps;
      }
      var filtered := MatchingStatuses(replies[queries], wheel);
      queries := queries + 1;
      if |filtered| == 0 {
        return Crashed(IndexError), queries, sleeps;
      }
      current := Some(filtered[0].status);
      if current.value in failure {
        return Failed(current.value), queries, sleeps;
      }
      sleeps := sleeps + 1;
    }
    end := Reached(current.value);
  }

  /** With the default failure list the library poll never raises on a status. */
  lemma LibraryDefaultsNeverFail(replies: seq<seq<LibraryStatus>>, wheel: string)
    ensures !Poll(LibraryObservations(replies, wheel), LibraryTargetDefault, LibraryFailureDefault).end.Failed?
  {
    PollNeverFailsWithoutFailureList(LibraryObservations(replies, wheel), LibraryTargetDefault);
  }

  /** The reply of `runs get`: the run page URL (JSON `null` as `None`) and `state.life_cycle_state`. */
  datatype RunInfo = RunInfo(runPageUrl: Option<string>, lifeCycleState: string)

  function RunObservations(replies: seq<RunInfo>): seq<Result<string>>
  {
    seq(|replies|, i requires 0 <= i < |replies| => Ok(replies[i].lifeCycleState))
  }

  /**
   The `url` variable after the given replies: `if url is None: url =
   run_status["run_page_url"]` keeps the first URL that is not `None`. A
   URL is held exactly when some reply carried one, and it is one of theirs.
   */
  function CapturedUrl(replies: seq<RunInfo>): (url: Option<string>)
    ensures url.None? <==> forall j :: 0 <= j < |replies| ==> replies[j].runPageUrl.None?
    ensures url.Some? ==> exists j :: 0 <= j < |replies| && replies[j].runPageUrl == url
  {
    if |replies| == 0 then None
    else
      var earlier := CapturedUrl(replies[..|replies| - 1]);
      assert forall j :: 0 <= j < |replies| - 1 ==> replies[..|replies| - 1][j] == replies[j];
      if earlier.Some? then earlier else replies[|replies| - 1].runPageUrl
  }

  /** The URL captured is the one of the first reply that has one; later replies never overwrite it. */
  lemma {:induction false} CapturedUrlIsFirst(replies: seq<RunInfo>, k: nat)
    requires k < |replies| && replies[k].runPageUrl.Some?
    requires forall j :: 0 <= j < k ==> replies[j].runPageUrl.None?
    ensures CapturedUrl(replies) == replies[k].runPageUrl
    decreases |replies|
  {
    var init := replies[..|replies| - 1];
    if k < |replies| - 1 {
      CapturedUrlIsFirst(init, k);
    } else {
      CapturedUrlNoneBefore(replies, k);
    }
  }

  lemma {:induction false} CapturedUrlNoneBefore(replies: seq<RunInfo>, n: nat)
    requires n <= |replies|
    requires forall j :: 0 <= j < n ==> replies[j].runPageUrl.None?
    ensures CapturedUrl(replies[..n]) == None
    decreases n
  {
    if n > 0 {
      assert replies[..n][..n - 1] == replies[..n - 1];
      CapturedUrlNoneBefore(replies, n - 1);
    }
  }

  /** `get-output` keys shown after a successful run, in this order. */
  const DisplayKeys: seq<string> := ["error", "error_trace", "logs"]

  /** One block printed after a successful run: its key and its text. */
  datatype OutputSection = OutputSection(key: string, body: string)

  /**
   `"\n".join(text.split("\\n"))`: every two-character sequence backslash,
   `n` becomes a newline, scanning from the left.
   */
  function UnescapeNewlines(text: string): (r: string)
    ensures |r| <= |text|
    ensures |text| > 0 ==> |r| > 0 && r[0] == (if |text| >= 2 && text[0] == '\\' && text[1] == 'n' then '\n' else text[0])
    ensures forall i :: 0 <= i < |r| - 1 ==> !(r[i] == '\\' && r[i + 1] == 'n')
  {
    if |text| == 0 then ""
    else if |text| >= 2 && text[0] == '\\' && text[1] == 'n' then "\n" + UnescapeNewlines(text[2..])
    else [text[0]] + UnescapeNewlines(text[1..])
  }

  /** Text without an escaped newline is shown as it is. */
  lemma {:induction false} UnescapeNewlinesIdentity(text: string)
    requires forall i :: 0 <= i < |text| - 1 ==> !(text[i] == '\\' && text[i + 1] == 'n')
    ensures UnescapeNewlines(text) == text
    decreases |text|
  {
    if |text| > 0 {
      UnescapeNewlinesIdentity(text[1..]);
      assert text == [text[0]] + text[1..];
    }
  }

  /**
   Each backslash-`n` pair becomes one newline and the text on either side
   is unescaped on its own: together with `UnescapeNewlinesIdentity` this
   fixes the result for every text.
   */
  lemma {:induction false} UnescapeAtPair(a: string, b: string)
    ensures UnescapeNewlines(a + ['\\', 'n'] + b) == UnescapeNewlines(a) + "\n" + UnescapeNewlines(b)
    decreases |a|
  {
    if |a| == 0 {
      var s := a + ['\\', 'n'] + b;
      assert s == ['\\', 'n'] + b;
      UnescapePairStep(s);
      assert s[2..] == b;
    } else if |a| >= 2 && a[0] == '\\' && a[1] == 'n' {
      UnescapeAtPair(a[2..], b);
      UnescapeAtPairAfterPair(a, b);
    } else {
      UnescapeAtPair(a[1..], b);
      UnescapeAtPairAfterOther(a, b);
    }
  }

  /** The induction step of `UnescapeAtPair` when `a` opens with a pair. */
  lemma UnescapeAtPairAfterPair(a: string, b: string)
    requires |a| >= 2 && a[0] == '\\' && a[1] == 'n'
    requires UnescapeNewlines(a[2..] + ['\\', 'n'] + b) == UnescapeNewlines(a[2..]) + "\n" + UnescapeNewlines(b)
    ensures UnescapeNewlines(a + ['\\', 'n'] + b) == UnescapeNewlines(a) + "\n" + UnescapeNewlines(b)
  {
    var s := a + ['\\', 'n'] + b;
    PairedTextAfterPair(a, b);
    UnescapePairStep(s);
    UnescapePairStep(a);
    Regroup("\n", UnescapeNewlines(a[2..]), UnescapeNewlines(b));
  }

  /** The induction step of `UnescapeAtPair` when `a` opens with any other character. */
  lemma UnescapeAtPairAfterOther(a: string, b: string)
    requires |a| > 0 && !(|a| >= 2 && a[0] == '\\' && a[1] == 'n')
    requires UnescapeNewlines(a[1..] + ['\\', 'n'] + b) == UnescapeNewlines(a[1..]) + "\n" + UnescapeNewlines(b)
    ensures UnescapeNewlines(a + ['\\', 'n'] + b) == UnescapeNewlines(a) + "\n" + UnescapeNewlines(b)
  {
    var s := a + ['\\', 'n'] + b;
    PairedTextAfterOther(a, b);
    UnescapeOtherStep(s);
    UnescapeOtherStep(a);
    Regroup([a[0]], UnescapeNewlines(a[1..]), UnescapeNewlines(b));
  }

  /** `a + "\\n" + b` opens with the same pair as `a`, and continues with the rest of `a`. */
  lemma PairedTextAfterPair(a: string, b: string)
    requires |a| >= 2 && a[0] == '\\' && a[1] == 'n'
    ensures var s := a + ['\\', 'n'] + b;
      s[0] == '\\' && s[1] == 'n' && s[2..] == a[2..] + ['\\', 'n'] + b
  {
    var s := a + ['\\', 'n'] + b;
    assert s[0] == a[0] && s[1] == a[1];
    assert s[2..] == a[2..] + ['\\', 'n'] + b;
  }

  /** `a + "\\n" + b` opens with `a[0]`, not with a pair, when `a` does not. */
  lemma PairedTextAfterOther(a: string, b: string)
    requires |a| > 0 && !(|a| >= 2 && a[0] == '\\' && a[1] == 'n')
    ensures var s := a + ['\\', 'n'] + b;
      |s| >= 2 && s[0] == a[0] && !(s[0] == '\\' && s[1] == 'n') && s[1..] == a[1..] + ['\\', 'n'] + b
  {
    var s := a + ['\\', 'n'] + b;
    assert s[0] == a[0];
    assert s[1] == (if |a| == 1 then '\\' else a[1]);
    assert s[1..] == a[1..] + ['\\', 'n'] + b;
  }

  /** Moving the parentheses in `p + x + "\n" + y`. */
  lemma Regroup(p: string, x: string, y: string)
    ensures p + (x + "\n" + y) == (p + x) + "\n" + y
  {
  }

  /** A leading backslash-`n` pair becomes a newline. */
  lemma UnescapePairStep(t: string)
    requires |t| >= 2 && t[0] == '\\' && t[1] == 'n'
    ensures UnescapeNewlines(t) == "\n" + UnescapeNewlines(t[2..])
  {
  }

  /** Any other leading character is kept. */
  lemma UnescapeOtherStep(t: string)
    requires |t| > 0 && !(|t| >= 2 && t[0] == '\\' && t[1] == 'n')
    ensures UnescapeNewlines(t) == [t[0]] + UnescapeNewlines(t[1..])
  {
  }

  /** The blocks shown for the given keys: those present in the output, in the given order. */
  function SectionsFor(keys: seq<string>, output: map<string, string>): (r: seq<OutputSection>)
    ensures |r| <= |keys|
    ensures forall i :: 0 <= i < |r| ==>
      r[i].key in keys && r[i].key in output && r[i].body == UnescapeNewlines(output[r[i].key])
  {
    if |keys| == 0 then []
    else
      (if keys[0] in output then [OutputSection(keys[0], UnescapeNewlines(output[keys[0]]))] else [])
      + SectionsFor(keys[1..], output)
  }

  function RunOutputSections(output: map<string, string>): seq<OutputSection>
  {
    SectionsFor(DisplayKeys, output)
  }

  function SectionKeys(sections: seq<OutputSection>): seq<string>
  {
    seq(|sections|, i requires 0 <= i < |sections| => sections[i].key)
  }

  /** After a successful run, `error`, `error_trace` and `logs` are shown in that order, each only if present. */
  lemma RunOutputShowsPresentKeys(output: map<string, string>)
    ensures SectionKeys(RunOutputSections(output))
         == (if "error" in output then ["error"] else [])
          + (if "error_trace" in output then ["error_trace"] else [])
          + (if "logs" in output then ["logs"] else [])
  {
    var tail2 := SectionsFor(["logs"], output);
    var tail1 := SectionsFor(["error_trace", "logs"], output);
    assert DisplayKeys[1..] == ["error_trace", "logs"];
    assert ["error_trace", "logs"][1..] == ["logs"];
    assert ["logs"][1..] == [];
    assert SectionKeys(tail2) == (if "logs" in output then ["logs"] else []);
    assert SectionKeys(tail1) == (if "error_trace" in output then ["error_trace"] else []) + SectionKeys(tail2);
  }

  /**
   `wait_for_run_status` of this generation: one `runs get` query per
   iteration; the URL is captured from the first reply that carries one;
   after a successful end, one `runs get-output` call whose reply is
   `runOutput`, and its present diagnostic keys are shown.
   */
  method WaitForRunStatus(replies: seq<RunInfo>, target: seq<string>, failure: seq<string>, runOutput: map<string, string>)
    returns (end: PollEnd, queries: nat, sleeps: nat, url: Option<string>, shown: seq<OutputSection>)
    ensures PollTrace(end, queries, sleeps) == Poll(RunObservations(replies), target, failure)
    ensures queries <= |replies| && url == CapturedUrl(replies[..queries])
    ensures shown == if end.Reached? then RunOutputSections(runOutput) else []
  {
    ghost var observed := RunObservations(replies);
    var current: Option<string> := None;
    queries, sleeps, url, shown := 0, 0, None, [];
    while current.None? || current.value !in target
      invariant queries <= |replies| && sleeps == queries
      invariant url == CapturedUrl(replies[..queries])
      invariant current.Some? && current.value in target ==>
        Poll(observed, target, failure) == PollTrace(Reached(current.value), queries, sleeps)
      invariant current.None? || current.value !in target ==>
        Poll(observed, target, failure) == PollFrom(observed, queries, target, failure)
      decreases |replies| - queries
    {
      if queries == |replies| {
        return StillPolling, queries, sleeps, url, [];
      }
      var runStatus := replies[queries];
      assert replies[..queries + 1][..queries] == replies[..queries];
      queries := queries + 1;
      if url.None? {
        url := runStatus.runPageUrl;
      }
      current := Some(runStatus.lifeCycleState);
      if current.value in failure {
        return Failed(current.value), queries, sleeps, url, [];
      }
      sleeps := sleeps + 1;
    }
    end := Reached(current.value);
    shown := RunOutputSections(runOutput);
  }

  // ---------------------------------------------------------------------
  // check_conf
  // ---------------------------------------------------------------------

  /** A configuration value: `None`, a scalar, or a nested mapping. */
  datatype ConfValue = Null | Scalar(text: string) | Section(entries: map<string, ConfValue>)

  /** Where walking a key path through the configuration ends. */
  datatype Lookup = Found(value: ConfValue) | Missing | NotAMapping

  /**
   Walking the segments in order: each must be a key of the current value
   that maps to something other than `None`; calling `.keys()` on a value
   that is not a mapping fails.
   */
  function LookupPath(node: ConfValue, parts: seq<string>): (r: Lookup)
    ensures r.Found? && |parts| > 0 ==> r.value != Null
    decreases |parts|
  {
    if |parts| == 0 then Found(node)
    else if !node.Section? then NotAMapping
    else if parts[0] in node.entries && node.entries[parts[0]] != Null then LookupPath(node.entries[parts[0]], parts[1..])
    else Missing
  }

  function UnresolvedMessage(confKey: string): string
  {
    "Could not resolve a non-null value from " + confKey + " or required CLI flag."
  }

  /**
   What `check_conf` returns or raises: an explicit value wins; otherwise the
   dotted key is walked through the configuration, and a missing or `None`
   segment raises `ValueError` when `shouldRaise` and gives `None` when not.
   */
  function Resolve(config: map<string, ConfValue>, value: ConfValue, confKey: string, shouldRaise: bool): (r: Result<ConfValue>)
    ensures value != Null ==> r == Ok(value)
    ensures r.Err? ==> value == Null
    ensures shouldRaise ==> r != Ok(Null)
    ensures r == Ok(Null) ==> !shouldRaise && LookupPath(Section(config), Split(confKey, '.')).Missing?
  {
    if value != Null then Ok(value)
    else
      match LookupPath(Section(config), Split(confKey, '.'))
      case Found(v) => Ok(v)
      case Missing => if shouldRaise then Err(ValueError(UnresolvedMessage(confKey))) else Ok(Null)
      case NotAMapping => Err(AttributeError)
  }

  /** `check_conf`, walking the key segments one at a time as the `for` loop does. */
  method CheckConf(config: map<string, ConfValue>, value: ConfValue, confKey: string, shouldRaise: bool)
    returns (r: Result<ConfValue>)
    ensures r == Resolve(config, value, confKey, shouldRaise)
  {
    if value != Null {
      return Ok(value);
    }
    var keyParts := Split(confKey, '.');
    var output := Section(config);
    var i := 0;
    while i < |keyParts|
      invariant 0 <= i <= |keyParts|
      invariant LookupPath(Section(config), keyParts) == LookupPath(output, keyParts[i..])
    {
      var part := keyParts[i];
      assert keyParts[i..][0] == part && keyParts[i..][1..] == keyParts[i + 1..];
      if !output.Section? {
        return Err(AttributeError);
      }
      if part in output.entries && output.entries[part] != Null {
        output := output.entries[part];
      } else {
        if shouldRaise {
          return Err(ValueError(UnresolvedMessage(confKey)));
        } else {
          return Ok(Null);
        }
      }
      i := i + 1;
    }
    return Ok(output);
  }

  /** Walking `p + q` is walking `p`, then walking `q` from where `p` ended. */
  lemma {:induction false} LookupPathAppend(node: ConfValue, p: seq<string>, q: seq<string>)
    ensures LookupPath(node, p + q) == match LookupPath(node, p)
                                      case Found(m) => LookupPath(m, q)
                                      case other => other
    decreases |p|
  {
    if |p| > 0 {
      assert (p + q)[0] == p[0] && (p + q)[1..] == p[1..] + q;
      if node.Section? && p[0] in node.entries && node.entries[p[0]] != Null {
        LookupPathAppend(node.entries[p[0]], p[1..], q);
      }
    } else {
      assert p + q == q;
    }
  }

  /** The configuration holding `value` under the key path `parts` and nothing else. */
  function Nest(parts: seq<string>, value: ConfValue): ConfValue
    decreases |parts|
  {
    if |parts| == 0 then value else Section(map[parts[0] := Nest(parts[1..], value)])
  }

  /** A value stored under a key path is found again by walking that path. */
  lemma {:induction false} LookupPathNest(parts: seq<string>, value: ConfValue)
    requires value != Null
    ensures LookupPath(Nest(parts, value), parts) == Found(value)
    decreases |parts|
  {
    if |parts| > 0 {
      LookupPathNest(parts[1..], value);
    }
  }

  /**
   For a dotted key made of segments free of `.`, with no explicit value:
   a path that resolves gives the value it reaches; a path that meets a
   missing or `None` segment raises when `shouldRaise` and gives `None`
   otherwise.
   */
  lemma {:induction false} ResolveDottedKey(config: map<string, ConfValue>, parts: seq<string>, shouldRaise: bool)
    requires |parts| >= 1 && forall i :: 0 <= i < |parts| ==> '.' !in parts[i]
    ensures var r := Resolve(config, Null, Join(parts, '.'), shouldRaise);
      match LookupPath(Section(config), parts)
      case Found(v) => r == Ok(v)
      case Missing => r == (if shouldRaise then Err(ValueError(UnresolvedMessage(Join(parts, '.')))) else Ok(Null))
      case NotAMapping => r == Err(AttributeError)
  {
    SplitJoin(parts, '.');
  }

  /** `check_conf(c, None, "a.b.c")` on a configuration built with `a.b.c` set gives that value back. */
  lemma ResolveNested(parts: seq<string>, value: ConfValue, shouldRaise: bool)
    requires |parts| >= 1 && forall i :: 0 <= i < |parts| ==> '.' !in parts[i]
    requires value != Null
    ensures Resolve(Nest(parts, value).entries, Null, Join(parts, '.'), shouldRaise) == Ok(value)
  {
    LookupPathNest(parts, value);
    ResolveDottedKey(Nest(parts, value).entries, parts, shouldRaise);
  }
}
