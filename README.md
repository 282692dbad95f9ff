# invoke-databricks-wheel-tasks, modelled in Dafny

`invoke-databricks-wheel-tasks` is a set of `invoke` tasks that build a
Python wheel, upload it to DBFS, install it on a Databricks cluster and
define and run jobs that use it. Almost everything it does is a shell call
to the `databricks`, `dbfs`, `git` or `poetry` command line tools. This
project models the decision and state logic underneath those calls and
proves what it promises. That logic is:

- the configuration resolver `check_conf`;
- the status pollers for clusters, libraries and runs;
- the DBFS artifact and wheel path formats;
- the job listing and the create-or-reset job upsert with its temporary
  payload file;
- the string and mapping helpers `tidy`, `dict_from_keyvalue_list`,
  `merge_template` and `load_config`.

Modules, one concept each:

| file | module | what it holds |
|---|---|---|
| `common.dfy` | `Common` | `Option`, `Result`, the error kinds, and last-write-wins dictionary building |
| `text.dfy` | `Text` | the parts of Python's `str` the code relies on: `isspace`, `split` and `join` on one character, `endswith`, ASCII `lower` |
| `polling.dfy` | `Polling` | the poll loop shared by every `wait_for_*` function, as a function of the replies it receives, and what it does for every reply sequence |
| `dbfs.dfy` | `Dbfs` | the `dbfs:/FileStore/wheels/<a>/<b>/` directory shape and how it reads back |
| `misc.dfy` | `Misc` | `utils/misc.py` |
| `utils.dfy` | `Utils` | `utils.py`: `check_conf`, the three pollers, the run output display, the first generation of the path helpers |
| `databricks.dfy` | `Databricks` | `utils/databricks.py`: the second generation of the path helpers, `list_jobs`, `create_or_reset_job`, `wait_for_run_status` |

How the outside world appears in the model:

- **Remote side.** Each status query consumes the next element of a finite
  reply sequence, already decoded into a typed value: the cluster's event
  list, the library status list, or the run's URL and life-cycle state.
  When the replies run out the loop is still polling, because the code has
  no iteration bound. Each poller method is proved to issue exactly the
  queries, take exactly the sleeps and end exactly as the shared
  specification `Polling.Poll` says. Lemmas about `Poll` state the
  properties for every reply sequence.
- **Local files and the shell.** `create_or_reset_job` is a method of the
  class `Databricks.Session`. The class holds the working directory as a
  map from file names to contents, and a log of the shell commands issued.
  The one remote call's outcome is a parameter.
- **Third-party code.** Jinja2 rendering and the JSON and YAML parsers are
  function parameters that the model never looks inside.
- **Outputs of other tools.** The git branch, the poetry project name and
  the wheel file name are plain string inputs.

Points where the code behaves otherwise than a reader of its docstrings
might expect; the model follows the code as written:

- `load_config` picks JSON when the file name ends in `json`. The test is
  case-sensitive and needs no dot before the suffix, so `configjson` is
  JSON and `config.JSON` is rejected (`Misc.FormatUpperJsonRejected`).
  Only the `yml`/`yaml` test lower-cases the name.
- `create_or_reset_job` has no `try`/`finally`. When the remote command
  fails, the temporary `temp_job_file.json` stays behind
  (`Databricks.Session.CreateOrResetJob`). It is not cleaned up on every
  exit path.
- The library poller indexes the filtered status list with `[0]`. When no
  entry matches the wheel, the loop ends in an `IndexError`, not a
  dedicated "library not found" error (`Utils.SelectedFailsIffNoMatch`).
- The default failure lists in `utils.py` are empty for clusters and
  libraries and `["INTERNAL_ERROR"]` for runs. `utils/databricks.py` uses
  `["INTERNAL_ERROR", "SKIPPED"]` for runs. With the older defaults a
  `SKIPPED` run does not raise (`Databricks.SkippedRunRaises`).
- Walking `check_conf`'s key into a value that is not a mapping fails on
  `.keys()`. That `AttributeError` is raised even when `should_raise` is
  false (`Utils.Resolve`).
- The two path helper generations put the project and the branch in
  opposite orders: `utils.py` builds `<project>/<branch>/` and
  `utils/databricks.py` builds `<branch>/<project>/`.

## Model

| member | source | states |
|---|---|---|
| Polling.Poll | invoke_databricks_wheel_tasks/utils.py:76-89 | The loop never issues more queries than there are replies. It is still polling only once every reply has been consumed. It sleeps after every query, except one whose status raises. |
| Polling.PollFrom | invoke_databricks_wheel_tasks/utils.py:79-89 | The same bounds from any intermediate state of the loop: at least the queries already issued, at most one per reply. |
| Polling.PollOutcome | invoke_databricks_wheel_tasks/utils.py:76-89 | For every reply sequence: the loop issues one query more than the index of the first reply that raises or whose status is in the failure or target list, and consumes no reply after it. That reply decides the end, and the failure test comes first. With no such reply, every reply is consumed and the loop is still polling. A sleep follows every query that does not raise, the last successful one included. |
| Polling.PollFromOutcome | invoke_databricks_wheel_tasks/utils.py:79-89 | The same characterisation from any intermediate state of the loop. |
| Polling.PollReachedIsTarget | invoke_databricks_wheel_tasks/utils.py:79 | A loop that ends normally ends on a status that is in the target list and not in the failure list. |
| Polling.PollFailureBeforeTarget | invoke_databricks_wheel_tasks/utils.py:86-89 | A status in both lists raises after its query, with one sleep per earlier query, because the failure test precedes the loop re-test. |
| Polling.PollNeverFailsWithoutFailureList | invoke_databricks_wheel_tasks/utils.py:76 | With an empty failure list the loop never raises on a status. |
| Polling.PollScenarioReached | invoke_databricks_wheel_tasks/utils.py:79-89 | `PENDING, PENDING, RUNNING` with target `RUNNING`: three queries, three sleeps, success. |
| Polling.PollScenarioFailed | invoke_databricks_wheel_tasks/utils.py:86-87 | `PENDING, ERROR` with failure `ERROR`: raises after the second query and never issues a third. |
| Common.PairsToMap | invoke_databricks_wheel_tasks/utils/misc.py:24 | The dictionary built by a `{k: v for ...}` comprehension has exactly the keys of its pairs. `list_jobs` builds its dictionary the same way at invoke_databricks_wheel_tasks/utils/databricks.py:40. |
| Common.PairsToMapLastWins | invoke_databricks_wheel_tasks/utils/databricks.py:40 | A key maps to the value of the last pair that carries it: a later pair overwrites an earlier one. |
| Text.EndsWith | invoke_databricks_wheel_tasks/utils/misc.py:51-53 | `endswith`: the last characters of the text are those of the suffix, one by one, and the suffix is no longer than the text. |
| Text.AsciiLower | invoke_databricks_wheel_tasks/utils/misc.py:53 | `lower()` on ASCII letters: the length is kept, and each character is lowered on its own. |
| Text.Split | invoke_databricks_wheel_tasks/utils.py:144 | `str.split` on one character: there is always at least one piece, no piece holds the separator, and there is exactly one piece when the text has no separator. Used for `conf_key.split(".")` and for `x.split("=")` at invoke_databricks_wheel_tasks/utils/misc.py:24. |
| Text.SplitConcat | invoke_databricks_wheel_tasks/utils.py:144 | Splitting at any one separator gives the pieces before it followed by the pieces after it, whatever either side holds. |
| Dbfs.WheelsFileSegments | invoke_databricks_wheel_tasks/utils.py:70-73 | For any names, a file path in `dbfs:/FileStore/wheels/<a>/<b>/` splits on `/` into the three root segments, then the pieces of `a`, of `b` and of the file name. A name such as `feature/x` gives one piece per segment. |
| Dbfs.WheelsDirSegments | invoke_databricks_wheel_tasks/utils.py:64-67 | For any names, the directory splits into the root segments, the pieces of both names and a trailing empty piece. |
| Dbfs.WheelsDirInjective | invoke_databricks_wheel_tasks/utils.py:64-67 | For names free of `/`, the directory determines both names. |
| Dbfs.WheelsDirAmbiguous | invoke_databricks_wheel_tasks/utils.py:64-67 | With `/` in a name, `<x/y>/<z>` and `<x>/<y/z>` give the same directory, so the restriction above is needed. |
| Utils.DefaultDbfsArtifactPath | invoke_databricks_wheel_tasks/utils.py:64-67 | The artifact path lies under `dbfs:/FileStore/wheels/` and always ends in `/`, whatever the names hold. |
| Utils.DefaultDbfsWheelPath | invoke_databricks_wheel_tasks/utils.py:70-73 | The artifact path is a prefix of the wheel path, and what follows it is exactly the wheel file name. |
| Utils.DefaultDbfsPathsLayout | invoke_databricks_wheel_tasks/utils.py:64-73 | For any names, the artifact path splits on `/` into the root segments, the pieces of the project, then those of the branch (one per segment of a branch such as `feature/x`), then an empty piece. The project comes first. The wheel path ends in the wheel name's pieces instead. A project and wheel name free of `/` each give exactly one piece. |
| Utils.LatestEventType | invoke_databricks_wheel_tasks/utils.py:83-85 | The status is the type of the newest event, listed first. An empty event list, and only that, raises `IndexError`. |
| Utils.WaitForClusterStatus | invoke_databricks_wheel_tasks/utils.py:76-89 | The loop ends, queries and sleeps exactly as `Poll` does on the newest event type of each reply. An empty event list ends it with `IndexError`. |
| Utils.ClusterDefaultsNeverFail | invoke_databricks_wheel_tasks/utils.py:76 | With the default lists, `RUNNING` and no failure status, the cluster poll never raises on a status. |
| Utils.MatchingStatuses | invoke_databricks_wheel_tasks/utils.py:98-100 | The filter keeps only entries whose library has a `whl` equal to the wheel. |
| Utils.SelectedLibraryStatus | invoke_databricks_wheel_tasks/utils.py:98-102 | A status, when there is one, belongs to an entry for the wheel. The only error is `IndexError`. |
| Utils.SelectedIsFirstMatch | invoke_databricks_wheel_tasks/utils.py:98-102 | The status used is that of the first entry for the wheel, whatever other libraries precede it. |
| Utils.SelectedFailsIffNoMatch | invoke_databricks_wheel_tasks/utils.py:98-102 | Extraction raises `IndexError` exactly when no entry is for the wheel. |
| Utils.WaitForLibraryStatus | invoke_databricks_wheel_tasks/utils.py:92-106 | The loop ends, queries and sleeps exactly as `Poll` does on the first matching entry's status of each reply. |
| Utils.LibraryDefaultsNeverFail | invoke_databricks_wheel_tasks/utils.py:92 | With the default lists, `INSTALLED` and no failure status, the library poll never raises on a status. |
| Utils.CapturedUrl | invoke_databricks_wheel_tasks/utils.py:112-118 | A URL is held exactly when some reply so far carried one, and it is one of theirs. |
| Utils.CapturedUrlIsFirst | invoke_databricks_wheel_tasks/utils.py:117-119 | The URL kept is that of the first reply carrying one; later replies never overwrite it. |
| Utils.CapturedUrlNoneBefore | invoke_databricks_wheel_tasks/utils.py:117-118 | While no reply has carried a URL, none is held. |
| Utils.WaitForRunStatus | invoke_databricks_wheel_tasks/utils.py:109-136 | The loop ends, queries and sleeps as `Poll` does on the life-cycle states. The URL is the first one among the replies consumed. Output sections are shown only after a successful end, and they are those of the `get-output` reply. |
| Utils.UnescapeNewlines | invoke_databricks_wheel_tasks/utils.py:136 | Unescaping never lengthens the text, and no backslash-`n` pair remains afterwards. |
| Utils.UnescapeAtPair | invoke_databricks_wheel_tasks/utils.py:136 | Each backslash-`n` pair becomes one newline, and the text before and after it is unescaped separately. With `UnescapeNewlinesIdentity` this fixes the result for every text: every other character is kept. |
| Utils.UnescapeNewlinesIdentity | invoke_databricks_wheel_tasks/utils.py:136 | Text without a backslash-`n` pair is shown unchanged. |
| Utils.SectionsFor | invoke_databricks_wheel_tasks/utils.py:133-136 | Each section shown is for a listed key present in the output, and its body is that key's text with the newlines unescaped. |
| Utils.RunOutputShowsPresentKeys | invoke_databricks_wheel_tasks/utils.py:133-136 | After success, exactly the present keys among `error`, `error_trace` and `logs` are shown, in that order. |
| Utils.LookupPath | invoke_databricks_wheel_tasks/utils.py:146-148 | A path of at least one segment that resolves never reaches `None`. |
| Utils.Resolve | invoke_databricks_wheel_tasks/utils.py:139-157 | An explicit non-`None` value is returned whatever the configuration holds. Errors occur only without one. With `should_raise` the result is never `None`. A `None` result means a segment was missing or `None` and `should_raise` was false. |
| Utils.CheckConf | invoke_databricks_wheel_tasks/utils.py:139-157 | The segment-by-segment loop returns or raises exactly what `Resolve` says. |
| Utils.LookupPathAppend | invoke_databricks_wheel_tasks/utils.py:146-148 | Walking `p + q` is walking `p`, then walking `q` from where `p` ended. Failures stop the walk. |
| Utils.LookupPathNest | invoke_databricks_wheel_tasks/utils.py:144-148 | A value stored under a key path is found again by walking that path. |
| Utils.ResolveDottedKey | invoke_databricks_wheel_tasks/utils.py:144-157 | For a dotted key whose segments have no `.`, with no explicit value: a path that resolves gives the value reached. A missing or `None` segment raises `ValueError` naming the key when `should_raise`, and gives `None` otherwise. A non-mapping on the way raises `AttributeError`. |
| Utils.ResolveNested | invoke_databricks_wheel_tasks/utils.py:144-157 | A configuration built with a value under `a.b.c` resolves `a.b.c` to that value. |
| Misc.Tidy | invoke_databricks_wheel_tasks/utils/misc.py:11-19 | `re.sub(r"\s{2,}", "", text)`, with `\s` as `Text.IsSpace`, the characters `str.isspace` accepts. It never lengthens the text. `TidyKeepsExactly` characterises the result. |
| Misc.TidyKeepsExactly | invoke_databricks_wheel_tasks/utils/misc.py:11-19 | `tidy` keeps every non-whitespace character and every whitespace character whose neighbours are not whitespace, in order. It deletes exactly the whitespace runs of length two or more. |
| Misc.TidySuffix | invoke_databricks_wheel_tasks/utils/misc.py:19 | The left-to-right substitution from any position that is not inside a run matches the characterisation above. |
| Misc.TidyNoDoubleSpace | invoke_databricks_wheel_tasks/utils/misc.py:11-19 | After `tidy`, no two adjacent characters are both whitespace. |
| Misc.TidyLeavesSingleSpacing | invoke_databricks_wheel_tasks/utils/misc.py:11-19 | Text without adjacent whitespace is returned as it is. |
| Misc.TidyIdempotent | invoke_databricks_wheel_tasks/utils/misc.py:11-19 | Tidying twice gives the same text as tidying once. |
| Misc.TidyKeepsPrefix | invoke_databricks_wheel_tasks/utils/misc.py:19 | Single-spaced text ending in a non-whitespace character passes through unchanged, whatever follows it. |
| Misc.TidyDropsRun | invoke_databricks_wheel_tasks/utils/misc.py:15 | A whitespace run of two or more characters disappears entirely. |
| Misc.TidyStripsIndentation | tests/test_utils/test_misc.py:8-19 | An indented, single-spaced body between whitespace runs of two or more characters comes out as the body alone. |
| Misc.ParseItems | invoke_databricks_wheel_tasks/utils/misc.py:24 | Succeeds exactly when every item has exactly one `=`, and gives each item's key and value. Otherwise it fails on the first bad item with the number of pieces that `k, v` could not unpack. |
| Misc.DictFromKeyValueList | invoke_databricks_wheel_tasks/utils/misc.py:22-24 | No list or an empty list gives `None`. Any item without exactly one `=` raises. Otherwise the keys are exactly the items' keys. |
| Misc.DictFromKeyValueListLastWins | invoke_databricks_wheel_tasks/utils/misc.py:24 | A key maps to the value of the last item that carries it. |
| Misc.DictFromKeyValueListDuplicate | tests/test_utils/test_misc.py:25-29 | `[k=a, k=b]` gives `{k: b}`. |
| Misc.MergeTemplate | invoke_databricks_wheel_tasks/utils/misc.py:27-39 | With no configuration or an empty one, the raw text is returned unchanged. A non-empty configuration hands it to the renderer. |
| Misc.LoadConfig | invoke_databricks_wheel_tasks/utils/misc.py:42-56 | A rendering error propagates first. Otherwise the parser chosen by the file name runs on the rendered text, or `ValueError` is raised. |
| Misc.FormatOf | invoke_databricks_wheel_tasks/utils/misc.py:51-56 | JSON exactly when the name ends in `json`, case-sensitively. YAML only when the lower-cased name ends in `yml` or `yaml`. |
| Misc.FormatJsonSuffix | invoke_databricks_wheel_tasks/utils/misc.py:51-52 | Any name ending in `json` takes the JSON parser. |
| Misc.FormatUpperJsonRejected | invoke_databricks_wheel_tasks/utils/misc.py:51-56 | The JSON test is case-sensitive: a name ending in `JSON` is not supported. |
| Misc.FormatYamlSuffix | invoke_databricks_wheel_tasks/utils/misc.py:53-54 | Names ending in `yml`, `YML`, `yaml` or `YAML` take the YAML parser. |
| Misc.FormatLoweredYamlSuffix | invoke_databricks_wheel_tasks/utils/misc.py:53-54 | Any name ending in a mixed-case spelling of `yml` or `yaml` takes the YAML parser. |
| Misc.LoadConfigUnsupported | invoke_databricks_wheel_tasks/utils/misc.py:56 | Any other name raises `ValueError("File type of <name> not supported.")` once the text has rendered. |
| Databricks.ChosenBranch | invoke_databricks_wheel_tasks/utils/databricks.py:21-22 | An explicit branch name is used as given; only `None` falls back to the current branch. |
| Databricks.DefaultDbfsArtifactPath | invoke_databricks_wheel_tasks/utils/databricks.py:18-23 | The artifact path lies under `dbfs:/FileStore/wheels/` and always ends in `/`, whatever the branch and project names hold. |
| Databricks.DefaultDbfsWheelPath | invoke_databricks_wheel_tasks/utils/databricks.py:26-29 | The artifact path is a prefix of the wheel path, and what follows it is exactly the wheel file name. |
| Databricks.DefaultDbfsPathsLayout | invoke_databricks_wheel_tasks/utils/databricks.py:18-29 | For any names, the artifact path splits on `/` into the root segments, the pieces of the chosen branch (one per segment of a branch such as `feature/x`), then those of the project, then an empty piece. The branch comes first. The wheel path ends in the wheel name's pieces instead. A project and wheel name free of `/` each give exactly one piece. |
| Databricks.ArtifactPathExample | tests/test_utils/test_databricks.py:18-26 | Branch `fake_branch` and project `invoke-databricks-wheel-tasks` give the path the test expects. |
| Databricks.ListJobs | invoke_databricks_wheel_tasks/utils/databricks.py:32-41 | The keys are exactly the listed job names. |
| Databricks.ListJobsLastWins | invoke_databricks_wheel_tasks/utils/databricks.py:40 | Each name maps to the id of its last entry; a repeated name is overwritten. |
| Databricks.ChooseAction | invoke_databricks_wheel_tasks/utils/databricks.py:66-69 | A reset with the given id exactly when the id is present and non-empty. `None` and the empty string create. |
| Databricks.ProfileFlag | invoke_databricks_wheel_tasks/utils/databricks.py:58 | The flag is empty exactly when the profile is `None` or empty. Otherwise it is `--profile ` followed by the profile. |
| Databricks.JobCommand | invoke_databricks_wheel_tasks/utils/databricks.py:66-69 | Every command starts with `databricks ` and ends by naming `temp_job_file.json` as the payload file. |
| Databricks.JobCommandIsJoin | invoke_databricks_wheel_tasks/utils/databricks.py:58-69 | The command line is its words joined by single spaces. An absent profile leaves an empty word. |
| Databricks.JobCommandReadsBack | invoke_databricks_wheel_tasks/utils/databricks.py:66-69 | For a profile and an id free of spaces, splitting the command on spaces gives back its words: the sub-command, the id and the payload file name. |
| Databricks.Session.CreateOrResetJob | invoke_databricks_wheel_tasks/utils/databricks.py:44-72 | Exactly one `create` or `reset` command is issued, as `ChooseAction` says, and its reply is returned. After success `temp_job_file.json` is absent, a left-over copy included. After a failing command it holds the payload. When the command is issued, the temporary file holds exactly this call's payload, and the log records that. No other file changes. |
| Databricks.UpsertByName | invoke_databricks_wheel_tasks/utils/databricks.py:40-69 | With non-empty ids, looking a name up in `ListJobs` and passing what is found resets the listed job, and an unlisted name creates one. |
| Databricks.UpsertScenario | invoke_databricks_wheel_tasks/utils/databricks.py:66-69 | `nightly-etl` absent from the listing creates; listed with id `42`, it resets job `42`. |
| Databricks.WaitForRunStatus | invoke_databricks_wheel_tasks/utils/databricks.py:75-100 | The loop ends, queries and sleeps as `Poll` does on the life-cycle states. The URL is the first one among the replies consumed. |
| Databricks.SkippedRunRaises | invoke_databricks_wheel_tasks/utils/databricks.py:79-80 | With this generation's defaults, a `SKIPPED` run raises after the query that reports it. The older defaults keep polling through it. |

## Left out

- Shell calls (`c.run`, `invoke.run`), the commands they run for the pollers and `list_jobs`, and the JSON decoding of their output: replies arrive already decoded. A reply missing an expected key, which would raise `KeyError`, cannot be expressed.
- A status query whose command exits non-zero: the pollers' replies always decode. Only `create_or_reset_job` models a failing command.
- `time.sleep(POLL_DELAY)`, five seconds each time: the model counts the sleeps and does not track the time slept.
- `print` and `pprint` of statuses, URLs and the section banners: the model keeps what is shown, not how it is printed.
- `lru_cache` memoisation of the path helpers: the functions are pure, so caching changes nothing observable.
- `git_current_branch` and the poetry helpers (`utils/poetry.py`, and the `poetry_*` functions in `utils.py`): foreign calls; their results are inputs.
- Reading files in `merge_template` and `load_config`: the file contents arrive as a string.
- `json.dump` of the job payload: the payload arrives already serialised.
- Jinja2 rendering and the JSON and YAML parsers: function parameters, so an error they raise is whatever they return.
- The section banners' `k.upper()`: the model keeps each section's key as listed.
- Python's full Unicode `lower()`: `Text.AsciiLower` changes only ASCII letters. For the `yml`/`yaml` test this decides the same as full lowering. The only non-ASCII characters whose lower-case form holds an ASCII letter are the Kelvin sign, which lowers to `k`, and the capital I with a dot, which lowers to `i` and a combining dot. Neither `k` nor `i` occurs in `yml` or `yaml`.
- The CLI tasks in `tasks.py` and `invoke_databricks_wheel_tasks/tasks.py`, which call `check_conf` and issue the shell commands in sequence.
- The example Spark project under `tests/example_databricks_project` and the integration tests.
