# Historic maintainability sampling, modelled in Dafny

This project models the core of `miner/miner.py`, a command-line tool that measures a Git
repository's Maintainability Index (MI). The tool has two commands. `static` scores the
working tree once and lists every file whose grade is worse than A. `history` does the
following:

- it takes up to `max_commits` evenly spaced commits from a ref;
- it visits every `skip`-th of them, oldest first;
- at each visit it checks the commit out, scores the tree and records
  `{sha, date, avg_mi, files}`;
- at the end it tries once to check the original revision out again.

The recorded series is then prepared for plotting. Entries whose date does not parse are
dropped. A missing average stays on the chart as a gap.

Modules, one file each:

- `Wrappers` (`wrappers.dfy`): `Option`, which stands for Python's `None` and for the NaN
  used as a chart gap, and `Result`, which stands for a raised exception.
- `Scoring` (`scoring.dfy`): `classify_radon_rating` as `Classify`, and
  `compute_average_mi` as `Average`. A report is the list of the scorer's dictionary items in
  iteration order. Each `mi` is either `Number(real)` or `NotNumber`.
- `StaticCommand` (`static_command.dfy`): the listing loop of `static`, as a method
  `Static`. Its specification is `Listed` / `Lines`.
- `Sampler` (`sampler.dfy`): `step = max(1, total // max_commits)`, Python's
  `all[::step][:max_commits]`, `commits.reverse()`, and the `idx % skip == 0` filter.
- `History` (`history.dfy`): the repository's working tree as a class `Repository`. It has
  a mutable checked-out revision `head` and a log `checkouts` of every checkout attempt.
  `History` and its loop `Walk` are methods over it. `Recorded` is the specification of the
  series they build.
- `Series` (`series.dfy`): the date and gap filtering loop that `plot_mi_time_series`
  (lines 66-83) and `render_mi_plot_bytes` (lines 106-120) both run, as the method
  `CollectPoints`. Its specification is `Points`.

The following things outside the core are parameters:

- the scorer, as `scorer: Sha -> Report`, mapping the checked-out revision to its report;
- whether a checkout succeeds, as `Repository.accepts`;
- date parsing (`datetime.fromisoformat`), as `parseDate: string -> Option<D>`;
- `round(., 2)`, as `round2`;
- `os.path.relpath`, as `relPath`.

A commit's date is its already formatted ISO string.

Behaviour worth noting:

- **No commits.** An empty commit list is not a fatal "no data" stop: walking it records an
  empty series, which is printed (`miner/miner.py:329`) when no `output` is given. With an
  `output`, rendering the empty series raises at line 120 and the command prints
  "Error creating HTML report ..." instead; that `try` (lines 310-327) is listed under
  "## Left out".
- **Bad repository path.** `Repo(repo_path)` (`miner/miner.py:245`) is outside any `try`, so
  no friendly diagnostic is produced. This is not modelled.
- **Sample size.** One might expect `step = total // N` to under-sample when `total` is
  not a multiple of `N`. It cannot: `Sampler.SelectLength` proves that for `N >= 1` the selection has exactly
  `min(N, total)` commits.
- **Restore on exceptions.** The restore is not in a `finally` block. Only a failed
  checkout is caught inside the loop, and the model has no other failure there.
- **Timestamp order.** Nothing in the code makes the series' timestamps increase. The walk
  is oldest-first only in history order.

`max_commits` and `skip` are modelled as any non-zero integer. In the source,
`max_commits = 0` divides by zero at line 254. That line sits inside the `try` of lines
248-263, so the error ends the command through the exit path described under "## Left out".
`skip = 0` divides by zero at line 276, but only once a sampled commit is reached; with an
empty history the source accepts it, while the model requires `skip != 0`. Negative values behave as Python's floor division, slicing and
modulo do, and the model follows them: the step is 1, `[:n]` drops the last `|n|` commits,
and the `skip` filter acts as `|skip|`.

## Model

| member | source | states |
|---|---|---|
| Scoring.Classify | miner/miner.py:35-45 | each grade holds exactly one half-open band of scores: A for >= 85, B for [70, 85), C for [50, 70), D for [30, 50), E below 30; boundary values take the higher grade |
| Scoring.ClassifyMonotone | miner/miner.py:35-45 | a higher score never gets a worse grade |
| Scoring.NumericValues | miner/miner.py:55 | the kept values are at most the report's size, and each is the numeric `mi` of some entry |
| Scoring.NumericValuesComplete | miner/miner.py:55 | every numeric `mi` of the report is kept |
| Scoring.Average | miner/miner.py:48-58 | no value (not zero) exactly when the report has no numeric `mi`, which includes the empty report; otherwise the value times the number of numeric entries equals their sum, so it is their mean |
| Scoring.AverageBetweenExtremes | miner/miner.py:55-58 | the mean lies between the smallest and the largest numeric value |
| Scoring.AverageIgnoresNonNumeric | miner/miner.py:55 | inserting an entry with a non-numeric `mi` anywhere leaves the average unchanged |
| Scoring.AverageExamples | tests/test_miner.py:17-20 | 90 and 70 average to 80; a non-numeric entry next to 60 gives 60 (also tests/test_miner.py:75-77); the empty report gives no value |
| Scoring.Sum | miner/miner.py:58 | no contract: the body is the definition of `sum(vals)`, left to right from 0 |
| StaticCommand.NumericPrefix | miner/miner.py:209-210 | counts the leading entries with a numeric `mi`; the next entry, if any, is the one the classifier fails on |
| StaticCommand.Listed | miner/miner.py:209-212 | the files not skipped by the `continue`: never more than the entries before the first non-numeric one; the body is the definition, and `ListedMembers`/`ListedAppend` state its meaning |
| StaticCommand.Render | miner/miner.py:213-215 | no contract: the body is the definition of the line `- <relpath>: <round(mi, 2)>, <grade>` |
| StaticCommand.Lines | miner/miner.py:209-215 | one printed line per listed file, in listing order |
| StaticCommand.ListedMembers | miner/miner.py:209-215 | a file is listed with its score iff it appears with that numeric score before the first non-numeric entry and its grade is not A; so no A file is ever listed |
| StaticCommand.ListedAppend | miner/miner.py:209-215 | listing keeps report order: a report split after numeric entries lists its parts in turn |
| StaticCommand.Static | miner/miner.py:208-215 | the printed lines are the rendering of `Listed`, in order; the command fails iff some entry's `mi` is not numeric; the classifier is called once per entry up to and including the failing one, so never on an empty report |
| StaticCommand.ListedExample | tests/test_miner.py:80-95 | of two files scoring 90 and 60, only the 60 one is listed |
| Sampler.FloorDiv | miner/miner.py:254 | Python's `//`: for a positive divisor the quotient is the largest `r` with `r * b <= a`; for a negative one, the largest `r` with `a <= r * b`, that is the `r` with `r * b + b < a <= r * b` |
| Sampler.Step | miner/miner.py:254 | the step is at least 1 |
| Sampler.StepIsOne | miner/miner.py:254 | the step is 1 when `max_commits >= total`, and when `max_commits` is negative |
| Sampler.Stride | miner/miner.py:257 | Python's `s[::step]`: never longer than `s`; `StrideLength`/`StrideAt` pin its length and elements exactly |
| Sampler.StrideLength | miner/miner.py:257 | `s[::step]` has ceil(\|s\| / step) elements |
| Sampler.StrideAt | miner/miner.py:257 | element k of `s[::step]` is `s[k * step]` |
| Sampler.Take | miner/miner.py:257 | Python's `[:n]`: a prefix of `s`, of length min(n, \|s\|) for `n >= 0`, and with the last \|n\| elements dropped for `n < 0` |
| Sampler.Select | miner/miner.py:257 | `all_commits[::step][:max_commits]`: never more commits than listed; `SelectLength`/`SelectAt` pin it exactly |
| Sampler.SelectLength | miner/miner.py:253-257 | for `max_commits >= 1` exactly min(max_commits, total) commits are selected; for a negative count, all but the last \|max_commits\| |
| Sampler.SelectAt | miner/miner.py:257 | the k-th selected commit is `all_commits[k * step]` |
| Sampler.Reverse | miner/miner.py:266 | `commits.reverse()` keeps the length; `ReverseAt` gives it element by element |
| Sampler.SampleOrder | miner/miner.py:257-266 | the walked commits: as many as selected, never more than listed |
| Sampler.SampleOrderAt | miner/miner.py:266 | after the reversal the walk has as many commits as the selection, and its k-th commit is the selection's (n - 1 - k)-th, so the walk goes oldest-first |
| Sampler.SampleMembers | miner/miner.py:250-266 | every walked commit comes from the listed history |
| Sampler.VisitedFrom | miner/miner.py:275-277 | the positions from `idx` on with `idx % skip == 0`: none past the end, at most one per remaining position |
| Sampler.Visited | miner/miner.py:275-277 | the positions the loop does not skip: never more than the sampled commits; `VisitedIsStride`/`VisitedCount` pin them exactly |
| Sampler.VisitedIsStride | miner/miner.py:275-277 | keeping the positions where `idx % skip == 0` equals the stride `s[::\|skip\|]` |
| Sampler.VisitedCount | miner/miner.py:275-277 | ceil(len / \|skip\|) commits are visited, in order, the k-th being `s[k * \|skip\|]`; none exactly when none were sampled |
| Sampler.VisitedAll | miner/miner.py:275-277 | with `skip = 1` every sampled commit is visited |
| Sampler.TenCommitsThreeSamples | miner/miner.py:253-266 | ten commits with three requested: step 3, positions 0, 3, 6, walked as 6, 3, 0 |
| Sampler.FiveCommitsSkipTwo | miner/miner.py:275-277 | five sampled commits with skip 2: positions 0, 2, 4 are visited |
| History.Repository.CurrentRevision | miner/miner.py:269-272 | returns the checked-out revision, or no value when HEAD cannot be resolved |
| History.Repository.Checkout | miner/miner.py:283-287 | every attempt is logged; HEAD moves to the commit exactly when the checkout succeeds and is unchanged otherwise |
| History.Entry | miner/miner.py:289-297 | the entry carries the commit's sha and date; `files` is the report's size, counting non-numeric entries; `avg_mi` is missing exactly when the report has no numeric `mi`, and otherwise is the rounded mean |
| History.Replay | miner/miner.py:283-287 | no contract: the body is the definition of HEAD after a run of checkouts, moving to each accepted sha and staying put on a failure |
| History.Restores | miner/miner.py:301 | no contract: the body is the definition of `if current_ref:`, a recorded and non-empty hexsha |
| History.RestoreAttempt | miner/miner.py:300-306 | at most one restoring checkout, made only when `Restores` holds, and of the recorded revision |
| History.Recorded | miner/miner.py:274-298 | the series for a run of visits: never more entries than visits; `RecordedIsSucceeded` states its meaning |
| History.Succeeded | miner/miner.py:283-287 | a commit is kept iff it is visited and its checkout succeeds; there are never more than the visits |
| History.SucceededAppend | miner/miner.py:283-298 | splitting the visits splits the successful ones the same way, so visit order is kept |
| History.RecordedIsSucceeded | miner/miner.py:283-298 | the series has one entry per successful checkout, in visit order, and the k-th entry is built from the k-th successful commit and its report; a failed checkout adds nothing, and an empty report still adds an entry |
| History.AllSucceed | miner/miner.py:283-298 | when every checkout succeeds, every visited commit is kept |
| History.Visit | miner/miner.py:283-298 | one non-skipped position: a logged checkout attempt; on success HEAD moves and exactly one entry is returned, on failure none |
| History.Walk | miner/miner.py:274-298 | the results are `Recorded` over the visited positions; the log gains the visited shas in order; HEAD is what replaying those checkouts gives |
| History.History | miner/miner.py:250-306 | the results are the entries of the successful checkouts among the visited sample; the log is every visited checkout followed by one restoring checkout, made iff a non-empty current revision was recorded, whatever failed before; a successful restore puts HEAD back at the recorded commit; a failed or absent restore leaves HEAD where the walk left it, and the results are the same either way |
| History.SeriesBound | miner/miner.py:253-298 | the series never has more entries than `max_commits` or than the history has commits |
| History.SeriesComplete | miner/miner.py:253-298 | with `skip = 1` and every checkout succeeding, the series has exactly min(max_commits, total) entries |
| History.MiddleCheckoutFails | miner/miner.py:283-298 | when the second of three checkouts fails, exactly the first and the third commits are recorded, in that order |
| Series.Points | miner/miner.py:68-80 | the points of a series (the same loop as lines 108-117): never more than the entries; `PointsMembers`/`PointsAppend`/`PointsEmpty` state its meaning |
| Series.CollectPoints | miner/miner.py:66-83 | the error is raised iff no point is left; otherwise the dates and the values (a gap for a missing average) are, index for index, those of `Points` |
| Series.PointsMembers | miner/miner.py:108-117 | a point is plotted iff some entry's date parses to its date and that entry's average (a value or a gap) is its value; entries with unparsable dates leave nothing |
| Series.PointsEmpty | miner/miner.py:119-120 | there is nothing to plot iff no entry's date parses |
| Series.GapKept | miner/miner.py:113-117 | an entry with no average but a parsable date stays on the chart as a gap at its date |
| Series.PointsAppend | miner/miner.py:106-117 | the points of a concatenated series are the points of each part in turn, so input order is kept |

## Left out

- `run_radon` (lines 18-32) is an external process plus JSON parsing. It is the `scorer`
  parameter, abstracted as a function of the checked-out revision.
- GitPython (`Repo`, `Repo.clone_from`, `iter_commits`, `git.checkout`, `head.commit`) is
  foreign code. It becomes the input commit list and `Repository.accepts`. A checkout's
  success depends only on the revision, not on the state of the working tree.
- Cloning a URL into a temporary directory, and removing that directory, is file-system I/O.
- `typer.echo`, the redirection of `static`'s output to a file, the Typer wiring in `cli.py`
  and `setup.py` are I/O and packaging. The JSON printing of the series (line 329) is also I/O.
- Matplotlib drawing, PNG bytes and base64 (lines 85-101, 122-141, 313) are a foreign
  charting backend. Only the point preparation that comes before them is modelled.
- `generate_html_report` (lines 144-183) is string templating over `json.dumps` and
  `html.escape`, both library calls. For the same reason there is no round-trip property for
  the embedded JSON.
- The `try` around report writing (lines 310-327) is not modelled. It catches the
  no-valid-dates error and prints it.
- `datetime.fromisoformat` and `isoformat` are library calls and appear as parameters.
  A `date` key missing from an entry is also skipped by the plot loop's `except`. The model's
  entries always have a date.
- `round(., 2)` and `os.path.relpath` are library calls and appear as parameters.
- Floating point is idealised as `real`. NaN, infinities and rounding error are not modelled.
  Python counts `True`/`False` as numbers in `isinstance(v, (int, float))`; the model's
  `Number` case covers whatever the scorer reports as a number.
- `Scoring.Classify` raises different exceptions in the source for a missing `mi` key
  (`KeyError`) and for a non-numeric one (`TypeError`). Both are the one `failed` flag of
  the `Run` that `StaticCommand.Static` returns.
- Dictionary key uniqueness is not modelled. A report is its item list, so `files` is its
  length.
- The tests expect `history` to exit with "Erro ao abrir" for a bad path and with
  "No commits found." for an empty history (tests/test_history.py:86-111). The code does
  neither, and the model follows the code.
- tests/test_static.py:19-34 expects an A-graded file to be printed (`- module.py: 90.12, A`).
  The `continue` at miner/miner.py:211-212 skips A files, as tests/test_miner.py:80-95 also
  expects. The model follows the code: `StaticCommand.ListedMembers` lists no A file.
- The exit path of lines 259-263 is not modelled. Any failure while listing or sampling
  commits (an unknown `branch` in `iter_commits`, or `max_commits = 0` at line 254) prints
  "Error fetching commits: ...", removes the temporary clone and raises `typer.Exit(code=1)`.
  The model takes the listed history as its input and requires `max_commits != 0`, so it has
  no such failure.
- HEAD is modelled as the checked-out commit only. Restoring checks out the hexsha recorded at
  line 270 (line 303), so a HEAD that was on a branch ends detached at the same commit. The
  model cannot tell a branch HEAD from a detached one. So `History.History` promises only
  that HEAD is back at the recorded commit, not that the branch is re-attached.
