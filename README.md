# snap-sync-cleanup, modelled in Dafny

snap-sync-cleanup enforces a retention policy on the btrfs snapshots that
snap-sync mirrors to a remote volume. Under `<remote>/<config>` every snapshot
is a numbered directory holding a `subvolume`. The script works in four steps:

1. It asks snapper which snapshot carries the marker "latest incremental backup".
2. It lists the numbered snapshot directories.
3. It sorts them by number and walks them oldest first.
4. When there are more snapshots than `max_keep`, it deletes every snapshot
   except the latest marked one (while something is to be kept) and the
   filesystem root. Each deletion has two stages: remove the subvolume, then
   remove the directory tree. A failed subvolume removal raises an exception
   that ends the run.

The model follows the script's one source file:

- `wrappers.dfy` (module `Wrappers`): `Option` and `Result`.
- `text.dfy` (`Text`): three string operations. A substring test (`in` on
  strings), the first field of `split(" ")`, and a decimal parser standing in
  for `int()`. The parser has an inverse, and a lemma proves the round trip.
- `paths.dfy` (`Paths`): paths as strings, `is_absolute`, `joinpath`.
- `snapper.dfy` (`Snapper`): `get_latest_snapshot_num`. A method scans the
  lines backward, as the source does. It is proved equal to a specification
  function, and lemmas describe that function: it finds the last matching line.
- `snapshots.dfy` (`Snapshots`): the snapshot record and the numeric sort of
  line 225. The sort is a stable insertion sort, proved sorted, a permutation
  and stable. It is also proved to be the only stable result, so it agrees with
  Python's `list.sort`.
- `enumerator.dfy` (`Enumerator`): `get_snapshots`, as an appending loop proved
  equal to an ordered filter.
- `deleter.dfy` (`Deleter`): `delete_snapshot`, with early returns. It reports
  which external removals it started. As written it raises when the subvolume
  removal fails; beside it is the version that returns False there (see
  Findings).
- `retention.dfy` (`Retention`): the loop of lines 224-258, as written
  (`Retain`, which sorts and then runs the loop `Walk`). Beside it is the loop
  with the attempt counter incremented and the deleter returning False on a
  failed subvolume removal (`RetainIntended` and `WalkIntended`), as described
  under Findings.
- `cleanup.dfy` (`Cleanup`): one whole run, from snapper's answer to the exit
  status.
- `findings.dfy` (`Findings`): worked examples of five snapshots, with the
  latest marker on 5.

The things the script reads from the outside world are parameters:

- snapper's exit status, its output lines and its error stream;
- whether the snapshot root exists;
- the directory listing, given as names with an is-directory flag, in
  iteration order;
- for each path, the outcomes of the two removal stages.

Two details of the code that the model keeps:

- **Marker scan.** A marker line whose first token does not parse is passed
  over (`except: pass`, lines 111-115), and earlier lines are tried.
  `LatestMarked` does the same.
- **Negative numbers.** `int()` also accepts names like `-1`, and so does
  `ParseInt`. Such a directory is enumerated like any other snapshot.

## Model

| member | source | states |
|---|---|---|
| Text.Contains | snap-sync-cleanup/snap-sync-cleanup.py:107 | `sub in s` holds exactly when some window of `s` spells `sub` |
| Text.FirstToken | snap-sync-cleanup/snap-sync-cleanup.py:110 | `split(" ")[0]` is the prefix of the line that has no space and ends at the first space or at the end of the line |
| Text.ParseInt | snap-sync-cleanup/snap-sync-cleanup.py:111-115 | `int()` on a string of ASCII characters: succeeds exactly on an optionally signed non-empty digit string (the 4300-digit limit of Python 3.11 and later is not modelled); a numeral ends in a digit; an unsigned one denotes a non-negative number |
| Text.DigitsValueOfDecimal | snap-sync-cleanup/snap-sync-cleanup.py:112 | the digit string of a natural number evaluates back to that number |
| Text.ParseIntRoundTrip | snap-sync-cleanup/snap-sync-cleanup.py:112 | `int()` reads every integer back from its decimal numeral |
| Paths.IsAbsolute | snap-sync-cleanup/snap-sync-cleanup.py:154 | `PosixPath.is_absolute()`: the path starts with `/` (the assertion at the head of `delete_snapshot`) |
| Paths.JoinPath | snap-sync-cleanup/snap-sync-cleanup.py:156 | `joinpath` onto an absolute directory (the only kind the script joins onto) gives an absolute path; a relative name keeps the directory as its prefix; a non-empty relative name makes the result longer than the directory and ends the result |
| Snapper.MarkedNumber | snap-sync-cleanup/snap-sync-cleanup.py:107-115 | a listing line yields a number exactly when it contains the marker and its first token is a numeral |
| Snapper.LatestMarked | snap-sync-cleanup/snap-sync-cleanup.py:106-117 | the scan result that `GetLatestSnapshotNum` is proved equal to: the number on the last line, in output order, that yields one; its meaning is stated by the four lemmas below |
| Snapper.LastMatchFound | snap-sync-cleanup/snap-sync-cleanup.py:106-117 | when the scan yields `n`, some line carries `n` and no later line yields a number |
| Snapper.LastMatchExtends | snap-sync-cleanup/snap-sync-cleanup.py:106-117 | a line that yields no number, after the last match, leaves that match the last one |
| Snapper.LastMatchScanned | snap-sync-cleanup/snap-sync-cleanup.py:106-117 | when a line carries `n` and no later line yields a number, the scan yields `n` |
| Snapper.LatestMarkedIsLastMatch | snap-sync-cleanup/snap-sync-cleanup.py:106-117 | the scan yields `n` if and only if `n` is carried by the last line, in output order, that has the marker and a numeral first token; a marker line that does not parse is passed over |
| Snapper.LatestMarkedNone | snap-sync-cleanup/snap-sync-cleanup.py:117 | the scan yields None if and only if no line has the marker with a numeral first token |
| Snapper.GetLatestSnapshotNum | snap-sync-cleanup/snap-sync-cleanup.py:85-117 | a non-zero snapper status is fatal whatever stdout holds; the permissions error is chosen iff stderr contains "No permissions"; on status 0 the backward loop returns the scan's result |
| Snapshots.InsertPermutes | snap-sync-cleanup/snap-sync-cleanup.py:225 | inserting adds exactly the inserted snapshot |
| Snapshots.InsertSorted | snap-sync-cleanup/snap-sync-cleanup.py:225 | inserting into a sorted list keeps it sorted |
| Snapshots.InsertStable | snap-sync-cleanup/snap-sync-cleanup.py:225 | an insert puts the new snapshot before every equal-numbered one already present |
| Snapshots.SortByNumber | snap-sync-cleanup/snap-sync-cleanup.py:225 | the sort by snapshot number, as a stable insertion sort; what it computes is stated by the SortByNumber lemmas below |
| Snapshots.SortByNumberSorts | snap-sync-cleanup/snap-sync-cleanup.py:225 | after the sort, snapshot numbers never decrease |
| Snapshots.SortByNumberPermutes | snap-sync-cleanup/snap-sync-cleanup.py:225 | the sorted list is a permutation of the enumerated list |
| Snapshots.SortByNumberElements | snap-sync-cleanup/snap-sync-cleanup.py:225 | the sorted list has the input's length and only input snapshots |
| Snapshots.SortByNumberStable | snap-sync-cleanup/snap-sync-cleanup.py:225 | the sort is stable: snapshots with the same number keep their enumeration order |
| Snapshots.SameHead | snap-sync-cleanup/snap-sync-cleanup.py:225 | two sorted lists that agree number by number start with the same snapshot |
| Snapshots.SameTails | snap-sync-cleanup/snap-sync-cleanup.py:225 | dropping that common first snapshot keeps the lists in agreement |
| Snapshots.StableSortIsUnique | snap-sync-cleanup/snap-sync-cleanup.py:225 | two sorted lists with the same per-number order are equal |
| Snapshots.SortByNumberIsAnyStableSort | snap-sync-cleanup/snap-sync-cleanup.py:225 | every stable sort by number, Python's `list.sort` included, gives exactly SortByNumber's result |
| Enumerator.IsSnapshotDir | snap-sync-cleanup/snap-sync-cleanup.py:138-146 | a child is kept exactly when `is_dir()` holds for it and `int()` accepts its name; otherwise one of the two `continue`s skips it |
| Enumerator.SnapshotOf | snap-sync-cleanup/snap-sync-cleanup.py:148 | the `(num, child)` pair appended for a kept child: its parsed number and its path under the root |
| Enumerator.Enumerated | snap-sync-cleanup/snap-sync-cleanup.py:130-150 | the snapshots `get_snapshots` lists under an absolute root: no more than the children, each at an absolute path; the lemmas below pin down exactly which |
| Enumerator.PositionsMatch | snap-sync-cleanup/snap-sync-cleanup.py:137-148 | the k-th enumerated snapshot is the parsed form of the child at the k-th snapshot position |
| Enumerator.PositionsIncrease | snap-sync-cleanup/snap-sync-cleanup.py:137 | the snapshot positions are valid indices and strictly increase (iteration order is kept) |
| Enumerator.PositionsComplete | snap-sync-cleanup/snap-sync-cleanup.py:138-148 | every directory child with an integer name has a snapshot position |
| Enumerator.EnumeratedIsOrderedFilter | snap-sync-cleanup/snap-sync-cleanup.py:130-150 | the output is exactly the directory children with integer names, each paired with its number, in iteration order, and is no longer than the listing |
| Enumerator.EnumeratedSkips | snap-sync-cleanup/snap-sync-cleanup.py:138-146 | every output entry comes from a directory child whose name parses; non-directories and non-numeric names never appear |
| Enumerator.EnumeratedPathsAreSafe | snap-sync-cleanup/snap-sync-cleanup.py:137-148 | under an absolute root every enumerated path is absolute, is not "/", and lies strictly under the root (the root is a proper prefix) |
| Enumerator.GetSnapshots | snap-sync-cleanup/snap-sync-cleanup.py:130-150 | the appending loop over the children returns the ordered filter |
| Deleter.SubvolumePath | snap-sync-cleanup/snap-sync-cleanup.py:156 | `path / "subvolume"`: an absolute path that extends the snapshot path and ends in `subvolume` |
| Deleter.Succeeds | snap-sync-cleanup/snap-sync-cleanup.py:159-171 | the outcome for which `delete_snapshot` reaches `return True`: the subvolume removal exits 0 and `rmtree` raises nothing |
| Deleter.DeleteSnapshot | snap-sync-cleanup/snap-sync-cleanup.py:153-171 | as written: raises exactly when the subvolume removal exits non-zero (line 161 passes the uncaptured `None` streams to `log_external_output`, whose `strip()` at line 69 fails); otherwise returns True iff `rmtree` raises nothing; the subvolume removal of `path/subvolume` runs first; `rmtree` on `path` runs iff stage 1 succeeded |
| Deleter.DeleteSnapshotIntended | snap-sync-cleanup/snap-sync-cleanup.py:153-171 | with line 161 not raising: returns True iff the subvolume removal exits 0 and `rmtree` raises nothing, False on either failure, with the same two-stage order |
| Retention.Eligible | snap-sync-cleanup/snap-sync-cleanup.py:237-243 | the skip tests of the loop: a snapshot is passed on unless it is the latest marked one while `max_keep > 0`, or its path is "/"; EligibleOfExcludes states the consequence |
| Retention.EligibleOf | snap-sync-cleanup/snap-sync-cleanup.py:233-248 | the snapshots a full walk passes to `delete_snapshot`, in walk order; the EligibleOf lemmas below state its properties |
| Retention.AsWrittenCalls | snap-sync-cleanup/snap-sync-cleanup.py:232-248 | the calls of the loop as written: none when `len(snapshots) <= max_keep`, else every eligible snapshot, because `delete_attempts` never leaves 0; AsWrittenDeletesAllEligible states it |
| Retention.EligibleOfStep | snap-sync-cleanup/snap-sync-cleanup.py:233-248 | one more visited snapshot adds itself to the eligible list exactly when it is eligible |
| Retention.EligibleOfExcludes | snap-sync-cleanup/snap-sync-cleanup.py:237-243 | no snapshot at "/" is passed to the deleter; when `max_keep > 0`, neither is the latest marked number |
| Retention.EligibleOfExactlyOnce | snap-sync-cleanup/snap-sync-cleanup.py:237-248 | each eligible snapshot is passed as many times as it occurs in the sorted list, each excluded one never |
| Retention.EligibleOfSorted | snap-sync-cleanup/snap-sync-cleanup.py:225-248 | from a sorted list, the deleter sees snapshots in non-decreasing number order |
| Retention.AllEligiblePassed | snap-sync-cleanup/snap-sync-cleanup.py:233-248 | when no snapshot is the guarded latest one or "/", every snapshot reaches the deleter, in order |
| Retention.EligibleOfPrefix | snap-sync-cleanup/snap-sync-cleanup.py:233 | the calls made after a prefix of the walk are a prefix of all the calls |
| Retention.Successes | snap-sync-cleanup/snap-sync-cleanup.py:248-250 | `delete_count`: the number of calls whose two stages both succeed; SuccessesBounds bounds it |
| Retention.SuccessesStep | snap-sync-cleanup/snap-sync-cleanup.py:248-250 | one more deletion adds one to `delete_count` exactly when it succeeds |
| Retention.FailedIff | snap-sync-cleanup/snap-sync-cleanup.py:248-257 | `delete_attempts > delete_count` holds exactly when some attempted deletion failed |
| Retention.SuccessesBounds | snap-sync-cleanup/snap-sync-cleanup.py:248-250 | `delete_count` is at most the number of deletions and equals it iff every deletion succeeded |
| Retention.Deleted | snap-sync-cleanup/snap-sync-cleanup.py:248-250 | the snapshots actually removed, in call order: the calls whose two stages succeed |
| Retention.DeletedStep | snap-sync-cleanup/snap-sync-cleanup.py:248-250 | one more call adds its snapshot to the removed list exactly when both stages succeed |
| Retention.DeletedMembers | snap-sync-cleanup/snap-sync-cleanup.py:248-250 | the removed list has `delete_count` entries, and a snapshot is in it iff it was passed on and its removal succeeded |
| Retention.AccountStep | snap-sync-cleanup/snap-sync-cleanup.py:248-250 | one more call keeps the removed list and `delete_count` in step with the calls made |
| Retention.AsWrittenDeletesAllEligible | snap-sync-cleanup/snap-sync-cleanup.py:232-248 | as written, with more snapshots than `max_keep`, every eligible snapshot is in the walk that a raise may cut short |
| Retention.AsWrittenOldestFirst | snap-sync-cleanup/snap-sync-cleanup.py:225-248 | as written, deletions go oldest number first |
| Retention.SortedPathsAbsolute | snap-sync-cleanup/snap-sync-cleanup.py:225 | sorting keeps every snapshot path absolute, as `delete_snapshot` asserts at line 154 |
| Retention.Raises | snap-sync-cleanup/snap-sync-cleanup.py:157-162 | as written, `delete_snapshot` raises on a snapshot exactly when its subvolume removal exits non-zero |
| Retention.RaisesIn | snap-sync-cleanup/snap-sync-cleanup.py:233-250 | some snapshot among the calls raises; RaisesInStep and RaisesInMeans state what it means |
| Retention.UpToRaise | snap-sync-cleanup/snap-sync-cleanup.py:233-250 | the calls made before the exception ends the walk: up to and including the first that raises; UpToRaiseIsCut and UpToRaiseAt characterise it |
| Retention.RaisesInStep | snap-sync-cleanup/snap-sync-cleanup.py:233-250 | one more call raises somewhere iff an earlier one did or the new one does |
| Retention.RaisesInMeans | snap-sync-cleanup/snap-sync-cleanup.py:233-250 | some call raises iff some index of the calls holds a raising snapshot |
| Retention.UpToRaiseIsCut | snap-sync-cleanup/snap-sync-cleanup.py:233-250 | the walk is cut at the first raising call: what is kept is a prefix of the calls, all of them when none raises, and otherwise ends with the first raising call and no earlier one raises |
| Retention.UpToRaiseAt | snap-sync-cleanup/snap-sync-cleanup.py:233-250 | a prefix that ends with the first raising call is exactly what the walk makes |
| Retention.RaiseEndsWalk | snap-sync-cleanup/snap-sync-cleanup.py:159-162 | when the i-th snapshot is the first eligible one to raise, the walk as written ends with it and the accounts are unchanged |
| Retention.Walk | snap-sync-cleanup/snap-sync-cleanup.py:231-258 | `delete_attempts` stays 0, so the loop visits nothing iff `len(snapshots) <= max_keep` and otherwise walks on until the first raising deletion; the calls are the eligible snapshots cut at that raise, and `raised` says whether it happened; `delete_count` and the removed list account for the successful calls; the exit test of line 257 is false |
| Retention.Retain | snap-sync-cleanup/snap-sync-cleanup.py:224-258 | sorting then walking as written: the sorted list is SortByNumber; the calls are the eligible snapshots cut at the first raising one, `raised` iff that one exists; `delete_count` and the removed list are the successful calls; attempts stay 0 and the exit test of line 257 is false |
| Retention.IntendedCalls | snap-sync-cleanup/snap-sync-cleanup.py:233-246 | the calls of the loop with `delete_attempts += 1`: eligible snapshots oldest first until `len - max_keep` attempts are spent; BudgetSpent, BudgetLeft and IntendedKeepsEnough state its properties |
| Retention.WalkCompleted | snap-sync-cleanup/snap-sync-cleanup.py:233-246 | a counted walk that reaches the end without spending its budget has made every call the counted loop makes |
| Retention.BudgetSpent | snap-sync-cleanup/snap-sync-cleanup.py:234-235 | once the attempt budget `len - max_keep` is spent, the calls so far are all the counted loop will make |
| Retention.BudgetLeft | snap-sync-cleanup/snap-sync-cleanup.py:233-246 | a counted walk that never spent its budget calls every eligible snapshot |
| Retention.IntendedKeepsEnough | snap-sync-cleanup/snap-sync-cleanup.py:234-246 | with counted attempts the calls are the oldest eligible snapshots, and at least `min(len(snapshots), max_keep)` snapshots remain |
| Retention.WalkIntended | snap-sync-cleanup/snap-sync-cleanup.py:231-258 | with `delete_attempts += 1` and no raise, the loop stops after `len - max_keep` attempts; attempts equal calls; `delete_count` and the removed list account for the successful ones; the run fails iff some deletion failed |
| Retention.RetainIntended | snap-sync-cleanup/snap-sync-cleanup.py:224-258 | sorting then walking with both corrections: the calls are IntendedCalls of the sorted list; attempts equal calls; `delete_count` and the removed list account for the successful ones; the run fails iff some deletion failed |
| Cleanup.Run | snap-sync-cleanup/snap-sync-cleanup.py:209-258 | exit status 1 when snapper fails or the root is missing, with no deletion then; otherwise the calls are the as-written walk cut at the first raising deletion, and the exit status is 1 iff such a raise ended the run; "/" is never passed on |
| Findings.FiveIsSorted | snap-sync-cleanup/snap-sync-cleanup.py:225 | the example list 1 to 5 is unchanged by the sort |
| Findings.FiveEligible | snap-sync-cleanup/snap-sync-cleanup.py:237-248 | snapshots 1 to 5, marker 5, `max_keep` 2: the skip tests let 1 to 4 through |
| Findings.FourSucceed | snap-sync-cleanup/snap-sync-cleanup.py:248-250 | four removals that all succeed give `delete_count` 4 |
| Findings.AsWrittenKeepsTooFew | snap-sync-cleanup/snap-sync-cleanup.py:232-250 | snapshots 1 to 5, marker 5, `max_keep` 2: the loop as written deletes 1 to 4 and leaves one snapshot |
| Findings.IntendedKeepsTwo | snap-sync-cleanup/snap-sync-cleanup.py:232-250 | same input with counted attempts: 1 to 3 are deleted and 4 and 5 kept |
| Findings.KeepNoneDeletesLatest | snap-sync-cleanup/snap-sync-cleanup.py:211-239 | with `max_keep` 0 the latest marked backup is passed to the deleter like every other snapshot |
| Findings.StageOneFailureEndsRun | snap-sync-cleanup/snap-sync-cleanup.py:157-162 | snapshots 1 to 5, marker 5, `max_keep` 2, the subvolume removal of 1 fails: the walk as written ends after snapshot 1 with an exception, so 2 to 4 are never tried |

## Left out

- Logging (`set_up_logging`, every `logger` call, and `log_external_output` apart from its `strip()` on `None`) and the colour handling: they only produce output. The `AttributeError` that `log_external_output` raises on uncaptured output is modelled, as `Deleter.DeleteSnapshot` raising.
- Argument parsing and the verbosity mapping (lines 175-207): only `max_keep >= 0` (line 210) is kept, as a precondition.
- The subprocesses (`snapper`, `btrfs`), `shutil.rmtree`, `iterdir`, `is_dir` and `exit`: their results are inputs, and the exit status is a result.
- `get_snapshot_root_path` (lines 120-127): its existence check is the `rootFound` input of `Cleanup.Run`, and its absolute path is the `root` input.
- Text.ParseInt: it does not match `int()` exactly. It rejects surrounding whitespace, `_` between digits and non-ASCII digits, all of which `int()` accepts. It accepts numerals longer than 4300 digits, which `int()` rejects by default from Python 3.11 on (`sys.int_info.default_max_str_digits`); for such a marker token `LatestMarked` returns its number, while the script skips the line. Directory names are at most 255 bytes long, so the enumeration is not affected.
- Snapper output is taken as lines that are already decoded from UTF-8, stripped and split. `splitlines` also breaks at separators other than newline, and that is not modelled.
- Paths.JoinPath: only absolute directories are joined onto, as in the script. `PosixPath` normalisation (repeated or trailing slashes, `.` parts) is not modelled. Paths compare as plain strings.
- Line 157 passes `"btrfs subvolume delete"` as a single argv element, which would raise `FileNotFoundError` instead of returning a status. The model treats the stage as returning a status, as the code around it expects; the separate raise on a non-zero status (lines 161 and 69) is modelled.
- The removal outcomes are a fixed function of the path. The model does not capture how one deletion changes the filesystem for a later one.
- The effect of a stage-2 failure after stage 1 succeeded (subvolume gone, directory left behind) is shown only by the steps `DeleteSnapshot` reports. No filesystem state is modelled.
- Python's Timsort algorithm itself: only its result is modelled, which is enough because a stable sort has only one possible result.

## Findings

| source | as written | input that shows it | evidently intended | confidence | as-written member | corrected member |
|---|---|---|---|---|---|---|
| snap-sync-cleanup/snap-sync-cleanup.py:246 | `delete_attempts = 0` resets the counter that the break test of line 234 and the failure test of line 257 read | snapshots 1 to 5, latest marker 5, `max_keep` 2: 1 to 4 are deleted and one snapshot is left; when every removal fails at the `rmtree` stage the exit status is still 0 | `delete_attempts += 1`: stop once `len(snapshots) - attempts <= max_keep`, keeping 4 and 5, and exit 1 when an attempt failed | high; not executed | Findings.AsWrittenKeepsTooFew | Retention.RetainIntended |
| snap-sync-cleanup/snap-sync-cleanup.py:157-162 | `subprocess.run` without `capture_output` leaves `stdout` and `stderr` as `None`; on a non-zero subvolume removal status line 161 passes them to `log_external_output`, whose `strip()` (line 69) raises `AttributeError`, so the `return False` of line 162 is never reached and nothing catches the exception | snapshots 1 to 5, latest marker 5, `max_keep` 2, the subvolume removal of 1 exits 1: the run stops after snapshot 1 with exit status 1, and 2 to 4 are never tried | log the failure and return False (line 162), so the loop goes on to the next snapshot | high; not executed | Findings.StageOneFailureEndsRun | Deleter.DeleteSnapshotIntended |

`Cleanup.Run` composes the loop as written (`Retention.Retain`, over
`Deleter.DeleteSnapshot`), because the model describes what the program does.
`Retention.RetainIntended`, with `Retention.IntendedKeepsEnough` and
`Findings.IntendedKeepsTwo`, states the corrected behaviour for both findings:
it counts its attempts and calls `Deleter.DeleteSnapshotIntended`.
