/**
 * One run of the script's main block, from the snapper listing to the exit
 * status: resolve the latest marker, locate the snapshot root, enumerate,
 * then run the retention loop.
 */
module Cleanup {
  import opened Paths
  import opened Snapshots
  import opened Snapper
  import opened Enumerator
  import opened Deleter
  import opened Retention

  /**
   * `rootFound` is the verdict of `get_snapshot_root_path` (the root exists
   * and is a directory) and `root` the absolute path it returns. The run
   * exits with 1 when snapper fails or the root is missing, and then deletes
   * nothing. Otherwise it passes on the loop's calls, which end early at the
   * first subvolume removal that fails, and never the filesystem root; it
   * exits with 1 exactly when such a removal ended it (the uncaught
   * exception), whereas a failing directory removal never changes the exit
   * status.
   */
  method Run(snapper: SnapperRun, rootFound: bool, root: Path, children: seq<Child>, maxKeep: int,
             outcome: Path -> StageOutcomes)
    returns (exitCode: int, calls: seq<Snapshot>)
    requires maxKeep >= 0
    requires IsAbsolute(root)
    ensures exitCode == if snapper.returnCode != 0 || !rootFound || RaisesIn(calls, outcome) then 1 else 0
    ensures snapper.returnCode != 0 || !rootFound ==> calls == []
    ensures snapper.returnCode == 0 && rootFound ==>
      calls == UpToRaise(AsWrittenCalls(SortByNumber(Enumerated(root, children)), LatestMarked(snapper.stdoutLines), maxKeep), outcome)
    ensures forall c :: c in calls ==> c.path != RootPath
  {
    var latest := GetLatestSnapshotNum(snapper);
    if latest.Failure? {
      return 1, [];
    }
    if !rootFound {
      return 1, [];
    }
    var snapshots := GetSnapshots(root, children);
    EnumeratedPathsAreSafe(root, children);
    var sorted, visited, deleted, deleteCount, deleteAttempts, failed, raised;
    sorted, visited, calls, deleted, deleteCount, deleteAttempts, failed, raised := Retain(snapshots, latest.value, maxKeep, outcome);
    UpToRaiseIsCut(AsWrittenCalls(sorted, latest.value, maxKeep), outcome);
    EligibleOfExcludes(sorted, latest.value, maxKeep);
    exitCode := if raised || failed then 1 else 0;
  }
}
