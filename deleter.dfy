/**
 * The snapshot deleter (`delete_snapshot`): removes the snapshot's btrfs
 * subvolume, then the outer snapshot directory, and gives up at the first
 * stage that fails; as written, a failed first stage raises. The two
 * external operations are not run: what they do is an input, and the
 * methods record which of them they started.
 */
module Deleter {
  import opened Paths

  /**
   * What the two external operations would do for one snapshot: the exit
   * status of the subvolume removal, and whether `shutil.rmtree` raises.
   */
  datatype StageOutcomes = StageOutcomes(subvolumeStatus: int, rmtreeRaises: bool)

  /** An external removal the deleter starts. */
  datatype Step = DeleteSubvolume(target: Path) | RemoveTree(target: Path)

  /** `path.joinpath("subvolume")`: the btrfs subvolume inside a snapshot directory. */
  function SubvolumePath(path: Path): (p: Path)
    requires IsAbsolute(path)
    ensures IsAbsolute(p) && |p| > |path| && p[..|path|] == path
    ensures |p| > 9 && p[|p| - 9..] == "subvolume"
  {
    JoinPath(path, "subvolume")
  }

  /** Both stages complete without error. */
  predicate Succeeds(outcome: StageOutcomes)
  {
    outcome.subvolumeStatus == 0 && !outcome.rmtreeRaises
  }

  /**
   * How a call to `delete_snapshot` ends: it returns its verdict, or an
   * exception escapes from it.
   */
  datatype Deletion = Returned(ok: bool) | Raised

  /**
   * `delete_snapshot(path)` as written. The subvolume removal is always
   * started first. It runs without `capture_output`, so its `stdout` and
   * `stderr` are `None`; when it fails, `log_external_output` calls `strip()`
   * on `None` and raises `AttributeError` instead of the `return False` that
   * follows. Otherwise the directory removal is started, and the call returns
   * true exactly when that raises nothing. Nothing else is started.
   */
  method DeleteSnapshot(path: Path, outcome: StageOutcomes) returns (result: Deletion, steps: seq<Step>)
    requires IsAbsolute(path)
    ensures result.Raised? <==> outcome.subvolumeStatus != 0
    ensures result.Returned? ==> (result.ok <==> !outcome.rmtreeRaises)
    ensures 0 < |steps| <= 2 && steps[0] == DeleteSubvolume(SubvolumePath(path))
    ensures RemoveTree(path) in steps <==> outcome.subvolumeStatus == 0
    ensures |steps| == 2 ==> steps[1] == RemoveTree(path)
  {
    var subvolumePath := SubvolumePath(path);
    steps := [DeleteSubvolume(subvolumePath)];
    if outcome.subvolumeStatus != 0 {
      return Raised, steps;
    }
    steps := steps + [RemoveTree(path)];
    if outcome.rmtreeRaises {
      return Returned(false), steps;
    }
    return Returned(true), steps;
  }

  /**
   * `delete_snapshot(path)` as its failure branch intends: a failed subvolume
   * removal is logged and answered with false. True exactly when both stages
   * succeed; the directory removal is started exactly when the subvolume
   * removal succeeded.
   */
  method DeleteSnapshotIntended(path: Path, outcome: StageOutcomes) returns (ok: bool, steps: seq<Step>)
    requires IsAbsolute(path)
    ensures ok <==> outcome.subvolumeStatus == 0 && !outcome.rmtreeRaises
    ensures 0 < |steps| <= 2 && steps[0] == DeleteSubvolume(SubvolumePath(path))
    ensures RemoveTree(path) in steps <==> outcome.subvolumeStatus == 0
    ensures |steps| == 2 ==> steps[1] == RemoveTree(path)
  {
    var subvolumePath := SubvolumePath(path);
    steps := [DeleteSubvolume(subvolumePath)];
    if outcome.subvolumeStatus != 0 {
      return false, steps;
    }
    steps := steps + [RemoveTree(path)];
    if outcome.rmtreeRaises {
      return false, steps;
    }
    return true, steps;
  }
}
