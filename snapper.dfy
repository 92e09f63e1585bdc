/**
 * The latest-marker resolver (`get_latest_snapshot_num`): reads snapper's
 * `number,description` listing and finds the snapshot tagged by snap-sync as
 * the latest incremental backup.
 */
module Snapper {
  import opened Wrappers
  import opened Text

  /** The marker snap-sync writes into the description of its latest backup. */
  const Marker: string := "latest incremental backup"

  /** The substring of snapper's error stream that reveals a permissions problem. */
  const NoPermissions: string := "No permissions"

  /**
   * What the `snapper -c <config> list --columns number,description` process
   * returned: its exit status, its standard output already decoded, stripped
   * and split into lines, and its standard error.
   */
  datatype SnapperRun = SnapperRun(returnCode: int, stdoutLines: seq<string>, stderr: string)

  /** The two fatal outcomes, told apart by the error message logged before `exit(1)`. */
  datatype SnapperError = InsufficientPermissions | ListingFailed

  /** The number a single listing line marks as the latest backup, if it does. */
  function MarkedNumber(line: string): (r: Option<int>)
    ensures r.Some? <==> Contains(line, Marker) && IsNumeral(FirstToken(line))
  {
    if Contains(line, Marker) then ParseInt(FirstToken(line)) else None
  }

  /** The scan of lines 106-117: the marked number of the last line that has one. */
  function LatestMarked(lines: seq<string>): Option<int>
  {
    if lines == [] then None
    else if MarkedNumber(lines[|lines| - 1]).Some? then MarkedNumber(lines[|lines| - 1])
    else LatestMarked(lines[..|lines| - 1])
  }

  /** Line `i` carries the marked number `n` and no later line carries one. */
  predicate IsLastMatch(lines: seq<string>, i: int, n: int)
  {
    0 <= i < |lines| && MarkedNumber(lines[i]) == Some(n) &&
    forall j :: i < j < |lines| ==> MarkedNumber(lines[j]).None?
  }

  lemma {:induction false} LastMatchFound(lines: seq<string>, n: int)
    requires LatestMarked(lines) == Some(n)
    ensures exists i :: IsLastMatch(lines, i, n)
  {
    var last := |lines| - 1;
    if MarkedNumber(lines[last]).Some? {
      assert IsLastMatch(lines, last, n);
    } else {
      var init := lines[..last];
      LastMatchFound(init, n);
      var i :| IsLastMatch(init, i, n);
      assert lines == init + [lines[last]];
      LastMatchExtends(init, lines[last], i, n);
    }
  }

  /** A line that yields no number, appended after the last match, leaves it the last match. */
  lemma LastMatchExtends(init: seq<string>, line: string, i: int, n: int)
    requires IsLastMatch(init, i, n) && MarkedNumber(line).None?
    ensures IsLastMatch(init + [line], i, n)
  {
    var lines := init + [line];
    forall j | i < j < |lines|
      ensures MarkedNumber(lines[j]).None?
    {
      if j < |init| {
        assert lines[j] == init[j];
      }
    }
  }

  lemma {:induction false} LastMatchScanned(lines: seq<string>, i: int, n: int)
    requires IsLastMatch(lines, i, n)
    ensures LatestMarked(lines) == Some(n)
  {
    var last := |lines| - 1;
    if i < last {
      var init := lines[..last];
      assert forall j :: 0 <= j < |init| ==> init[j] == lines[j];
      assert IsLastMatch(init, i, n);
      LastMatchScanned(init, i, n);
    }
  }

  /**
   * The scan finds the number of the LAST line, in output order, that carries
   * the marker and a leading numeral; a marker line whose first token does not
   * parse is passed over.
   */
  lemma LatestMarkedIsLastMatch(lines: seq<string>, n: int)
    ensures LatestMarked(lines) == Some(n) <==> exists i :: IsLastMatch(lines, i, n)
  {
    if LatestMarked(lines) == Some(n) {
      LastMatchFound(lines, n);
    }
    if exists i :: IsLastMatch(lines, i, n) {
      var i :| IsLastMatch(lines, i, n);
      LastMatchScanned(lines, i, n);
    }
  }

  /** The scan finds nothing exactly when no line carries the marker with a leading numeral. */
  lemma {:induction false} LatestMarkedNone(lines: seq<string>)
    ensures LatestMarked(lines).None? <==> forall i :: 0 <= i < |lines| ==> MarkedNumber(lines[i]).None?
  {
    if lines != [] {
      var init := lines[..|lines| - 1];
      LatestMarkedNone(init);
      assert forall i :: 0 <= i < |init| ==> init[i] == lines[i];
    }
  }

  /**
   * `get_latest_snapshot_num`: a non-zero snapper status is fatal whatever
   * the listing says, and the logged reason is the permissions one exactly
   * when the error stream mentions "No permissions"; otherwise the lines are
   * scanned from the last one backward.
   */
  method GetLatestSnapshotNum(run: SnapperRun) returns (r: Result<Option<int>, SnapperError>)
    ensures run.returnCode != 0 ==> r.Failure?
    ensures r.Failure? ==> (r.error == InsufficientPermissions <==> Contains(run.stderr, NoPermissions))
    ensures run.returnCode == 0 ==> r == Success(LatestMarked(run.stdoutLines))
  {
    if run.returnCode != 0 {
      if Contains(run.stderr, NoPermissions) {
        return Failure(InsufficientPermissions);
      } else {
        return Failure(ListingFailed);
      }
    }
    var lines := run.stdoutLines;
    var i := |lines|;
    assert lines[..i] == lines;
    while i > 0
      invariant 0 <= i <= |lines|
      invariant LatestMarked(lines) == LatestMarked(lines[..i])
    {
      i := i - 1;
      var line := lines[i];
      assert lines[..i + 1][..i] == lines[..i];
      if !Contains(line, Marker) {
        continue;
      }
      var num := ParseInt(FirstToken(line));
      if num.Some? {
        return Success(num);
      }
    }
    return Success(None);
  }
}
