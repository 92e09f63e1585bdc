/**
 * Five snapshots numbered 1 to 5, the latest marker on 5, two to keep: the
 * loop as written deletes 1 to 4 and keeps a single snapshot; counting the
 * attempts deletes 1 to 3 and keeps 4 and 5. When the subvolume removal of
 * snapshot 1 fails, the run as written ends there.
 */
module Findings {
  import opened Wrappers
  import opened Paths
  import opened Snapshots
  import opened Deleter
  import opened Retention

  function Five(): seq<Snapshot>
  {
    [Snapshot(1, "/backup/home/1"), Snapshot(2, "/backup/home/2"), Snapshot(3, "/backup/home/3"),
     Snapshot(4, "/backup/home/4"), Snapshot(5, "/backup/home/5")]
  }

  lemma FiveIsSorted()
    ensures SortByNumber(Five()) == Five()
  {
    assert SortedByNumber(Five());
    SortByNumberIsAnyStableSort(Five(), Five());
  }

  /** Every removal succeeds. */
  function AllSucceed(p: Path): StageOutcomes { StageOutcomes(0, false) }

  /** The snapshots the as-written filter lets through: 1 to 4. */
  lemma FiveEligible()
    ensures EligibleOf(Five(), Some(5), 2) == Five()[..4]
  {
    var s := Five();
    AllEligiblePassed(s[..4], Some(5), 2);
    EligibleOfStep(s, 4, Some(5), 2);
    assert s[..5] == s;
  }

  /** Four removals that all succeed count four deletions. */
  lemma FourSucceed()
    ensures Successes(Five()[..4], AllSucceed) == 4
  {
    var c := Five()[..4];
    assert c[..3][..2] == c[..2] && c[..2][..1] == c[..1] && c[..1][..0] == [];
    assert Successes(c[..1], AllSucceed) == 1;
    assert Successes(c[..2], AllSucceed) == 2;
    assert Successes(c[..3], AllSucceed) == 3;
    assert c[..4] == c;
  }

  /** As written: four deletions, so with every removal succeeding one snapshot is left where two were to be kept. */
  lemma AsWrittenKeepsTooFew()
    ensures AsWrittenCalls(SortByNumber(Five()), Some(5), 2) == Five()[..4]
    ensures |Five()| - Successes(AsWrittenCalls(SortByNumber(Five()), Some(5), 2), AllSucceed) == 1
  {
    FiveIsSorted();
    FiveEligible();
    FourSucceed();
  }

  /** Intended: three deletions, keeping snapshots 4 and 5. */
  lemma IntendedKeepsTwo()
    ensures IntendedCalls(SortByNumber(Five()), Some(5), 2) == Five()[..3]
  {
    AsWrittenKeepsTooFew();
    FiveIsSorted();
    var s := Five();
    assert EligibleOf(s, Some(5), 2) == AsWrittenCalls(s, Some(5), 2) == s[..4];
    assert s[..4][..3] == s[..3];
  }

  /** With nothing to keep, the latest marked backup is deleted too: every snapshot is passed on. */
  lemma KeepNoneDeletesLatest()
    ensures AsWrittenCalls(SortByNumber(Five()), Some(5), 0) == Five()
  {
    FiveIsSorted();
    AllEligiblePassed(Five(), Some(5), 0);
  }

  /** The subvolume removal of snapshot 1 exits with status 1; every other removal succeeds. */
  function FirstFails(p: Path): StageOutcomes
  {
    if p == "/backup/home/1" then StageOutcomes(1, false) else StageOutcomes(0, false)
  }

  /**
   * As written: the failed subvolume removal of snapshot 1 raises out of the
   * deleter, so the walk stops there, 2 to 4 are never tried and the run
   * exits with 1.
   */
  lemma StageOneFailureEndsRun()
    ensures UpToRaise(AsWrittenCalls(SortByNumber(Five()), Some(5), 2), FirstFails) == Five()[..1]
    ensures RaisesIn(Five()[..1], FirstFails)
  {
    AsWrittenKeepsTooFew();
    var s := Five();
    var p := s[..1];
    assert p[..0] == [];
    assert Raises(p[0], FirstFails);
    UpToRaiseAt(p, s[..4], FirstFails);
  }
}
