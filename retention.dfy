/**
 * The retention loop of the script's main block (lines 224-258): sort the
 * snapshots by number, walk them oldest first, skip the latest marked backup
 * while anything is to be kept and any snapshot at the filesystem root, and
 * hand every other one to the deleter.
 *
 * As written, `delete_attempts` is only ever set to 0, so the break test
 * `len(snapshots) - delete_attempts <= max_keep` is the same on every
 * iteration: the loop either visits nothing or visits every snapshot, and the
 * final failure test never fires. A failed subvolume removal raises out of
 * the deleter and ends the walk. Retain models the loop as written;
 * RetainIntended models it with `delete_attempts` counting the attempts and
 * the deleter returning false on that failure.
 */
module Retention {
  import opened Wrappers
  import opened Paths
  import opened Snapshots
  import opened Deleter

  /** A snapshot the loop hands to the deleter: neither the protected latest backup nor "/". */
  predicate Eligible(s: Snapshot, latest: Option<int>, maxKeep: int)
  {
    !(latest == Some(s.num) && maxKeep > 0) && s.path != RootPath
  }

  /** The eligible snapshots, in list order. */
  function EligibleOf(s: seq<Snapshot>, latest: Option<int>, maxKeep: int): seq<Snapshot>
  {
    if s == [] then []
    else
      var last := s[|s| - 1];
      EligibleOf(s[..|s| - 1], latest, maxKeep) + (if Eligible(last, latest, maxKeep) then [last] else [])
  }

  /** How many of the given deletions return True. */
  function Successes(calls: seq<Snapshot>, outcome: Path -> StageOutcomes): nat
  {
    if calls == [] then 0
    else Successes(calls[..|calls| - 1], outcome) + (if Succeeds(outcome(calls[|calls| - 1].path)) then 1 else 0)
  }

  lemma SuccessesStep(calls: seq<Snapshot>, c: Snapshot, outcome: Path -> StageOutcomes)
    ensures Successes(calls + [c], outcome) == Successes(calls, outcome) + if Succeeds(outcome(c.path)) then 1 else 0
  {
    assert (calls + [c])[..|calls|] == calls;
  }

  /** The snapshots among `calls` whose deletion returns True, in call order. */
  function Deleted(calls: seq<Snapshot>, outcome: Path -> StageOutcomes): seq<Snapshot>
  {
    if calls == [] then []
    else
      var last := calls[|calls| - 1];
      Deleted(calls[..|calls| - 1], outcome) + (if Succeeds(outcome(last.path)) then [last] else [])
  }

  lemma DeletedStep(calls: seq<Snapshot>, c: Snapshot, outcome: Path -> StageOutcomes)
    ensures Deleted(calls + [c], outcome) == Deleted(calls, outcome) + if Succeeds(outcome(c.path)) then [c] else []
  {
    assert (calls + [c])[..|calls|] == calls;
  }

  /**
   * A snapshot is deleted exactly when it was passed to the deleter and both
   * stages succeeded for it, and `delete_count` is the number of deleted ones.
   */
  lemma {:induction false} DeletedMembers(calls: seq<Snapshot>, outcome: Path -> StageOutcomes)
    ensures |Deleted(calls, outcome)| == Successes(calls, outcome)
    ensures forall c :: c in Deleted(calls, outcome) <==> c in calls && Succeeds(outcome(c.path))
  {
    if calls != [] {
      var init := calls[..|calls| - 1];
      DeletedMembers(init, outcome);
      assert calls == init + [calls[|calls| - 1]];
    }
  }

  /** `deleted` and `delete_count` are the successful deletions among `calls`. */
  predicate Accounted(calls: seq<Snapshot>, deleted: seq<Snapshot>, deleteCount: int, outcome: Path -> StageOutcomes)
  {
    deleted == Deleted(calls, outcome) && deleteCount == Successes(calls, outcome)
  }

  /** One more call to the deleter keeps the accounts: its snapshot counts exactly when it succeeds. */
  lemma AccountStep(calls: seq<Snapshot>, deleted: seq<Snapshot>, deleteCount: int, c: Snapshot, outcome: Path -> StageOutcomes)
    requires Accounted(calls, deleted, deleteCount, outcome)
    ensures Succeeds(outcome(c.path)) ==> Accounted(calls + [c], deleted + [c], deleteCount + 1, outcome)
    ensures !Succeeds(outcome(c.path)) ==> Accounted(calls + [c], deleted, deleteCount, outcome)
  {
    SuccessesStep(calls, c, outcome);
    DeletedStep(calls, c, outcome);
  }

  /** The snapshots the loop as written passes to `delete_snapshot`, in order. */
  function AsWrittenCalls(sorted: seq<Snapshot>, latest: Option<int>, maxKeep: int): seq<Snapshot>
  {
    if |sorted| <= maxKeep then [] else EligibleOf(sorted, latest, maxKeep)
  }

  /** Nothing excluded reaches the deleter: with a keep count the latest backup never does, "/" never does. */
  lemma {:induction false} EligibleOfExcludes(s: seq<Snapshot>, latest: Option<int>, maxKeep: int)
    ensures forall c :: c in EligibleOf(s, latest, maxKeep) ==> c in s && c.path != RootPath
    ensures maxKeep > 0 && latest.Some? ==>
      forall c :: c in EligibleOf(s, latest, maxKeep) ==> c.num != latest.value
  {
    if s != [] {
      EligibleOfExcludes(s[..|s| - 1], latest, maxKeep);
    }
  }

  /** Every eligible snapshot of the list is passed on exactly as often as it occurs, the others never. */
  lemma {:induction false} EligibleOfExactlyOnce(s: seq<Snapshot>, latest: Option<int>, maxKeep: int, c: Snapshot)
    ensures multiset(EligibleOf(s, latest, maxKeep))[c] ==
      if Eligible(c, latest, maxKeep) then multiset(s)[c] else 0
  {
    if s != [] {
      var init, last := s[..|s| - 1], s[|s| - 1];
      var e := EligibleOf(init, latest, maxKeep);
      EligibleOfExactlyOnce(init, latest, maxKeep, c);
      assert multiset(s)[c] == multiset(init)[c] + (if last == c then 1 else 0) by {
        assert s == init + [last];
      }
      assert multiset(EligibleOf(s, latest, maxKeep))[c] ==
        multiset(e)[c] + (if Eligible(last, latest, maxKeep) && last == c then 1 else 0) by {
        if Eligible(last, latest, maxKeep) {
          assert EligibleOf(s, latest, maxKeep) == e + [last];
        } else {
          assert EligibleOf(s, latest, maxKeep) == e;
        }
      }
    }
  }

  /** Filtering keeps the order: from a sorted list, deletions go oldest number first. */
  lemma {:induction false} EligibleOfSorted(s: seq<Snapshot>, latest: Option<int>, maxKeep: int)
    requires SortedByNumber(s)
    ensures SortedByNumber(EligibleOf(s, latest, maxKeep))
  {
    if s != [] {
      var init := s[..|s| - 1];
      assert SortedByNumber(init);
      EligibleOfSorted(init, latest, maxKeep);
      EligibleOfExcludes(init, latest, maxKeep);
      var e := EligibleOf(init, latest, maxKeep);
      forall i | 0 <= i < |e| ensures e[i].num <= s[|s| - 1].num {
        assert e[i] in init;
      }
    }
  }

  lemma EligibleOfStep(s: seq<Snapshot>, i: nat, latest: Option<int>, maxKeep: int)
    requires i < |s|
    ensures EligibleOf(s[..i + 1], latest, maxKeep) ==
      EligibleOf(s[..i], latest, maxKeep) + (if Eligible(s[i], latest, maxKeep) then [s[i]] else [])
  {
    assert s[..i + 1][..i] == s[..i];
  }

  /** A list in which nothing is excluded reaches the deleter whole. */
  lemma {:induction false} AllEligiblePassed(s: seq<Snapshot>, latest: Option<int>, maxKeep: int)
    requires forall i :: 0 <= i < |s| ==> Eligible(s[i], latest, maxKeep)
    ensures EligibleOf(s, latest, maxKeep) == s
  {
    if s != [] {
      var init := s[..|s| - 1];
      assert forall i :: 0 <= i < |init| ==> init[i] == s[i];
      AllEligiblePassed(init, latest, maxKeep);
      assert s == init + [s[|s| - 1]];
    }
  }

  /** Growing the list only appends to the eligible ones: a prefix filters to a prefix. */
  lemma {:induction false} EligibleOfPrefix(s: seq<Snapshot>, i: nat, latest: Option<int>, maxKeep: int)
    requires i <= |s|
    ensures EligibleOf(s[..i], latest, maxKeep) <= EligibleOf(s, latest, maxKeep)
    decreases |s| - i
  {
    if i < |s| {
      var t := s[..i + 1];
      assert t[..|t| - 1] == s[..i];
      EligibleOfPrefix(s, i + 1, latest, maxKeep);
    } else {
      assert s[..i] == s;
    }
  }

  /** The success count lies between 0 and the number of attempts, and reaches it exactly when every deletion succeeds. */
  lemma {:induction false} SuccessesBounds(calls: seq<Snapshot>, outcome: Path -> StageOutcomes)
    ensures Successes(calls, outcome) <= |calls|
    ensures Successes(calls, outcome) == |calls| <==> forall c :: c in calls ==> Succeeds(outcome(c.path))
  {
    if calls != [] {
      var init := calls[..|calls| - 1];
      SuccessesBounds(init, outcome);
      assert calls == init + [calls[|calls| - 1]];
    }
  }

  /** The run counts fewer successes than calls exactly when some call failed. */
  lemma FailedIff(calls: seq<Snapshot>, deleteCount: int, outcome: Path -> StageOutcomes)
    requires deleteCount == Successes(calls, outcome)
    ensures |calls| > deleteCount <==> exists c :: c in calls && !Succeeds(outcome(c.path))
  {
    SuccessesBounds(calls, outcome);
  }

  /**
   * As written, whenever anything is visited every eligible snapshot of the
   * sorted list is in the walk (which a raise may cut short), whatever the
   * keep count.
   */
  lemma AsWrittenDeletesAllEligible(sorted: seq<Snapshot>, latest: Option<int>, maxKeep: int)
    requires maxKeep >= 0 && |sorted| > maxKeep
    ensures forall c :: c in sorted && Eligible(c, latest, maxKeep) ==> c in AsWrittenCalls(sorted, latest, maxKeep)
  {
    forall c | c in sorted && Eligible(c, latest, maxKeep) ensures c in AsWrittenCalls(sorted, latest, maxKeep) {
      EligibleOfExactlyOnce(sorted, latest, maxKeep, c);
    }
  }

  /** As written, the deleter sees the snapshots in non-decreasing number order. */
  lemma AsWrittenOldestFirst(snapshots: seq<Snapshot>, latest: Option<int>, maxKeep: int)
    ensures SortedByNumber(AsWrittenCalls(SortByNumber(snapshots), latest, maxKeep))
  {
    SortByNumberSorts(snapshots);
    EligibleOfSorted(SortByNumber(snapshots), latest, maxKeep);
  }

  /** Sorting keeps every snapshot path absolute, so each one may be handed to the deleter. */
  lemma SortedPathsAbsolute(snapshots: seq<Snapshot>)
    requires forall c :: c in snapshots ==> IsAbsolute(c.path)
    ensures forall j :: 0 <= j < |SortByNumber(snapshots)| ==> IsAbsolute(SortByNumber(snapshots)[j].path)
  {
    SortByNumberElements(snapshots);
  }

  /** As written, `delete_snapshot(c.path)` raises: the subvolume removal of `c` fails. */
  predicate Raises(c: Snapshot, outcome: Path -> StageOutcomes)
  {
    outcome(c.path).subvolumeStatus != 0
  }

  /** Some snapshot of `calls` makes the deleter raise. */
  predicate RaisesIn(calls: seq<Snapshot>, outcome: Path -> StageOutcomes)
  {
    calls != [] && (RaisesIn(calls[..|calls| - 1], outcome) || Raises(calls[|calls| - 1], outcome))
  }

  /**
   * The calls made before an exception ends the walk: every call up to and
   * including the first that raises, or all of them when none does.
   */
  function UpToRaise(calls: seq<Snapshot>, outcome: Path -> StageOutcomes): seq<Snapshot>
  {
    if calls == [] then []
    else
      var init := calls[..|calls| - 1];
      if RaisesIn(init, outcome) then UpToRaise(init, outcome) else calls
  }

  /** One more call raises somewhere exactly when the earlier ones did or the new one does. */
  lemma RaisesInStep(calls: seq<Snapshot>, c: Snapshot, outcome: Path -> StageOutcomes)
    ensures RaisesIn(calls + [c], outcome) <==> RaisesIn(calls, outcome) || Raises(c, outcome)
  {
    assert (calls + [c])[..|calls|] == calls;
  }

  /** Some call raises exactly when some snapshot among the calls makes the deleter raise. */
  lemma {:induction false} RaisesInMeans(calls: seq<Snapshot>, outcome: Path -> StageOutcomes)
    ensures RaisesIn(calls, outcome) <==> exists i :: 0 <= i < |calls| && Raises(calls[i], outcome)
  {
    if calls != [] {
      var init := calls[..|calls| - 1];
      RaisesInMeans(init, outcome);
      if RaisesIn(init, outcome) {
        var i :| 0 <= i < |init| && Raises(init[i], outcome);
        assert calls[i] == init[i];
      }
      if exists i :: 0 <= i < |calls| && Raises(calls[i], outcome) {
        var i :| 0 <= i < |calls| && Raises(calls[i], outcome);
        if i < |init| {
          assert init[i] == calls[i];
        }
      }
    }
  }

  /**
   * The walk is cut at the first call that raises: what is kept is a prefix
   * of the calls; without a raising call it is all of them; otherwise its last
   * call raises and none before it does.
   */
  lemma {:induction false} UpToRaiseIsCut(calls: seq<Snapshot>, outcome: Path -> StageOutcomes)
    ensures UpToRaise(calls, outcome) <= calls
    ensures !RaisesIn(calls, outcome) ==> UpToRaise(calls, outcome) == calls
    ensures RaisesIn(calls, outcome) ==>
      var r := UpToRaise(calls, outcome);
      r != [] && Raises(r[|r| - 1], outcome) && !RaisesIn(r[..|r| - 1], outcome)
  {
    if calls != [] {
      var init, last := calls[..|calls| - 1], calls[|calls| - 1];
      assert calls == init + [last];
      RaisesInStep(init, last, outcome);
      if RaisesIn(init, outcome) {
        UpToRaiseIsCut(init, outcome);
        var r := UpToRaise(init, outcome);
        assert r == init[..|r|] && init[..|r|] == calls[..|r|];
      }
    }
  }

  /** A prefix of the calls whose last call is the first to raise is exactly what the walk makes. */
  lemma {:induction false} UpToRaiseAt(p: seq<Snapshot>, calls: seq<Snapshot>, outcome: Path -> StageOutcomes)
    requires p != [] && p <= calls
    requires Raises(p[|p| - 1], outcome) && !RaisesIn(p[..|p| - 1], outcome)
    ensures UpToRaise(calls, outcome) == p
    decreases |calls|
  {
    var init := calls[..|calls| - 1];
    if |calls| == |p| {
      assert calls == p;
    } else {
      assert p <= init;
      assert init[|p| - 1] == p[|p| - 1];
      UpToRaiseAt(p, init, outcome);
    }
  }

  /**
   * When the i-th snapshot of a walk past the break test is the first eligible
   * one to raise, the walk as written ends with it: the calls made so far and
   * that one are all the calls, and the accounts stay as they were.
   */
  lemma RaiseEndsWalk(sorted: seq<Snapshot>, i: nat, calls: seq<Snapshot>, deleted: seq<Snapshot>, deleteCount: int,
                      latest: Option<int>, maxKeep: int, outcome: Path -> StageOutcomes)
    requires i < |sorted| && |sorted| > maxKeep
    requires calls == EligibleOf(sorted[..i], latest, maxKeep) && !RaisesIn(calls, outcome)
    requires Accounted(calls, deleted, deleteCount, outcome)
    requires Eligible(sorted[i], latest, maxKeep) && Raises(sorted[i], outcome)
    ensures EligibleOf(sorted[..i + 1], latest, maxKeep) == calls + [sorted[i]]
    ensures UpToRaise(AsWrittenCalls(sorted, latest, maxKeep), outcome) == calls + [sorted[i]]
    ensures RaisesIn(calls + [sorted[i]], outcome)
    ensures Accounted(calls + [sorted[i]], deleted, deleteCount, outcome)
  {
    var p := calls + [sorted[i]];
    EligibleOfStep(sorted, i, latest, maxKeep);
    EligibleOfPrefix(sorted, i + 1, latest, maxKeep);
    RaisesInStep(calls, sorted[i], outcome);
    AccountStep(calls, deleted, deleteCount, sorted[i], outcome);
    assert p[..|p| - 1] == calls;
    UpToRaiseAt(p, EligibleOf(sorted, latest, maxKeep), outcome);
  }

  /**
   * The retention loop as written over the list sorted at line 225.
   * `visited` is the number of iterations that pass the break test, `calls`
   * the snapshots passed to `delete_snapshot`, `deleted` those it removed,
   * `failed` the test of line 257, and `raised` whether an exception from
   * the deleter ended the run. Since `delete_attempts` stays 0, the loop
   * visits nothing exactly when there are at most `maxKeep` snapshots and
   * otherwise walks them all until the first subvolume removal that fails;
   * the reported attempts are always 0, and the failure exit never happens.
   */
  method Walk(sorted: seq<Snapshot>, latest: Option<int>, maxKeep: int, outcome: Path -> StageOutcomes)
    returns (visited: nat, calls: seq<Snapshot>, deleted: seq<Snapshot>,
             deleteCount: nat, deleteAttempts: int, failed: bool, raised: bool)
    requires maxKeep >= 0
    requires forall j :: 0 <= j < |sorted| ==> IsAbsolute(sorted[j].path)
    ensures visited <= |sorted| && calls == EligibleOf(sorted[..visited], latest, maxKeep)
    ensures !raised ==> visited == if |sorted| <= maxKeep then 0 else |sorted|
    ensures calls == UpToRaise(AsWrittenCalls(sorted, latest, maxKeep), outcome)
    ensures raised <==> RaisesIn(calls, outcome)
    ensures deleted == Deleted(calls, outcome)
    ensures deleteCount == Successes(calls, outcome)
    ensures deleteAttempts == 0 && !failed
  {
    deleteCount, deleteAttempts, failed, raised := 0, 0, false, false;
    visited, calls, deleted := 0, [], [];
    for i := 0 to |sorted|
      invariant deleteAttempts == 0 && !failed && !raised
      invariant |sorted| <= maxKeep ==> i == 0
      invariant visited == i
      invariant calls == EligibleOf(sorted[..i], latest, maxKeep)
      invariant !RaisesIn(calls, outcome)
      invariant Accounted(calls, deleted, deleteCount, outcome)
    {
      if |sorted| - deleteAttempts <= maxKeep {
        break;
      }
      visited := visited + 1;
      var snapshot := sorted[i];
      EligibleOfStep(sorted, i, latest, maxKeep);
      if latest == Some(snapshot.num) && maxKeep > 0 {
        continue;
      }
      if snapshot.path == RootPath {
        continue;
      }
      deleteAttempts := 0;
      var result, _ := DeleteSnapshot(snapshot.path, outcome(snapshot.path));
      if result.Raised? {
        // The exception leaves the loop and the script.
        RaiseEndsWalk(sorted, i, calls, deleted, deleteCount, latest, maxKeep, outcome);
        calls, raised := calls + [snapshot], true;
        return;
      }
      AccountStep(calls, deleted, deleteCount, snapshot, outcome);
      RaisesInStep(calls, snapshot, outcome);
      calls := calls + [snapshot];
      if result.ok {
        deleted := deleted + [snapshot];
        deleteCount := deleteCount + 1;
      }
    }
    assert sorted[..|sorted|] == sorted;
    failed := deleteAttempts > deleteCount;
  }

  /** Lines 224-258 as written: sort the snapshots by number, then walk them. */
  method Retain(snapshots: seq<Snapshot>, latest: Option<int>, maxKeep: int, outcome: Path -> StageOutcomes)
    returns (sorted: seq<Snapshot>, visited: nat, calls: seq<Snapshot>, deleted: seq<Snapshot>,
             deleteCount: nat, deleteAttempts: int, failed: bool, raised: bool)
    requires maxKeep >= 0
    requires forall c :: c in snapshots ==> IsAbsolute(c.path)
    ensures sorted == SortByNumber(snapshots)
    ensures visited <= |sorted| && calls == EligibleOf(sorted[..visited], latest, maxKeep)
    ensures !raised ==> visited == if |snapshots| <= maxKeep then 0 else |snapshots|
    ensures calls == UpToRaise(AsWrittenCalls(sorted, latest, maxKeep), outcome)
    ensures raised <==> RaisesIn(calls, outcome)
    ensures deleted == Deleted(calls, outcome)
    ensures deleteCount == Successes(calls, outcome)
    ensures deleteAttempts == 0 && !failed
  {
    sorted := SortByNumber(snapshots);
    SortedPathsAbsolute(snapshots);
    SortByNumberElements(snapshots);
    visited, calls, deleted, deleteCount, deleteAttempts, failed, raised := Walk(sorted, latest, maxKeep, outcome);
  }

  /** The snapshots a loop that counts its attempts would pass on: the oldest eligible ones, at most `|sorted| - maxKeep`. */
  function IntendedCalls(sorted: seq<Snapshot>, latest: Option<int>, maxKeep: int): seq<Snapshot>
  {
    Budgeted(EligibleOf(sorted, latest, maxKeep), |sorted| - maxKeep)
  }

  /** The first `budget` elements of `e`, or all of them when there are fewer. */
  function Budgeted(e: seq<Snapshot>, budget: int): seq<Snapshot>
  {
    if budget <= 0 then [] else if |e| <= budget then e else e[..budget]
  }

  /** Once as many eligible snapshots have been visited as the budget allows, they are all the counted loop calls. */
  lemma BudgetSpent(s: seq<Snapshot>, i: nat, latest: Option<int>, maxKeep: int)
    requires i <= |s|
    requires |EligibleOf(s[..i], latest, maxKeep)| >= |s| - maxKeep
    requires i > 0 ==> |EligibleOf(s[..i], latest, maxKeep)| <= |s| - maxKeep
    ensures EligibleOf(s[..i], latest, maxKeep) == IntendedCalls(s, latest, maxKeep)
  {
    EligibleOfPrefix(s, i, latest, maxKeep);
    if i == 0 {
      assert s[..0] == [];
    }
  }

  /** A walk that never ran out of budget called every eligible snapshot, and so did the counted loop. */
  lemma BudgetLeft(s: seq<Snapshot>, latest: Option<int>, maxKeep: int)
    requires |s| > 0 ==> |EligibleOf(s, latest, maxKeep)| <= |s| - maxKeep
    ensures EligibleOf(s, latest, maxKeep) == IntendedCalls(s, latest, maxKeep)
  {
  }

  /** A counted walk that reached the end without spending its budget made every call the counted loop makes. */
  lemma WalkCompleted(s: seq<Snapshot>, latest: Option<int>, maxKeep: int)
    requires |s| > 0 ==> |EligibleOf(s[..|s|], latest, maxKeep)| <= |s| - maxKeep
    ensures EligibleOf(s[..|s|], latest, maxKeep) == IntendedCalls(s, latest, maxKeep)
  {
    assert s[..|s|] == s;
    BudgetLeft(s, latest, maxKeep);
  }

  /**
   * With attempts counted, at most `|sorted| - maxKeep` deletions are
   * attempted, so at least `min(|sorted|, maxKeep)` snapshots remain, and the
   * attempts are the oldest eligible snapshots.
   */
  lemma IntendedKeepsEnough(sorted: seq<Snapshot>, latest: Option<int>, maxKeep: int, outcome: Path -> StageOutcomes)
    requires maxKeep >= 0
    ensures IntendedCalls(sorted, latest, maxKeep) <= EligibleOf(sorted, latest, maxKeep)
    ensures |sorted| - Successes(IntendedCalls(sorted, latest, maxKeep), outcome) >=
      if |sorted| <= maxKeep then |sorted| else maxKeep
  {
    SuccessesBounds(IntendedCalls(sorted, latest, maxKeep), outcome);
  }

  /**
   * The retention loop over the sorted list with line 246 read as
   * `delete_attempts += 1` and a failed subvolume removal answered with false
   * (line 162) rather than an exception: it stops once
   * `len(snapshots) - delete_attempts <= max_keep`, and the run fails exactly
   * when some attempted deletion did not succeed.
   */
  method WalkIntended(sorted: seq<Snapshot>, latest: Option<int>, maxKeep: int, outcome: Path -> StageOutcomes)
    returns (calls: seq<Snapshot>, deleted: seq<Snapshot>, deleteCount: nat, deleteAttempts: nat, failed: bool)
    requires maxKeep >= 0
    requires forall j :: 0 <= j < |sorted| ==> IsAbsolute(sorted[j].path)
    ensures calls == IntendedCalls(sorted, latest, maxKeep)
    ensures deleted == Deleted(calls, outcome)
    ensures deleteAttempts == |calls| && deleteCount == Successes(calls, outcome)
    ensures failed <==> exists c :: c in calls && !Succeeds(outcome(c.path))
  {
    var budget := |sorted| - maxKeep;
    deleteCount, deleteAttempts := 0, 0;
    calls, deleted := [], [];
    ghost var stopped := false;
    for i := 0 to |sorted|
      invariant !stopped
      invariant deleteAttempts == |calls|
      invariant calls == EligibleOf(sorted[..i], latest, maxKeep)
      invariant i > 0 ==> |calls| <= budget
      invariant Accounted(calls, deleted, deleteCount, outcome)
    {
      if |sorted| - deleteAttempts <= maxKeep {
        BudgetSpent(sorted, i, latest, maxKeep);
        stopped := true;
        break;
      }
      var snapshot := sorted[i];
      EligibleOfStep(sorted, i, latest, maxKeep);
      if latest == Some(snapshot.num) && maxKeep > 0 {
        continue;
      }
      if snapshot.path == RootPath {
        continue;
      }
      deleteAttempts := deleteAttempts + 1;
      var ok, _ := DeleteSnapshotIntended(snapshot.path, outcome(snapshot.path));
      AccountStep(calls, deleted, deleteCount, snapshot, outcome);
      calls := calls + [snapshot];
      if ok {
        deleted := deleted + [snapshot];
        deleteCount := deleteCount + 1;
      }
    }
    if !stopped {
      WalkCompleted(sorted, latest, maxKeep);
    }
    FailedIff(calls, deleteCount, outcome);
    failed := deleteAttempts > deleteCount;
  }

  /** Lines 224-258 with both corrections: sort the snapshots by number, then walk them counting attempts. */
  method RetainIntended(snapshots: seq<Snapshot>, latest: Option<int>, maxKeep: int, outcome: Path -> StageOutcomes)
    returns (sorted: seq<Snapshot>, calls: seq<Snapshot>, deleted: seq<Snapshot>,
             deleteCount: nat, deleteAttempts: nat, failed: bool)
    requires maxKeep >= 0
    requires forall c :: c in snapshots ==> IsAbsolute(c.path)
    ensures sorted == SortByNumber(snapshots)
    ensures calls == IntendedCalls(sorted, latest, maxKeep)
    ensures deleted == Deleted(calls, outcome)
    ensures deleteAttempts == |calls| && deleteCount == Successes(calls, outcome)
    ensures failed <==> exists c :: c in calls && !Succeeds(outcome(c.path))
  {
    sorted := SortByNumber(snapshots);
    SortedPathsAbsolute(snapshots);
    calls, deleted, deleteCount, deleteAttempts, failed := WalkIntended(sorted, latest, maxKeep, outcome);
  }
}
