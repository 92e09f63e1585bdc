/**
 * The snapshot enumerator (`get_snapshots`): keeps the children of the
 * snapshot root that are directories whose name `int()` accepts.
 */
module Enumerator {
  import opened Text
  import opened Paths
  import opened Snapshots

  /** One entry produced by `path.iterdir()`: its name and whether `is_dir()` holds for it. */
  datatype Child = Child(name: string, isDir: bool)

  /** A child that becomes a snapshot: a directory whose name parses as an integer. */
  predicate IsSnapshotDir(c: Child) { c.isDir && ParseInt(c.name).Some? }

  /** The `(num, child)` pair appended for a snapshot directory under `root`. */
  function SnapshotOf(root: Path, c: Child): Snapshot
    requires IsAbsolute(root) && IsSnapshotDir(c)
  {
    Snapshot(ParseInt(c.name).value, JoinPath(root, c.name))
  }

  /** The list `get_snapshots` builds from the children, in iteration order. */
  function Enumerated(root: Path, children: seq<Child>): (r: seq<Snapshot>)
    requires IsAbsolute(root)
    ensures |r| <= |children|
    ensures forall s :: s in r ==> IsAbsolute(s.path)
  {
    if children == [] then []
    else
      var last := children[|children| - 1];
      Enumerated(root, children[..|children| - 1]) +
        (if IsSnapshotDir(last) then [SnapshotOf(root, last)] else [])
  }

  /** The positions, among the children, of the snapshot directories, in increasing order. */
  function SnapshotPositions(children: seq<Child>): seq<nat>
  {
    if children == [] then []
    else
      var n := |children| - 1;
      SnapshotPositions(children[..n]) + (if IsSnapshotDir(children[n]) then [n] else [])
  }

  lemma {:induction false} PositionsMatch(root: Path, children: seq<Child>)
    requires IsAbsolute(root)
    ensures |Enumerated(root, children)| == |SnapshotPositions(children)| <= |children|
    ensures forall k :: 0 <= k < |SnapshotPositions(children)| ==>
      SnapshotPositions(children)[k] < |children| &&
      IsSnapshotDir(children[SnapshotPositions(children)[k]]) &&
      Enumerated(root, children)[k] == SnapshotOf(root, children[SnapshotPositions(children)[k]])
  {
    if children != [] {
      var n := |children| - 1;
      var init := children[..n];
      PositionsMatch(root, init);
      var e, p := Enumerated(root, children), SnapshotPositions(children);
      var e0, p0 := Enumerated(root, init), SnapshotPositions(init);
      forall k | 0 <= k < |p0| ensures p[k] == p0[k] && e[k] == e0[k] && init[p0[k]] == children[p0[k]] {}
    }
  }

  lemma {:induction false} PositionsIncrease(children: seq<Child>)
    ensures forall k :: 0 <= k < |SnapshotPositions(children)| ==> SnapshotPositions(children)[k] < |children|
    ensures forall k, l :: 0 <= k < l < |SnapshotPositions(children)| ==>
      SnapshotPositions(children)[k] < SnapshotPositions(children)[l]
  {
    if children != [] {
      PositionsIncrease(children[..|children| - 1]);
    }
  }

  lemma {:induction false} PositionsComplete(children: seq<Child>)
    ensures forall i :: 0 <= i < |children| && IsSnapshotDir(children[i]) ==> i in SnapshotPositions(children)
  {
    if children != [] {
      var n := |children| - 1;
      var init := children[..n];
      PositionsComplete(init);
      assert forall i :: 0 <= i < n ==> init[i] == children[i];
    }
  }

  /**
   * The enumeration is exactly the snapshot directories, each paired with its
   * parsed number, in the order the directory listing gave them: its k-th
   * entry comes from the child at the k-th snapshot position, the positions
   * increase, and every snapshot directory has a position.
   */
  lemma EnumeratedIsOrderedFilter(root: Path, children: seq<Child>)
    requires IsAbsolute(root)
    ensures |Enumerated(root, children)| == |SnapshotPositions(children)| <= |children|
    ensures forall k :: 0 <= k < |SnapshotPositions(children)| ==>
      SnapshotPositions(children)[k] < |children| &&
      IsSnapshotDir(children[SnapshotPositions(children)[k]]) &&
      Enumerated(root, children)[k] == SnapshotOf(root, children[SnapshotPositions(children)[k]])
    ensures forall k, l :: 0 <= k < l < |SnapshotPositions(children)| ==>
      SnapshotPositions(children)[k] < SnapshotPositions(children)[l]
    ensures forall i :: 0 <= i < |children| && IsSnapshotDir(children[i]) ==> i in SnapshotPositions(children)
  {
    PositionsMatch(root, children);
    PositionsIncrease(children);
    PositionsComplete(children);
  }

  /** A child that is not a snapshot directory contributes nothing. */
  lemma {:induction false} EnumeratedSkips(root: Path, children: seq<Child>, s: Snapshot)
    requires IsAbsolute(root) && s in Enumerated(root, children)
    ensures exists i :: 0 <= i < |children| && IsSnapshotDir(children[i]) && s == SnapshotOf(root, children[i])
  {
    EnumeratedIsOrderedFilter(root, children);
    var k :| 0 <= k < |Enumerated(root, children)| && Enumerated(root, children)[k] == s;
    var i := SnapshotPositions(children)[k];
    assert IsSnapshotDir(children[i]) && s == SnapshotOf(root, children[i]);
  }

  /**
   * Under an absolute root every enumerated path is absolute, and none is the
   * filesystem root: a numeral is a non-empty relative name, so the joined
   * path is longer than "/".
   */
  lemma EnumeratedPathsAreSafe(root: Path, children: seq<Child>)
    requires IsAbsolute(root)
    ensures forall s :: s in Enumerated(root, children) ==>
      IsAbsolute(s.path) && s.path != RootPath && |s.path| > |root| && s.path[..|root|] == root
  {
    forall s | s in Enumerated(root, children)
      ensures IsAbsolute(s.path) && s.path != RootPath && |s.path| > |root| && s.path[..|root|] == root
    {
      EnumeratedSkips(root, children, s);
      var i :| 0 <= i < |children| && IsSnapshotDir(children[i]) && s == SnapshotOf(root, children[i]);
      var name := children[i].name;
      assert IsNumeral(name);
      assert name != [] && !IsAbsolute(name);
    }
  }

  /** `get_snapshots`: the loop over `path.iterdir()` appends each snapshot directory. */
  method GetSnapshots(root: Path, children: seq<Child>) returns (snapshots: seq<Snapshot>)
    requires IsAbsolute(root)
    ensures snapshots == Enumerated(root, children)
  {
    snapshots := [];
    for i := 0 to |children|
      invariant snapshots == Enumerated(root, children[..i])
    {
      assert children[..i + 1][..i] == children[..i];
      var child := children[i];
      if !child.isDir {
        continue;
      }
      var num := ParseInt(child.name);
      if num.None? {
        continue;
      }
      snapshots := snapshots + [Snapshot(num.value, JoinPath(root, child.name))];
    }
    assert children[..|children|] == children;
  }
}
