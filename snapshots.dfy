/**
 * A snapshot found on the remote volume, and the numeric sort of line 225
 * (`snapshots.sort(key=lambda x: x[0])`). Python's `list.sort` is stable, so
 * it is modelled by a stable insertion sort; StableSortIsUnique shows that
 * every stable sort by number produces the same list.
 */
module Snapshots {
  import opened Paths

  /** The `(num, path)` tuple of `get_snapshots`. */
  datatype Snapshot = Snapshot(num: int, path: Path)

  /** Numbers never decrease along the list. */
  predicate SortedByNumber(s: seq<Snapshot>)
  {
    forall i, j :: 0 <= i < j < |s| ==> s[i].num <= s[j].num
  }

  /** The snapshots numbered `k`, in the order the list has them. */
  function WithNumber(s: seq<Snapshot>, k: int): seq<Snapshot>
  {
    if s == [] then []
    else (if s[0].num == k then [s[0]] else []) + WithNumber(s[1..], k)
  }

  /** Puts `x` in front of the first element whose number is not smaller. */
  function Insert(x: Snapshot, r: seq<Snapshot>): seq<Snapshot>
  {
    if r == [] || x.num <= r[0].num then [x] + r else [r[0]] + Insert(x, r[1..])
  }

  /** The list after `snapshots.sort(key=lambda x: x[0])`. */
  function SortByNumber(s: seq<Snapshot>): seq<Snapshot>
  {
    if s == [] then [] else Insert(s[0], SortByNumber(s[1..]))
  }

  lemma {:induction false} InsertPermutes(x: Snapshot, r: seq<Snapshot>)
    ensures multiset(Insert(x, r)) == multiset(r) + multiset{x}
  {
    if !(r == [] || x.num <= r[0].num) {
      InsertPermutes(x, r[1..]);
      assert r == [r[0]] + r[1..];
    }
  }

  lemma {:induction false} InsertSorted(x: Snapshot, r: seq<Snapshot>)
    requires SortedByNumber(r)
    ensures SortedByNumber(Insert(x, r))
  {
    if !(r == [] || x.num <= r[0].num) {
      InsertSorted(x, r[1..]);
      InsertPermutes(x, r[1..]);
      var t := Insert(x, r[1..]);
      forall e | e in t ensures r[0].num <= e.num {
        assert e in multiset(t);
        assert e == x || e in multiset(r[1..]);
      }
      forall i, j | 0 <= i < j < |[r[0]] + t| ensures ([r[0]] + t)[i].num <= ([r[0]] + t)[j].num {
        if i == 0 { assert ([r[0]] + t)[j] in t; }
      }
    }
  }

  lemma {:induction false} WithNumberConcat(a: seq<Snapshot>, b: seq<Snapshot>, k: int)
    ensures WithNumber(a + b, k) == WithNumber(a, k) + WithNumber(b, k)
  {
    if a != [] {
      assert (a + b)[1..] == a[1..] + b;
      WithNumberConcat(a[1..], b, k);
    } else {
      assert a + b == b;
    }
  }

  lemma {:induction false} InsertStable(x: Snapshot, r: seq<Snapshot>, k: int)
    requires SortedByNumber(r)
    ensures WithNumber(Insert(x, r), k) == WithNumber([x], k) + WithNumber(r, k)
  {
    WithNumberConcat([x], r, k);
    if !(r == [] || x.num <= r[0].num) {
      InsertStable(x, r[1..], k);
      WithNumberConcat([r[0]], Insert(x, r[1..]), k);
      WithNumberConcat([r[0]], r[1..], k);
      WithNumberConcat([x], r[1..], k);
      assert r == [r[0]] + r[1..];
    }
  }

  /** The sort orders the snapshots by number. */
  lemma {:induction false} SortByNumberSorts(s: seq<Snapshot>)
    ensures SortedByNumber(SortByNumber(s))
  {
    if s != [] {
      SortByNumberSorts(s[1..]);
      InsertSorted(s[0], SortByNumber(s[1..]));
    }
  }

  /** The sorted list holds the same snapshots as often as the input does. */
  lemma {:induction false} SortByNumberPermutes(s: seq<Snapshot>)
    ensures multiset(SortByNumber(s)) == multiset(s)
  {
    if s != [] {
      SortByNumberPermutes(s[1..]);
      InsertPermutes(s[0], SortByNumber(s[1..]));
      assert s == [s[0]] + s[1..];
    }
  }

  /** The sorted list is as long as the input and holds only input snapshots. */
  lemma SortByNumberElements(s: seq<Snapshot>)
    ensures |SortByNumber(s)| == |s|
    ensures forall c :: c in SortByNumber(s) ==> c in s
  {
    var r := SortByNumber(s);
    SortByNumberPermutes(s);
    assert |multiset(r)| == |multiset(s)|;
    forall c | c in r ensures c in s {
      assert c in multiset(r);
    }
  }

  /** The sort is stable: snapshots with equal numbers keep their relative order. */
  lemma {:induction false} SortByNumberStable(s: seq<Snapshot>, k: int)
    ensures WithNumber(SortByNumber(s), k) == WithNumber(s, k)
  {
    if s != [] {
      SortByNumberStable(s[1..], k);
      SortByNumberSorts(s[1..]);
      InsertStable(s[0], SortByNumber(s[1..]), k);
      WithNumberConcat([s[0]], s[1..], k);
      assert s == [s[0]] + s[1..];
    }
  }

  lemma WithNumberHead(s: seq<Snapshot>)
    requires s != []
    ensures WithNumber(s, s[0].num) == [s[0]] + WithNumber(s[1..], s[0].num)
  {
  }

  lemma {:induction false} WithNumberMember(s: seq<Snapshot>, k: int, e: Snapshot)
    requires e in WithNumber(s, k)
    ensures e in s && e.num == k
  {
    if s != [] && e !in WithNumber(s[1..], k) {
      assert s[0].num == k && e == s[0];
    } else if s != [] {
      WithNumberMember(s[1..], k, e);
    }
  }

  lemma {:induction false} WithNumberNonEmpty(s: seq<Snapshot>, i: int)
    requires 0 <= i < |s|
    ensures WithNumber(s, s[i].num) != []
  {
    if i > 0 && s[0].num != s[i].num {
      WithNumberNonEmpty(s[1..], i - 1);
    }
  }

  /** Two sorted lists that agree number by number start with the same snapshot. */
  lemma SameHead(a: seq<Snapshot>, b: seq<Snapshot>)
    requires a != [] && b != []
    requires SortedByNumber(a) && SortedByNumber(b)
    requires WithNumber(a, a[0].num) == WithNumber(b, a[0].num)
    requires WithNumber(a, b[0].num) == WithNumber(b, b[0].num)
    ensures a[0] == b[0]
  {
    WithNumberHead(a);
    WithNumberHead(b);
    WithNumberMember(b, a[0].num, a[0]);
    WithNumberMember(a, b[0].num, b[0]);
    assert a[0].num == b[0].num by {
      var i :| 0 <= i < |b| && b[i] == a[0];
      var j :| 0 <= j < |a| && a[j] == b[0];
      assert b[0].num <= b[i].num;
      assert a[0].num <= a[j].num;
    }
    assert WithNumber(a, a[0].num)[0] == a[0];
    assert WithNumber(b, a[0].num)[0] == b[0];
  }

  /** Removing the same first snapshot from two lists that agree number by number leaves lists that agree. */
  lemma SameTails(a: seq<Snapshot>, b: seq<Snapshot>, k: int)
    requires a != [] && b != [] && a[0] == b[0]
    requires WithNumber(a, k) == WithNumber(b, k)
    ensures WithNumber(a[1..], k) == WithNumber(b[1..], k)
  {
    if k == a[0].num {
      assert WithNumber(a[1..], k) == WithNumber(a, k)[1..];
      assert WithNumber(b[1..], k) == WithNumber(b, k)[1..];
    } else {
      assert WithNumber(a, k) == WithNumber(a[1..], k);
      assert WithNumber(b, k) == WithNumber(b[1..], k);
    }
  }

  /**
   * Any two sorted lists that agree, number by number, on the order of the
   * snapshots with that number are the same list: a stable sort has only one
   * possible result.
   */
  lemma {:induction false} StableSortIsUnique(a: seq<Snapshot>, b: seq<Snapshot>)
    requires SortedByNumber(a) && SortedByNumber(b)
    requires forall k :: WithNumber(a, k) == WithNumber(b, k)
    ensures a == b
  {
    if a == [] {
      if b != [] { WithNumberNonEmpty(b, 0); assert false; }
    } else if b == [] {
      WithNumberNonEmpty(a, 0); assert false;
    } else {
      SameHead(a, b);
      forall k ensures WithNumber(a[1..], k) == WithNumber(b[1..], k) {
        SameTails(a, b, k);
      }
      assert SortedByNumber(a[1..]) && SortedByNumber(b[1..]);
      StableSortIsUnique(a[1..], b[1..]);
      assert a == [a[0]] + a[1..] && b == [b[0]] + b[1..];
    }
  }

  /** Every sorted list that keeps each number's snapshots in input order is SortByNumber's result. */
  lemma SortByNumberIsAnyStableSort(s: seq<Snapshot>, r: seq<Snapshot>)
    requires SortedByNumber(r)
    requires forall k :: WithNumber(r, k) == WithNumber(s, k)
    ensures r == SortByNumber(s)
  {
    SortByNumberSorts(s);
    forall k ensures WithNumber(r, k) == WithNumber(SortByNumber(s), k) {
      SortByNumberStable(s, k);
    }
    StableSortIsUnique(r, SortByNumber(s));
  }
}
