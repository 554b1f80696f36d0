// Choosing the snapshot to rotate out: `snapshots.OrderBy(s => s.CreatedAt).First()`.
module Selection {
  import opened Models

  /** Puts `x` into a list already ordered by creation time, in front of the
      first element that is not older than it. */
  function Insert(x: Snapshot, sorted: seq<Snapshot>): (r: seq<Snapshot>)
    ensures |r| == |sorted| + 1
  {
    if sorted == [] || x.createdAt <= sorted[0].createdAt then [x] + sorted
    else [sorted[0]] + Insert(x, sorted[1..])
  }

  /** LINQ's `OrderBy` on the creation time: a stable sort, so snapshots with
      equal time stamps keep the order in which they were listed. */
  function OrderByCreatedAt(s: seq<Snapshot>): (r: seq<Snapshot>)
    ensures |r| == |s|
  {
    if s == [] then [] else Insert(s[0], OrderByCreatedAt(s[1..]))
  }

  ghost predicate SortedByCreatedAt(s: seq<Snapshot>)
  {
    forall i, j :: 0 <= i < j < |s| ==> s[i].createdAt <= s[j].createdAt
  }

  /** The snapshots of `s` created at time `c`, in their order in `s`. */
  function CreatedAt(s: seq<Snapshot>, c: int): (r: seq<Snapshot>)
    ensures forall x :: x in r ==> x in s && x.createdAt == c
  {
    if s == [] then []
    else (if s[0].createdAt == c then [s[0]] else []) + CreatedAt(s[1..], c)
  }

  /** The snapshot the rotation deletes: the first of the ordered list. */
  function Oldest(s: seq<Snapshot>): (o: Snapshot)
    requires |s| > 0
    ensures o in s
  {
    OrderByCreatedAtSorts(s);
    assert OrderByCreatedAt(s)[0] in multiset(OrderByCreatedAt(s));
    OrderByCreatedAt(s)[0]
  }

  /** Reference definition of the choice: the position of the first snapshot
      whose creation time is the minimum of the list. */
  function FirstMinIndex(s: seq<Snapshot>): (k: nat)
    requires |s| > 0
    ensures k < |s|
    ensures forall j :: 0 <= j < |s| ==> s[k].createdAt <= s[j].createdAt
    ensures forall j :: 0 <= j < k ==> s[k].createdAt < s[j].createdAt
  {
    if |s| == 1 then 0
    else
      var k := FirstMinIndex(s[1..]);
      if s[0].createdAt <= s[k + 1].createdAt then 0 else k + 1
  }

  lemma {:induction false} InsertAddsOne(x: Snapshot, sorted: seq<Snapshot>)
    ensures multiset(Insert(x, sorted)) == multiset(sorted) + multiset{x}
  {
    if sorted != [] && x.createdAt > sorted[0].createdAt {
      InsertAddsOne(x, sorted[1..]);
      assert sorted == [sorted[0]] + sorted[1..];
    }
  }

  lemma {:induction false} InsertKeepsSorted(x: Snapshot, sorted: seq<Snapshot>)
    requires SortedByCreatedAt(sorted)
    ensures SortedByCreatedAt(Insert(x, sorted))
  {
    if sorted != [] && x.createdAt > sorted[0].createdAt {
      InsertKeepsSorted(x, sorted[1..]);
      var r := Insert(x, sorted[1..]);
      assert r[0] == x || r[0] == sorted[1];
    }
  }

  /** The ordered list is sorted by creation time and is a permutation of the input. */
  lemma {:induction false} OrderByCreatedAtSorts(s: seq<Snapshot>)
    ensures SortedByCreatedAt(OrderByCreatedAt(s))
    ensures multiset(OrderByCreatedAt(s)) == multiset(s)
  {
    if s != [] {
      OrderByCreatedAtSorts(s[1..]);
      InsertKeepsSorted(s[0], OrderByCreatedAt(s[1..]));
      InsertAddsOne(s[0], OrderByCreatedAt(s[1..]));
      assert s == [s[0]] + s[1..];
    }
  }

  lemma {:induction false} InsertIsStable(x: Snapshot, sorted: seq<Snapshot>, c: int)
    ensures CreatedAt(Insert(x, sorted), c) == (if x.createdAt == c then [x] else []) + CreatedAt(sorted, c)
  {
    if sorted != [] && x.createdAt > sorted[0].createdAt {
      InsertIsStable(x, sorted[1..], c);
      var r := Insert(x, sorted);
      assert r[0] == sorted[0] && r[1..] == Insert(x, sorted[1..]);
    }
  }

  /** The ordering is stable: for every time stamp, the snapshots carrying it
      appear in the ordered list in the order they were listed. */
  lemma {:induction false} OrderByCreatedAtIsStable(s: seq<Snapshot>, c: int)
    ensures CreatedAt(OrderByCreatedAt(s), c) == CreatedAt(s, c)
  {
    if s != [] {
      OrderByCreatedAtIsStable(s[1..], c);
      InsertIsStable(s[0], OrderByCreatedAt(s[1..]), c);
    }
  }

  /** The first element after the stable ordering is the first-listed snapshot
      among those with the minimum creation time. */
  lemma {:induction false} OldestIsFirstMinimum(s: seq<Snapshot>)
    requires |s| > 0
    ensures Oldest(s) == s[FirstMinIndex(s)]
  {
    if |s| > 1 {
      OldestIsFirstMinimum(s[1..]);
    }
  }

  /** The chosen snapshot was listed, no listed snapshot is older, and every
      snapshot listed before it is strictly newer. */
  lemma OldestIsMinimalAndFirst(s: seq<Snapshot>)
    requires |s| > 0
    ensures exists k :: (0 <= k < |s| && s[k] == Oldest(s) &&
                         forall j :: 0 <= j < k ==> s[j].createdAt > s[k].createdAt)
    ensures forall j :: 0 <= j < |s| ==> Oldest(s).createdAt <= s[j].createdAt
  {
    OldestIsFirstMinimum(s);
    var k := FirstMinIndex(s);
    assert s[k] == Oldest(s);
  }
}
