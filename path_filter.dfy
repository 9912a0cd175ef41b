/** Compressing a drop path to the waypoints an animation needs: the
    destination, and the two positions on either side of each column change. */
module PathFilter {
  import opened GridModel

  /** `HashSet.Add` on a set that enumerates in insertion order. */
  function AddNew(s: seq<Pos>, x: Pos): (r: seq<Pos>)
    ensures x in r && (forall y :: y in r <==> y in s || y == x)
    ensures NoDup(s) ==> NoDup(r)
  {
    if x in s then s else s + [x]
  }

  /** One pass of the loop of `FilterPositions` over position `i`: a position
      in the current run's column is kept only if it is the last one; a column
      change keeps the position before it and the new position. */
  function KeptAfter(path: seq<Pos>, i: nat, startCol: int, kept: seq<Pos>): seq<Pos>
    requires i < |path|
  {
    if path[i].col == startCol then
      if i == |path| - 1 then AddNew(kept, path[i]) else kept
    else
      var withBend := if i > 0 then AddNew(kept, path[i - 1]) else kept;
      AddNew(withBend, path[i])
  }

  /** The loop of `FilterPositions` from index `i` on, where `startCol` is the
      column of the last column change seen and `kept` the positions added so far. */
  function FilterFrom(path: seq<Pos>, i: nat, startCol: int, kept: seq<Pos>): seq<Pos>
    requires i <= |path|
    decreases |path| - i
  {
    if i == |path| then kept
    else FilterFrom(path, i + 1, path[i].col, KeptAfter(path, i, startCol, kept))
  }

  /** `FilterPositions(cur, path)`: paths of zero or one position are returned as they are. */
  function Filter(cur: Pos, path: seq<Pos>): (r: seq<Pos>)
    ensures |path| <= 1 ==> r == path
  {
    if |path| <= 1 then path else FilterFrom(path, 0, cur.col, [])
  }

  /** The column a falling item is in just before step `k` of its path from `cur`. */
  function ColBefore(cur: Pos, path: seq<Pos>, k: int): int
    requires 0 <= k <= |path|
  {
    if k == 0 then cur.col else path[k - 1].col
  }

  /** Step `k` changes column. */
  predicate Turn(cur: Pos, path: seq<Pos>, k: int)
    requires 0 <= k < |path|
  {
    path[k].col != ColBefore(cur, path, k)
  }

  /** Position `k` is needed by the animation: it is the destination, a
      position reached by a column change, or the bend point just before one. */
  predicate Waypoint(cur: Pos, path: seq<Pos>, k: int)
    requires 0 <= k < |path|
  {
    k == |path| - 1 || Turn(cur, path, k) || (k + 1 < |path| && Turn(cur, path, k + 1))
  }

  /** The waypoints among the first `n` positions of `path`, in path order: the
      reference definition of what filtering keeps. */
  function Waypoints(cur: Pos, path: seq<Pos>, n: int): seq<Pos>
    requires 0 <= n <= |path|
  {
    if n == 0 then []
    else Waypoints(cur, path, n - 1) + (if Waypoint(cur, path, n - 1) then [path[n - 1]] else [])
  }

  lemma {:induction false} WaypointsFacts(cur: Pos, path: seq<Pos>, n: int)
    requires 0 <= n <= |path|
    ensures |Waypoints(cur, path, n)| <= n
    ensures forall x :: x in Waypoints(cur, path, n) ==> x in path[..n]
    ensures NoDup(path) ==> NoDup(Waypoints(cur, path, n))
    ensures NoDup(path) ==> forall k :: 0 <= k < n ==> (path[k] in Waypoints(cur, path, n) <==> Waypoint(cur, path, k))
  {
    if n > 0 {
      WaypointsFacts(cur, path, n - 1);
      var w := Waypoints(cur, path, n - 1);
      assert path[..n] == path[..n - 1] + [path[n - 1]];
      if NoDup(path) {
        assert path[n - 1] !in path[..n - 1];
        assert path[n - 1] !in w;
        forall k | 0 <= k < n - 1 ensures path[k] != path[n - 1] { }
      }
    }
  }

  /** The loop state of `FilterPositions` after the first `i` positions: the
      waypoints before `i - 1`, and position `i - 1` once the loop has kept it. */
  function Partial(cur: Pos, path: seq<Pos>, i: int): seq<Pos>
    requires 0 <= i <= |path|
  {
    if i == 0 then []
    else Waypoints(cur, path, i - 1) + (if Turn(cur, path, i - 1) || i == |path| then [path[i - 1]] else [])
  }

  /** One loop pass turns the state after `i` positions into the state after `i + 1`. */
  lemma KeptAfterStep(cur: Pos, path: seq<Pos>, i: int)
    requires NoDup(path) && 0 <= i < |path|
    ensures KeptAfter(path, i, ColBefore(cur, path, i), Partial(cur, path, i)) == Partial(cur, path, i + 1)
  {
    var acc := Partial(cur, path, i);
    if i > 0 {
      WaypointsFacts(cur, path, i - 1);
      assert path[..i] == path[..i - 1] + [path[i - 1]];
      assert path[i - 1] !in path[..i - 1];
    }
    assert forall x :: x in acc ==> x in path[..i];
    assert path[i] !in path[..i];
    if path[i].col == ColBefore(cur, path, i) {
      assert Waypoints(cur, path, i) == acc;
    } else {
      assert i > 0 ==> AddNew(acc, path[i - 1]) == Waypoints(cur, path, i);
    }
  }

  lemma {:induction false} FilterFromKeepsWaypoints(cur: Pos, path: seq<Pos>, i: int)
    requires NoDup(path) && 0 <= i <= |path|
    ensures FilterFrom(path, i, ColBefore(cur, path, i), Partial(cur, path, i)) == Waypoints(cur, path, |path|)
    decreases |path| - i
  {
    if i < |path| {
      KeptAfterStep(cur, path, i);
      assert ColBefore(cur, path, i + 1) == path[i].col;
      FilterFromKeepsWaypoints(cur, path, i + 1);
    } else if i > 0 {
      assert Waypoint(cur, path, i - 1);
    }
  }

  /** For a path without repeated positions (every drop path), filtering keeps exactly
      the waypoints, in path order: the result is a duplicate-free subsequence of
      the path, no longer than it, ending with its destination, and it holds a
      position exactly when that position is the destination, follows a column
      change, or is the bend point before one. */
  lemma FilterIsWaypoints(cur: Pos, path: seq<Pos>)
    requires NoDup(path)
    ensures var r := Filter(cur, path);
      && r == Waypoints(cur, path, |path|)
      && |r| <= |path|
      && NoDup(r)
      && (forall x :: x in r ==> x in path)
      && (|path| > 0 ==> |r| > 0 && Last(r) == Last(path))
      && (forall k :: 0 <= k < |path| ==> (path[k] in r <==> Waypoint(cur, path, k)))
  {
    var n := |path|;
    if n >= 2 {
      FilterFromKeepsWaypoints(cur, path, 0);
    } else if n == 1 {
      assert Waypoints(cur, path, 1) == [path[0]];
    }
    WaypointsFacts(cur, path, n);
    assert path[..n] == path;
    if n > 0 {
      assert Waypoint(cur, path, n - 1);
    }
  }
}
