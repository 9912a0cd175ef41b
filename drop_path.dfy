/** Where an item falls: straight down while it can, then diagonally around
    NotAvailable terrain, Left before Right, and on from there. */
module DropPaths {
  import opened GridModel

  /** `IGameBoard.CanMoveInDirection(p, d)`: the slot at `p + d` is on the grid
      and neither Occupied nor NotAvailable. */
  predicate CanMove(g: Grid, p: Pos, d: Pos) {
    g.Get(g.Beside(p, d)) == Some(Free)
  }

  /** One side of `CanDropDiagonally`: the side slot in direction `d` exists and
      is NotAvailable, and the slot below it can be moved into. */
  predicate SideQualifies(g: Grid, p: Pos, d: Pos) {
    g.Get(g.Beside(p, d)) == Some(NotAvailable) && CanMove(g, g.Beside(p, d), Down)
  }

  /** `CanDropDiagonally`: the diagonal target, trying Left before Right. */
  function Diagonal(g: Grid, p: Pos): (r: Option<Pos>)
    ensures r.Some? <==> SideQualifies(g, p, Left) || SideQualifies(g, p, Right)
    ensures SideQualifies(g, p, Left) ==> r == Some(Pos(p.row + 1, p.col - 1))
    ensures !SideQualifies(g, p, Left) && SideQualifies(g, p, Right) ==> r == Some(Pos(p.row + 1, p.col + 1))
  {
    if SideQualifies(g, p, Left) then Some(g.Beside(g.Beside(p, Left), Down))
    else if SideQualifies(g, p, Right) then Some(g.Beside(g.Beside(p, Right), Down))
    else None
  }

  /** The next position of a falling item at `p`, if it moves at all. */
  function NextDrop(g: Grid, p: Pos): (r: Option<Pos>)
    ensures r.Some? ==> r.value.row == p.row + 1 && p.col - 1 <= r.value.col <= p.col + 1
    ensures r.Some? ==> g.Get(r.value) == Some(Free)
    ensures r == Some(g.Beside(p, Down)) <==> CanMove(g, p, Down)
    ensures r.Some? && r.value.col != p.col ==>
      !CanMove(g, p, Down) && g.Get(Pos(p.row, r.value.col)) == Some(NotAvailable)
    ensures r.Some? && r.value.col == p.col + 1 ==> !SideQualifies(g, p, Left)
  {
    if CanMove(g, p, Down) then Some(g.Beside(p, Down)) else Diagonal(g, p)
  }

  /** `GetDropPositions`: the whole path of an item dropped from `p`, without `p`. */
  function DropPath(g: Grid, p: Pos): seq<Pos>
    decreases g.rows - p.row
  {
    match NextDrop(g, p)
    case None => []
    case Some(q) => [q] + DropPath(g, q)
  }

  /** One straight-down step of a drop path. */
  lemma DropPathDown(g: Grid, p: Pos)
    requires CanMove(g, p, Down)
    ensures DropPath(g, p) == [g.Beside(p, Down)] + DropPath(g, g.Beside(p, Down))
  {
  }

  /** Where the item cannot move down, the path goes on diagonally or ends. */
  lemma DropPathAside(g: Grid, p: Pos)
    requires !CanMove(g, p, Down)
    ensures Diagonal(g, p).None? ==> DropPath(g, p) == []
    ensures Diagonal(g, p).Some? ==>
      DropPath(g, p) == [Diagonal(g, p).value] + DropPath(g, Diagonal(g, p).value)
  {
  }

  /** The position a path step starts from: `p` for the first step, else the previous position. */
  function Before(p: Pos, path: seq<Pos>, i: int): Pos
    requires 0 <= i <= |path|
  {
    if i == 0 then p else path[i - 1]
  }

  /** Where an item dropped from `p` along `path` comes to rest. */
  function Final(p: Pos, path: seq<Pos>): Pos {
    if path == [] then p else Last(path)
  }

  /** The drop path is the maximal walk of `NextDrop` steps from `p`:
      every step is the move `NextDrop` chooses and the walk stops only where
      no move is possible. With `NextDrop`'s contract this is the full drop
      rule: down first, otherwise diagonally past NotAvailable, Left first. */
  lemma {:induction false} DropPathIsMaximalWalk(g: Grid, p: Pos)
    ensures var path := DropPath(g, p);
      && (forall i :: 0 <= i < |path| ==> NextDrop(g, Before(p, path, i)) == Some(path[i]))
      && NextDrop(g, Final(p, path)) == None
    decreases g.rows - p.row
  {
    match NextDrop(g, p)
    case None =>
    case Some(q) =>
      DropPathIsMaximalWalk(g, q);
      var path := DropPath(g, p);
      var rest := DropPath(g, q);
      assert path == [q] + rest;
      forall i | 0 <= i < |path| ensures NextDrop(g, Before(p, path, i)) == Some(path[i]) {
        if i > 0 { assert Before(p, path, i) == Before(q, rest, i - 1); }
      }
      assert Final(p, path) == Final(q, rest);
  }

  /** The shape of one step of a path: position `i` is exactly one row below
      the position before it (so it lies i+1 rows below `p`), in the same
      column or one to either side, on the grid and Free: never Occupied and
      never NotAvailable. It leaves its column only when the slot below is not
      movable and the slot beside it is NotAvailable. */
  ghost predicate StepShape(g: Grid, p: Pos, path: seq<Pos>, i: int)
    requires 0 <= i < |path|
  {
    var b := Before(p, path, i);
    && path[i].row == b.row + 1
    && path[i].row == p.row + i + 1
    && b.col - 1 <= path[i].col <= b.col + 1
    && g.Get(path[i]) == Some(Free)
    && (path[i].col != b.col ==>
          !CanMove(g, b, Down) && g.Get(Pos(b.row, path[i].col)) == Some(NotAvailable))
  }

  /** Every step of a drop path has that shape. */
  lemma {:induction false} DropPathShape(g: Grid, p: Pos)
    ensures forall i :: 0 <= i < |DropPath(g, p)| ==> StepShape(g, p, DropPath(g, p), i)
    decreases g.rows - p.row
  {
    match NextDrop(g, p)
    case None =>
    case Some(q) =>
      DropPathShape(g, q);
      var path := DropPath(g, p);
      var rest := DropPath(g, q);
      assert path == [q] + rest;
      forall i | 0 <= i < |path| ensures StepShape(g, p, path, i) {
        if i > 0 {
          assert StepShape(g, q, rest, i - 1);
          assert Before(p, path, i) == Before(q, rest, i - 1);
        }
      }
  }

  /** Positions of a drop path are pairwise distinct, Free, and below `p`. */
  lemma DropPathNoDup(g: Grid, p: Pos)
    ensures NoDup(DropPath(g, p))
    ensures forall q :: q in DropPath(g, p) ==> g.Get(q) == Some(Free) && q.row > p.row
  {
    var path := DropPath(g, p);
    DropPathShape(g, p);
    forall i, j | 0 <= i < j < |path| ensures path[i] != path[j] {
      assert StepShape(g, p, path, i) && StepShape(g, p, path, j);
    }
    forall q | q in path ensures g.Get(q) == Some(Free) && q.row > p.row {
      var i :| 0 <= i < |path| && path[i] == q;
      assert StepShape(g, p, path, i);
    }
  }

  /** Left is preferred: when the item cannot fall straight down and both sides
      qualify for a diagonal move, it goes down-left. */
  lemma LeftBeforeRight(g: Grid, p: Pos)
    requires !CanMove(g, p, Down) && SideQualifies(g, p, Left) && SideQualifies(g, p, Right)
    ensures DropPath(g, p) != [] && DropPath(g, p)[0] == Pos(p.row + 1, p.col - 1)
  {
  }

  /** `CanDropFromTop(row, col)`: no slot of column `col` from row 0 to `row` is NotAvailable. */
  predicate OpenAbove(g: Grid, row: int, col: int) {
    forall k :: 0 <= k <= row ==> g.At(Pos(k, col)) != NotAvailable
  }

  /** Whether a column can be filled from the top depends only on the terrain. */
  lemma OpenAboveTerrain(g: Grid, h: Grid, row: int, col: int)
    requires SameTerrain(g, h) && row < g.rows && 0 <= col < g.cols
    ensures OpenAbove(g, row, col) <==> OpenAbove(h, row, col)
  {
    if OpenAbove(g, row, col) {
      forall k | 0 <= k <= row ensures h.At(Pos(k, col)) != NotAvailable {
        assert g.OnGrid(Pos(k, col));
      }
    }
    if OpenAbove(h, row, col) {
      forall k | 0 <= k <= row ensures g.At(Pos(k, col)) != NotAvailable {
        assert g.OnGrid(Pos(k, col));
      }
    }
  }
}
