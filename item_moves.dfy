/** Moving the items already on the board: one column at a time
    (`GetItemsMoveData`) and the whole board in outside-in column pairs
    (`GetRollDownJobs`), as functions of the board before the pass. */
module ItemMoves {
  import opened GridModel
  import opened DropPaths
  import opened PathFilter

  /** `ItemMoveData`: an item and the grid positions it passes through, the
      last being where it comes to rest. */
  datatype ItemMove = ItemMove(item: Item, positions: seq<Pos>)

  /** The jobs handed to the playback layer (`ItemsDropJob`, `ItemsMoveJob`,
      `ItemsHideJob`), with delay multiplier and execution order as integers. */
  datatype Job =
    | Drop(moves: seq<ItemMove>, delay: int, order: int)
    | Move(moves: seq<ItemMove>, delay: int, order: int)
    | Hide(items: seq<Item>)

  /** The filtered drop path of an item at `p`. */
  function Route(g: Grid, p: Pos): seq<Pos> {
    Filter(p, DropPath(g, p))
  }

  /** A route is empty exactly when the drop path is, it ends where the drop
      path ends, and it only passes Free slots below `p`. */
  lemma RouteFacts(g: Grid, p: Pos)
    ensures var r := Route(g, p);
      && (r == [] <==> DropPath(g, p) == [])
      && (forall q :: q in r ==> g.Get(q) == Some(Free) && q.row > p.row)
      && (r != [] ==> Last(r) == Last(DropPath(g, p)))
  {
    DropPathNoDup(g, p);
    FilterIsWaypoints(p, DropPath(g, p));
  }

  datatype Moved = Moved(grid: Grid, moves: seq<ItemMove>)

  /** One pass of the loop of `GetItemsMoveData` over the slot at `p`: an
      Occupied slot with somewhere to fall is cleared and its item put at the
      end of its route. */
  function MoveSlot(g: Grid, p: Pos): Moved
    requires g.OnGrid(p)
  {
    var route := Route(g, p);
    if g.At(p).Occupied? && route != [] then
      Moved(g.Set(p, Free).Set(Last(route), g.At(p)), [ItemMove(g.At(p).item, route)])
    else
      Moved(g, [])
  }

  /** Every listed move ends below row `r` at a slot that holds its item. */
  ghost predicate PlacedBelow(g: Grid, moves: seq<ItemMove>, r: int) {
    forall m :: m in moves ==>
      m.positions != [] && Last(m.positions).row > r && g.At(Last(m.positions)) == Occupied(m.item)
  }

  /** What a pass over one slot changes: one item moves from `p` to the end of
      its route, or nothing changes; terrain, the number of Occupied slots, the
      set of items and the board invariant are kept. */
  lemma MoveSlotFacts(g: Grid, p: Pos, n: nat)
    requires g.OnGrid(p)
    ensures var m := MoveSlot(g, p);
      && SameTerrain(g, m.grid)
      && |OccupiedSet(m.grid)| == |OccupiedSet(g)|
      && ItemSet(m.grid) == ItemSet(g)
      && (Consistent(g, n) ==> Consistent(m.grid, n))
      && (m.moves == [] ==> m.grid == g)
      && (m.moves != [] ==>
            && m.moves == [ItemMove(g.At(p).item, Route(g, p))]
            && g.At(p).Occupied? && Route(g, p) != []
            && m.grid.At(p) == Free
            && Last(Route(g, p)).row > p.row
            && m.grid.At(Last(Route(g, p))) == g.At(p)
            && g.At(Last(Route(g, p))) == Free
            && forall q :: q != p && q != Last(Route(g, p)) ==> m.grid.At(q) == g.At(q))
  {
    var route := Route(g, p);
    RouteFacts(g, p);
    if g.At(p).Occupied? && route != [] {
      assert Last(route) in route;
      MoveItemPreserves(g, p, Last(route));
    }
  }

  /** The loop of `GetItemsMoveData(col)` from row `r` upwards, with the moves
      recorded so far. */
  function MoveScan(g: Grid, col: int, r: int, acc: seq<ItemMove>): (m: Moved)
    requires 0 <= col < g.cols && r < g.rows
    ensures m.grid.rows == g.rows && m.grid.cols == g.cols
    decreases r + 1
  {
    if r < 0 then Moved(g, acc)
    else
      var step := MoveSlot(g, Pos(r, col));
      MoveScan(step.grid, col, r - 1, acc + step.moves)
  }

  /** `GetItemsMoveData(col)`: rows are scanned bottom to top and the move list is returned reversed. */
  function MoveColumn(g: Grid, col: int): (m: Moved)
    requires 0 <= col < g.cols
    ensures m.grid.rows == g.rows && m.grid.cols == g.cols
  {
    var scan := MoveScan(g, col, g.rows - 1, []);
    Moved(scan.grid, Reverse(scan.moves))
  }

  lemma MoveScanFacts(g: Grid, col: int, r: int, acc: seq<ItemMove>, n: nat)
    requires 0 <= col < g.cols && -1 <= r < g.rows
    requires PlacedBelow(g, acc, r)
    ensures var m := MoveScan(g, col, r, acc);
      && SameTerrain(g, m.grid)
      && |OccupiedSet(m.grid)| == |OccupiedSet(g)|
      && ItemSet(m.grid) == ItemSet(g)
      && (Consistent(g, n) ==> Consistent(m.grid, n))
      && |acc| <= |m.moves| <= |acc| + r + 1
      && m.moves[..|acc|] == acc
      && PlacedBelow(m.grid, m.moves, -1)
  {
    MoveScanBoard(g, col, r, acc, n);
    MoveScanMoves(g, col, r, acc);
  }

  /** The board part of `MoveScanFacts`. */
  lemma {:induction false} MoveScanBoard(g: Grid, col: int, r: int, acc: seq<ItemMove>, n: nat)
    requires 0 <= col < g.cols && -1 <= r < g.rows
    ensures var m := MoveScan(g, col, r, acc);
      && SameTerrain(g, m.grid)
      && |OccupiedSet(m.grid)| == |OccupiedSet(g)|
      && ItemSet(m.grid) == ItemSet(g)
      && (Consistent(g, n) ==> Consistent(m.grid, n))
    decreases r + 1
  {
    if r >= 0 {
      var p := Pos(r, col);
      var step := MoveSlot(g, p);
      MoveSlotFacts(g, p, n);
      var acc' := acc + step.moves;
      MoveScanBoard(step.grid, col, r - 1, acc', n);
      var m := MoveScan(step.grid, col, r - 1, acc');
      assert MoveScan(g, col, r, acc) == m;
      SameTerrainTrans(g, step.grid, m.grid);
    }
  }

  /** The moves part of `MoveScanFacts`. */
  lemma {:induction false} MoveScanMoves(g: Grid, col: int, r: int, acc: seq<ItemMove>)
    requires 0 <= col < g.cols && -1 <= r < g.rows
    requires PlacedBelow(g, acc, r)
    ensures var m := MoveScan(g, col, r, acc);
      && |acc| <= |m.moves| <= |acc| + r + 1
      && m.moves[..|acc|] == acc
      && PlacedBelow(m.grid, m.moves, -1)
    decreases r + 1
  {
    if r >= 0 {
      var p := Pos(r, col);
      var step := MoveSlot(g, p);
      MoveSlotFacts(g, p, 0);
      var acc' := acc + step.moves;
      assert |step.moves| <= 1;
      forall mv | mv in acc'
        ensures mv.positions != [] && Last(mv.positions).row > r - 1
        ensures step.grid.At(Last(mv.positions)) == Occupied(mv.item)
      {
        if mv in acc {
          var d := Last(mv.positions);
          assert g.At(d) == Occupied(mv.item) && d.row > r;
          assert step.moves != [] ==> d != p && d != Last(Route(g, p));
        }
      }
      MoveScanMoves(step.grid, col, r - 1, acc');
      var m := MoveScan(step.grid, col, r - 1, acc');
      assert MoveScan(g, col, r, acc) == m;
      assert m.moves[..|acc'|] == acc';
      assert m.moves[..|acc|] == acc'[..|acc|];
    }
  }

  /** What `GetItemsMoveData(col)` does to the board: terrain, the number of
      Occupied slots, the set of items on the board and the board invariant are
      unchanged; there is at most one move per row; every move ends at a slot
      that now holds the moved item. */
  lemma MoveColumnFacts(g: Grid, col: int, n: nat)
    requires 0 <= col < g.cols
    ensures var m := MoveColumn(g, col);
      && SameTerrain(g, m.grid)
      && |OccupiedSet(m.grid)| == |OccupiedSet(g)|
      && ItemSet(m.grid) == ItemSet(g)
      && (Consistent(g, n) ==> Consistent(m.grid, n))
      && |m.moves| <= g.rows
      && PlacedBelow(m.grid, m.moves, -1)
  {
    var scan := MoveScan(g, col, g.rows - 1, []);
    MoveScanFacts(g, col, g.rows - 1, [], n);
    var m := MoveColumn(g, col);
    assert m.grid == scan.grid && m.moves == Reverse(scan.moves);
    ReverseMembers(scan.moves);
  }

  /** Every column in `cols` is a column of a board with `n` columns. */
  predicate ColumnsIn(cols: seq<int>, n: int) {
    forall i :: 0 <= i < |cols| ==> 0 <= cols[i] < n
  }

  /** `MoveColumn` over the columns `cols`, in order, concatenating the moves. */
  function MoveColumns(g: Grid, cols: seq<int>): (m: Moved)
    requires ColumnsIn(cols, g.cols)
    ensures m.grid.rows == g.rows && m.grid.cols == g.cols
    decreases |cols|
  {
    if cols == [] then Moved(g, [])
    else
      var first := MoveColumn(g, cols[0]);
      var rest := MoveColumns(first.grid, cols[1..]);
      Moved(rest.grid, first.moves + rest.moves)
  }

  lemma MovesAssoc(x: seq<ItemMove>, y: seq<ItemMove>, z: seq<ItemMove>)
    ensures x + (y + z) == (x + y) + z
  {
  }

  /** Columns of a board, concatenated, are columns of that board. */
  lemma ColumnsInAppend(a: seq<int>, b: seq<int>, n: int)
    requires ColumnsIn(a, n) && ColumnsIn(b, n)
    ensures ColumnsIn(a + b, n)
  {
    forall i | 0 <= i < |a + b| ensures 0 <= (a + b)[i] < n {
      if i >= |a| {
        assert (a + b)[i] == b[i - |a|];
      }
    }
  }

  /** Moving the columns of `a + b` moves those of `a`, then those of `b`. */
  lemma {:induction false} MoveColumnsAppend(g: Grid, a: seq<int>, b: seq<int>)
    requires ColumnsIn(a, g.cols) && ColumnsIn(b, g.cols)
    ensures ColumnsIn(a + b, g.cols)
    ensures var ma := MoveColumns(g, a);
      var mb := MoveColumns(ma.grid, b);
      MoveColumns(g, a + b) == Moved(mb.grid, ma.moves + mb.moves)
    decreases |a|
  {
    ColumnsInAppend(a, b, g.cols);
    if a == [] {
      assert a + b == b;
    } else {
      var first := MoveColumn(g, a[0]);
      var tail := a[1..];
      assert ColumnsIn(tail, g.cols) by {
        forall i | 0 <= i < |tail| ensures 0 <= tail[i] < g.cols {
          assert tail[i] == a[i + 1];
        }
      }
      assert (a + b)[1..] == tail + b;
      MoveColumnsAppend(first.grid, tail, b);
      var ma := MoveColumns(first.grid, tail);
      var mb := MoveColumns(ma.grid, b);
      assert MoveColumns(g, a) == Moved(ma.grid, first.moves + ma.moves);
      assert MoveColumns(g, a + b) == Moved(mb.grid, first.moves + (ma.moves + mb.moves));
      MovesAssoc(first.moves, ma.moves, mb.moves);
    }
  }

  /** The columns of one iteration of `GetRollDownJobs`: the pair `l`, `r`, and
      the middle column when the indices meet after stepping inwards. */
  function RollDownGroup(l: int, r: int): seq<int> {
    [l, r] + (if l + 1 == r - 1 then [l + 1] else [])
  }

  /** The columns of one group lie between `l` and `r`. */
  lemma RollDownGroupIn(l: int, r: int, n: int)
    requires 0 <= l < r < n
    ensures ColumnsIn(RollDownGroup(l, r), n)
  {
    var group := RollDownGroup(l, r);
    assert group[0] == l && group[1] == r;
  }

  /** The columns `GetRollDownJobs` visits, in order. */
  function RollDownColumns(l: int, r: int): seq<int>
    decreases r - l
  {
    if l < r then RollDownGroup(l, r) + RollDownColumns(l + 1, r - 1) else []
  }

  /** From any `l < r`, every column from `l` to `r` is visited exactly once. */
  lemma {:induction false} RollDownVisitsRange(l: int, r: int)
    requires l < r
    ensures NoDup(RollDownColumns(l, r))
    ensures forall c :: c in RollDownColumns(l, r) <==> l <= c <= r
    decreases r - l
  {
    var rest := RollDownColumns(l + 1, r - 1);
    if l + 1 < r - 1 {
      RollDownVisitsRange(l + 1, r - 1);
    } else {
      assert rest == [];
    }
    var all := RollDownColumns(l, r);
    assert all == RollDownGroup(l, r) + rest;
    forall i, j | 0 <= i < j < |all| ensures all[i] != all[j] {
      if j >= |RollDownGroup(l, r)| {
        assert all[j] in rest;
      }
    }
  }

  /** The columns `GetRollDownJobs` visits on a board with `n` columns. */
  function RollDownOrder(n: int): seq<int> {
    RollDownColumns(0, n - 1)
  }

  /** The column order of `GetRollDownJobs` on a board with `n` columns: with
      two or more columns every column is visited exactly once; a board with a
      single column visits none, since the outer indices start equal. */
  lemma RollDownColumnOrder(n: int)
    ensures n >= 2 ==> NoDup(RollDownOrder(n)) && forall c :: c in RollDownOrder(n) <==> 0 <= c < n
    ensures n <= 1 ==> RollDownOrder(n) == []
  {
    if n >= 2 {
      RollDownVisitsRange(0, n - 1);
    }
  }

  lemma MoveColumnsCons(g: Grid, c: int, rest: seq<int>)
    requires 0 <= c < g.cols && ColumnsIn(rest, g.cols)
    ensures ColumnsIn([c] + rest, g.cols)
    ensures var first := MoveColumn(g, c);
      var m := MoveColumns(first.grid, rest);
      MoveColumns(g, [c] + rest) == Moved(m.grid, first.moves + m.moves)
  {
    assert ([c] + rest)[0] == c && ([c] + rest)[1..] == rest;
  }

  /** Moving two columns is moving the first, then the second on the board that leaves. */
  lemma MoveColumnsPair(g: Grid, a: int, b: int)
    requires 0 <= a < g.cols && 0 <= b < g.cols
    ensures ColumnsIn([a, b], g.cols)
    ensures var first := MoveColumn(g, a); var second := MoveColumn(first.grid, b);
      MoveColumns(g, [a, b]) == Moved(second.grid, first.moves + second.moves)
  {
    var first := MoveColumn(g, a);
    var second := MoveColumn(first.grid, b);
    MoveColumnsCons(first.grid, b, []);
    assert second.moves + [] == second.moves;
    MoveColumnsCons(g, a, [b]);
    assert [a] + [b] == [a, b];
  }

  /** Moving one more column after a list of columns. */
  lemma MoveColumnsSnoc(g: Grid, cols: seq<int>, c: int)
    requires ColumnsIn(cols, g.cols) && 0 <= c < g.cols
    ensures ColumnsIn(cols + [c], g.cols)
    ensures var m := MoveColumns(g, cols); var last := MoveColumn(m.grid, c);
      MoveColumns(g, cols + [c]) == Moved(last.grid, m.moves + last.moves)
  {
    var m := MoveColumns(g, cols);
    MoveColumnsAppend(g, cols, [c]);
    MoveColumnsCons(m.grid, c, []);
    assert [c] + [] == [c];
  }

  /** The loop of `GetRollDownJobs` from the column pair `l`, `r` inwards: an
      iteration yields one Move job unless none of its columns moved anything. */
  function RollDownFrom(g: Grid, l: int, r: int, delay: int, order: int): (res: Rolled)
    requires 0 <= l && r < g.cols
    ensures res.grid.rows == g.rows && res.grid.cols == g.cols
    decreases r - l
  {
    if l < r then
      var group := MoveColumns(g, RollDownGroup(l, r));
      var rest := RollDownFrom(group.grid, l + 1, r - 1, delay, order);
      Rolled(rest.grid, (if group.moves == [] then [] else [Move(group.moves, delay, order)]) + rest.jobs)
    else
      Rolled(g, [])
  }

  datatype Rolled = Rolled(grid: Grid, jobs: seq<Job>)

  /** `GetRollDownJobs(delay, order)`. */
  function RollDown(g: Grid, delay: int, order: int): Rolled {
    RollDownFrom(g, 0, g.cols - 1, delay, order)
  }

  /** All moves of a list of jobs, in job order. */
  function JobMoves(jobs: seq<Job>): seq<ItemMove> {
    if jobs == [] then []
    else (if jobs[0].Hide? then [] else jobs[0].moves) + JobMoves(jobs[1..])
  }

  /** Every job is a Move job with at least one move and the given delay and order. */
  ghost predicate MoveJobs(jobs: seq<Job>, delay: int, order: int) {
    forall j :: j in jobs ==> j.Move? && j.moves != [] && j.delay == delay && j.order == order
  }

  lemma {:induction false} JobMovesAppend(a: seq<Job>, b: seq<Job>)
    ensures JobMoves(a + b) == JobMoves(a) + JobMoves(b)
    decreases |a|
  {
    if a == [] {
      assert a + b == b;
    } else {
      assert (a + b)[1..] == a[1..] + b;
      JobMovesAppend(a[1..], b);
    }
  }

  /** Every column `RollDownColumns(l, r)` visits lies between `l` and `r`. */
  lemma {:induction false} RollDownColumnsIn(l: int, r: int, n: int)
    requires 0 <= l && r < n
    ensures ColumnsIn(RollDownColumns(l, r), n)
    decreases r - l
  {
    if l < r {
      RollDownColumnsIn(l + 1, r - 1, n);
      var rest := RollDownColumns(l + 1, r - 1);
      var all := RollDownColumns(l, r);
      assert all == RollDownGroup(l, r) + rest;
      forall i | 0 <= i < |all| ensures 0 <= all[i] < n {
        if i >= |RollDownGroup(l, r)| { assert all[i] == rest[i - |RollDownGroup(l, r)|]; }
      }
    }
  }

  /** Moving the columns of the outer group, then those further in. */
  lemma MoveRollDownColumns(g: Grid, l: int, r: int)
    requires 0 <= l < r < g.cols
    ensures ColumnsIn(RollDownColumns(l, r), g.cols)
    ensures ColumnsIn(RollDownColumns(l + 1, r - 1), g.cols)
    ensures var group := MoveColumns(g, RollDownGroup(l, r));
      var m := MoveColumns(group.grid, RollDownColumns(l + 1, r - 1));
      MoveColumns(g, RollDownColumns(l, r)) == Moved(m.grid, group.moves + m.moves)
  {
    RollDownColumnsIn(l, r, g.cols);
    RollDownColumnsIn(l + 1, r - 1, g.cols);
    MoveColumnsAppend(g, RollDownGroup(l, r), RollDownColumns(l + 1, r - 1));
  }

  /** A job in front adds its moves in front. */
  lemma JobMovesFront(job: Job, jobs: seq<Job>)
    requires !job.Hide?
    ensures JobMoves([job] + jobs) == job.moves + JobMoves(jobs)
  {
    var all := [job] + jobs;
    assert all[0] == job && all[1..] == jobs;
  }

  /** A Move job in front, present only when it has moves, adds its moves in front. */
  lemma JobMovesCons(moves: seq<ItemMove>, delay: int, order: int, jobs: seq<Job>)
    ensures JobMoves((if moves == [] then [] else [Move(moves, delay, order)]) + jobs) == moves + JobMoves(jobs)
  {
    if moves == [] {
      assert [] + jobs == jobs;
    } else {
      JobMovesFront(Move(moves, delay, order), jobs);
    }
  }

  /** A Move job at the end, present only when it has moves, adds its moves at the end. */
  lemma JobMovesSnoc(jobs: seq<Job>, moves: seq<ItemMove>, delay: int, order: int)
    ensures JobMoves(jobs + (if moves == [] then [] else [Move(moves, delay, order)])) == JobMoves(jobs) + moves
  {
    var step := if moves == [] then [] else [Move(moves, delay, order)];
    JobMovesAppend(jobs, step);
    if moves == [] {
      assert jobs + step == jobs;
    } else {
      assert step[1..] == [];
    }
  }

  /** `GetRollDownJobs` moves exactly the columns of `RollDownColumns`, in that
      order: its board is that of `MoveColumns` over them, and the moves of its
      jobs are theirs, in the same order. */
  lemma RollDownIsMoveColumns(g: Grid, l: int, r: int, delay: int, order: int)
    requires 0 <= l && r < g.cols
    ensures ColumnsIn(RollDownColumns(l, r), g.cols)
    ensures var res := RollDownFrom(g, l, r, delay, order);
      var m := MoveColumns(g, RollDownColumns(l, r));
      res.grid == m.grid && JobMoves(res.jobs) == m.moves
  {
    RollDownGridIsMoveColumns(g, l, r, delay, order);
    RollDownMovesIsMoveColumns(g, l, r, delay, order);
  }

  /** The board part of `RollDownIsMoveColumns`. */
  lemma {:induction false} RollDownGridIsMoveColumns(g: Grid, l: int, r: int, delay: int, order: int)
    requires 0 <= l && r < g.cols
    ensures ColumnsIn(RollDownColumns(l, r), g.cols)
    ensures RollDownFrom(g, l, r, delay, order).grid == MoveColumns(g, RollDownColumns(l, r)).grid
    decreases r - l
  {
    RollDownColumnsIn(l, r, g.cols);
    if l < r {
      var group := MoveColumns(g, RollDownGroup(l, r));
      RollDownGridIsMoveColumns(group.grid, l + 1, r - 1, delay, order);
      MoveRollDownColumns(g, l, r);
    } else {
      assert RollDownColumns(l, r) == [];
    }
  }

  /** The moves part of `RollDownIsMoveColumns`. */
  lemma {:induction false} RollDownMovesIsMoveColumns(g: Grid, l: int, r: int, delay: int, order: int)
    requires 0 <= l && r < g.cols
    ensures ColumnsIn(RollDownColumns(l, r), g.cols)
    ensures JobMoves(RollDownFrom(g, l, r, delay, order).jobs) == MoveColumns(g, RollDownColumns(l, r)).moves
    decreases r - l
  {
    RollDownColumnsIn(l, r, g.cols);
    if l < r {
      RollDownGroupIn(l, r, g.cols);
      var inner := MoveColumns(g, RollDownGroup(l, r)).grid;
      RollDownMovesIsMoveColumns(inner, l + 1, r - 1, delay, order);
      RollDownMovesStep(g, l, r, delay, order);
    } else {
      assert RollDownColumns(l, r) == [];
    }
  }

  /** The step of `RollDownMovesIsMoveColumns`: the outer group's moves come
      first, then those of the columns further in. */
  lemma RollDownMovesStep(g: Grid, l: int, r: int, delay: int, order: int)
    requires 0 <= l < r < g.cols
    requires ColumnsIn(RollDownGroup(l, r), g.cols)
    requires var inner := MoveColumns(g, RollDownGroup(l, r)).grid;
      && ColumnsIn(RollDownColumns(l + 1, r - 1), inner.cols)
      && JobMoves(RollDownFrom(inner, l + 1, r - 1, delay, order).jobs) == MoveColumns(inner, RollDownColumns(l + 1, r - 1)).moves
    ensures ColumnsIn(RollDownColumns(l, r), g.cols)
    ensures JobMoves(RollDownFrom(g, l, r, delay, order).jobs) == MoveColumns(g, RollDownColumns(l, r)).moves
  {
    var group := MoveColumns(g, RollDownGroup(l, r));
    var rest := RollDownFrom(group.grid, l + 1, r - 1, delay, order);
    MoveRollDownColumns(g, l, r);
    JobMovesCons(group.moves, delay, order, rest.jobs);
  }

  /** Every job `GetRollDownJobs` emits is a Move job with at least one move
      and the given delay and order. */
  lemma {:induction false} RollDownJobShape(g: Grid, l: int, r: int, delay: int, order: int)
    requires 0 <= l && r < g.cols
    ensures MoveJobs(RollDownFrom(g, l, r, delay, order).jobs, delay, order)
    decreases r - l
  {
    if l < r {
      RollDownGroupIn(l, r, g.cols);
      var group := MoveColumns(g, RollDownGroup(l, r));
      assert group.grid.cols == g.cols;
      var rest := RollDownFrom(group.grid, l + 1, r - 1, delay, order);
      assert RollDownFrom(g, l, r, delay, order).jobs
        == (if group.moves == [] then [] else [Move(group.moves, delay, order)]) + rest.jobs;
      RollDownJobShape(group.grid, l + 1, r - 1, delay, order);
      MoveJobsCons(group.moves, delay, order, rest.jobs);
    }
  }

  /** A Move job in front, present only when it has moves, keeps every job a non-empty Move job. */
  lemma MoveJobsCons(moves: seq<ItemMove>, delay: int, order: int, jobs: seq<Job>)
    requires MoveJobs(jobs, delay, order)
    ensures MoveJobs((if moves == [] then [] else [Move(moves, delay, order)]) + jobs, delay, order)
  {
  }

  /** What `GetRollDownJobs` does to the board: terrain, the number of Occupied
      slots, the set of items and the board invariant are unchanged. */
  lemma {:induction false} MoveColumnsFacts(g: Grid, cols: seq<int>, n: nat)
    requires ColumnsIn(cols, g.cols)
    ensures var m := MoveColumns(g, cols);
      && SameTerrain(g, m.grid)
      && |OccupiedSet(m.grid)| == |OccupiedSet(g)|
      && ItemSet(m.grid) == ItemSet(g)
      && (Consistent(g, n) ==> Consistent(m.grid, n))
    decreases |cols|
  {
    if cols != [] {
      var first := MoveColumn(g, cols[0]);
      MoveColumnFacts(g, cols[0], n);
      MoveColumnsFacts(first.grid, cols[1..], n);
      SameTerrainTrans(g, first.grid, MoveColumns(g, cols).grid);
    }
  }
}
