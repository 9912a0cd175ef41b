/** `ItemsRollDownFillStrategy`: the strategy object working in place on the
    board and the item generator. Every method is proved to compute what the
    specification function of the same operation computes on the board it
    starts from, so the lemmas about those functions hold of the methods. */
module RollDownStrategy {
  import opened GridModel
  import opened DropPaths
  import opened PathFilter
  import opened ItemMoves
  import opened Generation
  import opened Solving
  import opened Board

  class ItemsRollDownFillStrategy {
    const board: GameBoard
    const generator: ItemGenerator

    constructor (board: GameBoard, generator: ItemGenerator)
      ensures this.board == board && this.generator == generator
    {
      this.board := board;
      this.generator := generator;
    }

    /** `CanDropFromTop(row, col)`: walks up column `col` from `row` to the top. */
    method CanDropFromTop(row: int, col: int) returns (b: bool)
      requires board.Valid()
      requires 0 <= col < board.model.cols && row < board.model.rows
      ensures b == OpenAbove(board.model, row, col)
    {
      var r := row;
      while r >= 0
        invariant r <= row
        invariant forall k :: r < k <= row ==> board.model.At(Pos(k, col)) != NotAvailable
      {
        var s := board.GetSlot(Pos(r, col));
        if s == NotAvailable {
          return false;
        }
        r := r - 1;
      }
      return true;
    }

    /** `GetDropPositions(slot)`: straight down while possible, then one
        diagonal step and the drop path from there. */
    method GetDropPositions(p: Pos) returns (path: seq<Pos>)
      requires board.Valid()
      requires board.model.OnGrid(p)
      ensures path == DropPath(board.model, p)
      decreases board.model.rows - p.row
    {
      ghost var g := board.model;
      var cur := p;
      path := [];
      var down, below := board.CanMoveInDirection(cur, Down);
      while down
        invariant g.OnGrid(cur) && cur.row >= p.row
        invariant path + DropPath(g, cur) == DropPath(g, p)
        invariant down == CanMove(g, cur, Down) && below == g.Beside(cur, Down)
        decreases g.rows - cur.row
      {
        DropPathDown(g, cur);
        AppendOne(path, below, DropPath(g, below));
        cur := below;
        path := path + [below];
        down, below := board.CanMoveInDirection(cur, Down);
      }
      var ok, diagonal := CanDropDiagonally(cur);
      DropPathAside(g, cur);
      if !ok {
        return;
      }
      AppendOne(path, diagonal, DropPath(g, diagonal));
      var rest := GetDropPositions(diagonal);
      path := path + [diagonal] + rest;
    }

    /** `CanDropDiagonally(slot, out position)`: Left is tried before Right. */
    method CanDropDiagonally(p: Pos) returns (ok: bool, q: Pos)
      requires board.Valid()
      ensures ok == Diagonal(board.model, p).Some?
      ensures ok ==> q == Diagonal(board.model, p).value
    {
      ok, q := CanDropDiagonallyToward(p, Left);
      if !ok {
        ok, q := CanDropDiagonallyToward(p, Right);
      }
    }

    /** `CanDropDiagonally(slot, direction, out position)`: the side slot is
        NotAvailable and the slot below it can be moved into, which is then
        the position. When the side slot is not NotAvailable the position is
        `GridPosition.Zero`. */
    method CanDropDiagonallyToward(p: Pos, d: Pos) returns (ok: bool, q: Pos)
      requires board.Valid()
      ensures ok == SideQualifies(board.model, p, d)
      ensures ok ==> q == board.model.Beside(board.model.Beside(p, d), Down)
      ensures board.model.Get(board.model.Beside(p, d)) != Some(NotAvailable) ==> !ok && q == Pos(0, 0)
    {
      var side := board.GetSideGridSlot(p, d);
      if side == Some(NotAvailable) {
        ok, q := board.CanMoveInDirection(Pos(p.row + d.row, p.col + d.col), Down);
      } else {
        ok, q := false, Pos(0, 0);
      }
    }

    /** `FilterPositions(current, positions)`, with the `HashSet` as an
        insertion-ordered sequence without repeats. */
    method FilterPositions(cur: Pos, path: seq<Pos>) returns (r: seq<Pos>)
      ensures r == Filter(cur, path)
    {
      if |path| == 0 || |path| == 1 {
        return path;
      }
      var startCol := cur.col;
      var kept: seq<Pos> := [];
      for i := 0 to |path|
        invariant FilterFrom(path, i, startCol, kept) == Filter(cur, path)
      {
        var q := path[i];
        if startCol == q.col {
          if i == |path| - 1 {
            kept := AddNew(kept, q);
          }
          continue;
        }
        if i > 0 {
          kept := AddNew(kept, path[i - 1]);
        }
        kept := AddNew(kept, q);
        startCol := q.col;
      }
      return kept;
    }

    /** `GetItemsMoveData(col)`: scans the column bottom to top. */
    method GetItemsMoveData(col: int) returns (moves: seq<ItemMove>)
      requires board.Valid()
      requires 0 <= col < board.model.cols
      modifies board, board.slots
      ensures board.Valid()
      ensures board.model == MoveColumn(old(board.model), col).grid
      ensures moves == MoveColumn(old(board.model), col).moves
    {
      ghost var g0 := board.model;
      var acc: seq<ItemMove> := [];
      for r := board.slots.Length0 downto 0
        invariant board.Valid()
        invariant board.model.rows == g0.rows && board.model.cols == g0.cols
        invariant MoveScan(board.model, col, r - 1, acc) == MoveScan(g0, col, g0.rows - 1, [])
      {
        var step := MoveRowSlot(Pos(r, col));
        acc := acc + step;
      }
      moves := Reverse(acc);
    }

    /** The body of the row loop of `GetItemsMoveData`: an Occupied slot whose
        filtered drop path is not empty is cleared and its item is set at the
        path's end. */
    method MoveRowSlot(p: Pos) returns (step: seq<ItemMove>)
      requires board.Valid()
      requires board.model.OnGrid(p)
      modifies board, board.slots
      ensures board.Valid()
      ensures board.model == MoveSlot(old(board.model), p).grid
      ensures step == MoveSlot(old(board.model), p).moves
    {
      var s := board.GetSlot(p);
      if !s.Occupied? {
        return [];
      }
      var path := GetDropPositions(p);
      var route := FilterPositions(p, path);
      if route == [] {
        return [];
      }
      assert Last(route).row > p.row && board.model.OnGrid(Last(route)) by {
        RouteFacts(board.model, p);
        assert Last(route) in route;
      }
      var item := s.item;
      board.SetSlot(p, Free);
      step := [ItemMove(item, route)];
      board.SetSlot(Last(route), Occupied(item));
    }

    /** `GetGenerateJobs(col)`: while the top slot of the column is not
        Occupied, a fresh item enters there; the loop ends early when an item
        has nowhere to fall. The moves are returned in reverse order. */
    method GetGenerateJobs(col: int) returns (moves: seq<ItemMove>)
      requires board.Valid()
      requires 0 <= col < board.model.cols && 0 < board.model.rows
      modifies board, board.slots, generator
      ensures board.Valid()
      ensures var gen := Generate(old(board.model), col, old(generator.nextId));
        board.model == gen.grid && generator.nextId == gen.next && moves == gen.moves
      ensures generator.returned == old(generator.returned)
    {
      ghost var g0 := board.model;
      ghost var n0 := generator.nextId;
      var acc: seq<ItemMove> := [];
      while !board.slots[0, col].Occupied?
        invariant board.Valid()
        invariant board.model.rows == g0.rows && board.model.cols == g0.cols
        invariant GenerateFrom(board.model, col, generator.nextId, acc) == GenerateFrom(g0, col, n0, [])
        invariant generator.returned == old(generator.returned)
        decreases |FreeSet(board.model)|
      {
        ghost var before := board.model;
        ghost var next := generator.nextId;
        assert board.slots[0, col] == before.At(Pos(0, col));
        var move, stays := GenerateItem(col);
        acc := acc + [move];
        if stays {
          break;
        }
        SpawnShrinksFree(before, col, next);
      }
      assert board.slots[0, col] == board.model.At(Pos(0, col));
      moves := Reverse(acc);
    }

    /** The body of the loop of `GetGenerateJobs`: a fresh item enters at the
        top slot of the column and is set at the end of its filtered drop path,
        or in the top slot itself when that path is empty (`stays`). */
    method GenerateItem(col: int) returns (move: ItemMove, stays: bool)
      requires board.Valid()
      requires 0 <= col < board.model.cols && 0 < board.model.rows
      modifies board, board.slots, generator
      ensures board.Valid()
      ensures var s := Spawn(old(board.model), col, old(generator.nextId));
        board.model == s.grid && [move] == s.moves
      ensures stays <==> Route(old(board.model), Pos(0, col)) == []
      ensures generator.nextId == old(generator.nextId) + 1
      ensures generator.returned == old(generator.returned)
    {
      var top := Pos(0, col);
      var item := generator.GetItem();
      var path := GetDropPositions(top);
      var route := FilterPositions(top, path);
      if route == [] {
        board.SetSlot(top, Occupied(item));
        return ItemMove(item, [top]), true;
      }
      assert Last(route) in route && board.model.OnGrid(Last(route)) by {
        RouteFacts(board.model, top);
      }
      var destination := Last(route);
      board.SetSlot(destination, Occupied(item));
      return ItemMove(item, route), false;
    }

    /** `GetFillJobs()`: the fill pass with delay multiplier 0 and execution order 0. */
    method GetFillJobs() returns (jobs: seq<Job>)
      requires board.Valid()
      requires board.model.rows > 0 || board.model.cols == 0
      modifies board, board.slots, generator
      ensures board.Valid()
      ensures var f := Fill(old(board.model), old(generator.nextId), 0, 0);
        board.model == f.grid && generator.nextId == f.next && jobs == f.jobs
      ensures generator.returned == old(generator.returned)
    {
      jobs := GetFillJobsWith(0, 0);
    }

    /** `GetFillJobs(delayMultiplier, executionOrder)`: one Drop job per
        column whose top slot is not NotAvailable, left to right. */
    method GetFillJobsWith(delay: int, order: int) returns (jobs: seq<Job>)
      requires board.Valid()
      requires board.model.rows > 0 || board.model.cols == 0
      modifies board, board.slots, generator
      ensures board.Valid()
      ensures var f := Fill(old(board.model), old(generator.nextId), delay, order);
        board.model == f.grid && generator.nextId == f.next && jobs == f.jobs
      ensures generator.returned == old(generator.returned)
    {
      ghost var g0 := board.model;
      ghost var n0 := generator.nextId;
      ghost var f0 := Fill(g0, n0, delay, order);
      jobs := [];
      for c := 0 to board.slots.Length1
        invariant board.Valid()
        invariant board.model.rows == g0.rows && board.model.cols == g0.cols
        invariant var f := FillFrom(board.model, generator.nextId, c, delay, order);
          && jobs + f.jobs == f0.jobs && f.grid == f0.grid && f.next == f0.next
        invariant generator.returned == old(generator.returned)
      {
        var s := board.GetSlot(Pos(0, c));
        if s == NotAvailable {
          continue;
        }
        ghost var before := board.model;
        ghost var nextBefore := generator.nextId;
        ghost var jobsBefore := jobs;
        var generated := GetGenerateJobs(c);
        jobs := jobs + [Drop(generated, delay, order)];
        AppendOne(jobsBefore, Drop(generated, delay, order), FillFrom(board.model, generator.nextId, c + 1, delay, order).jobs);
      }
    }

    /** `GetRollDownJobs(delayMultiplier, executionOrder)`: column pairs from
        the outside in; one Move job per pair that moved something. */
    method GetRollDownJobs(delay: int, order: int) returns (jobs: seq<Job>)
      requires board.Valid()
      modifies board, board.slots
      ensures board.Valid()
      ensures var rd := RollDown(old(board.model), delay, order);
        board.model == rd.grid && jobs == rd.jobs
    {
      ghost var g0 := board.model;
      ghost var rd0 := RollDown(g0, delay, order);
      jobs := [];
      var l := 0;
      var r := board.slots.Length1 - 1;
      while l < r
        invariant board.Valid()
        invariant board.model.rows == g0.rows && board.model.cols == g0.cols
        invariant 0 <= l && r < g0.cols
        invariant var rest := RollDownFrom(board.model, l, r, delay, order);
          jobs + rest.jobs == rd0.jobs && rest.grid == rd0.grid
        decreases r - l
      {
        ghost var before := board.model;
        ghost var jobsBefore := jobs;
        var moves := GetPairMoveData(l, r);
        ghost var rest := RollDownFrom(board.model, l + 1, r - 1, delay, order);
        l := l + 1;
        r := r - 1;
        if moves != [] {
          jobs := jobs + [Move(moves, delay, order)];
          AppendOne(jobsBefore, Move(moves, delay, order), rest.jobs);
        } else {
          assert [] + rest.jobs == rest.jobs;
        }
      }
    }

    /** The columns one iteration of `GetRollDownJobs` moves: the left column,
        the right column and, when the two are one column apart, the column
        between them. */
    method GetPairMoveData(l: int, r: int) returns (moves: seq<ItemMove>)
      requires board.Valid()
      requires 0 <= l < r < board.model.cols
      modifies board, board.slots
      ensures board.Valid()
      ensures var group := MoveColumns(old(board.model), RollDownGroup(l, r));
        board.model == group.grid && moves == group.moves
    {
      ghost var before := board.model;
      MoveColumnsPair(before, l, r);
      moves := GetItemsMoveData(l);
      var right := GetItemsMoveData(r);
      moves := moves + right;
      if l + 1 == r - 1 {
        MoveColumnsSnoc(before, [l, r], l + 1);
        assert RollDownGroup(l, r) == [l, r] + [l + 1];
        var middle := GetItemsMoveData(l + 1);
        moves := moves + middle;
      } else {
        assert RollDownGroup(l, r) == [l, r];
      }
    }

    /** `GetSolveJobs(sequences)`: clears the solved slots, lets the items of
        their columns fall, hides the solved items, rolls the board down and
        refills it. */
    method GetSolveJobs(seqs: seq<seq<Pos>>) returns (jobs: seq<Job>)
      requires board.Valid()
      requires (board.model.rows > 0 || board.model.cols == 0) && OnBoard(board.model, Flatten(seqs))
      modifies board, board.slots, generator
      ensures board.Valid()
      ensures var res := Solve(old(board.model), old(generator.nextId), seqs);
        && board.model == res.grid && generator.nextId == res.next && jobs == res.Jobs()
        && generator.returned == old(generator.returned) + res.hidden
    {
      ghost var g0 := board.model;
      ghost var res := Solve(g0, generator.nextId, seqs);
      var solved, hidden := ClearSolvedSlots(seqs);
      ghost var c := board.model;
      assert OnBoard(c, solved) by {
        SolvedOnBoard(g0, Flatten(seqs));
        forall i | 0 <= i < |solved| ensures c.OnGrid(solved[i]) {
          assert solved[i] in solved;
        }
      }
      var order := OrderByDropFromTop(solved);
      SolveOrderIn(g0, Flatten(seqs));
      jobs := GetSlotMoveJobs(order);
      jobs := jobs + [Hide(hidden)];
      var rolled := GetRollDownJobs(1, 0);
      jobs := jobs + rolled;
      var filled := GetFillJobsWith(0, 1);
      jobs := jobs + filled;
    }

    /** The first loop of `GetSolveJobs`: every slot not seen before is
        cleared and its item is listed for hiding and returned to the
        generator; `solved` is the `HashSet` in first-seen order. */
    method ClearSolvedSlots(seqs: seq<seq<Pos>>) returns (solved: seq<Pos>, hidden: seq<Item>)
      requires board.Valid() && OnBoard(board.model, Flatten(seqs))
      modifies board, board.slots, generator
      ensures board.Valid()
      ensures ClearAll(old(board.model), Flatten(seqs)) == Cleared(board.model, solved, hidden)
      ensures generator.returned == old(generator.returned) + hidden
      ensures generator.nextId == old(generator.nextId)
    {
      ghost var g0 := board.model;
      OnBoardParts(g0, seqs);
      solved, hidden := [], [];
      for i := 0 to |seqs|
        invariant board.Valid()
        invariant board.model.rows == g0.rows && board.model.cols == g0.cols
        invariant ClearAll(g0, Flatten(seqs[..i])) == Cleared(board.model, solved, hidden)
        invariant generator.returned == old(generator.returned) + hidden
        invariant generator.nextId == old(generator.nextId)
      {
        ghost var done := Flatten(seqs[..i]);
        assert done + seqs[i][..0] == done;
        for j := 0 to |seqs[i]|
          invariant board.Valid()
          invariant board.model.rows == g0.rows && board.model.cols == g0.cols
          invariant ClearAll(g0, done + seqs[i][..j]) == Cleared(board.model, solved, hidden)
          invariant generator.returned == old(generator.returned) + hidden
          invariant generator.nextId == old(generator.nextId)
        {
          var p := seqs[i][j];
          ghost var ps := done + seqs[i][..j];
          PrefixSnoc(done, seqs[i], j);
          ClearAllSnoc(g0, ps, p);
          if p in solved {
            continue;
          }
          var item := ClearSolvedSlot(p);
          AppendTwice(old(generator.returned), hidden, item);
          solved := solved + [p];
          hidden := hidden + item;
        }
        assert seqs[i][..|seqs[i]|] == seqs[i];
        assert seqs[..i + 1][..i] == seqs[..i];
      }
      assert seqs[..|seqs|] == seqs;
    }

    /** The body of the first loop of `GetSolveJobs` for a slot not seen
        before: its item (none when the slot is not Occupied) is taken, the
        slot is cleared and the item goes back to the generator. */
    method ClearSolvedSlot(p: Pos) returns (item: seq<Item>)
      requires board.Valid() && board.model.OnGrid(p)
      modifies board, board.slots, generator
      ensures board.Valid()
      ensures var slot := old(board.model).At(p);
        && board.model == old(board.model).Set(p, Free)
        && item == (if slot.Occupied? then [slot.item] else [])
      ensures generator.returned == old(generator.returned) + item
      ensures generator.nextId == old(generator.nextId)
    {
      var slot := board.GetSlot(p);
      board.SetSlot(p, Free);
      if slot.Occupied? {
        item := [slot.item];
        generator.ReturnItem(slot.item);
      } else {
        item := [];
      }
    }

    /** `OrderBy(slot => CanDropFromTop(slot))` over the solved slots: a
        stable partition, the slots that cannot be filled from the top first. */
    method OrderByDropFromTop(ps: seq<Pos>) returns (order: seq<Pos>)
      requires board.Valid() && OnBoard(board.model, ps)
      ensures order == DropFromTopOrder(board.model, ps)
    {
      var blocked: seq<Pos> := [];
      var open: seq<Pos> := [];
      for i := 0 to |ps|
        invariant blocked == WithKey(board.model, ps[..i], false)
        invariant open == WithKey(board.model, ps[..i], true)
      {
        assert ps[..i + 1][..i] == ps[..i];
        var b := CanDropFromTop(ps[i].row, ps[i].col);
        if b {
          open := open + [ps[i]];
        } else {
          blocked := blocked + [ps[i]];
        }
      }
      assert ps[..|ps|] == ps;
      order := blocked + open;
    }

    /** The second loop of `GetSolveJobs`: the items of the column of every
        slot, in order, fall; a Move job for each column that moved something. */
    method GetSlotMoveJobs(ps: seq<Pos>) returns (jobs: seq<Job>)
      requires board.Valid() && ColumnsIn(Cols(ps), board.model.cols)
      modifies board, board.slots
      ensures board.Valid()
      ensures var sm := SlotMoves(old(board.model), ps);
        board.model == sm.grid && jobs == sm.jobs
    {
      ghost var g0 := board.model;
      jobs := [];
      for i := 0 to |ps|
        invariant board.Valid()
        invariant board.model.rows == g0.rows && board.model.cols == g0.cols
        invariant ColumnsIn(Cols(ps[..i]), g0.cols)
        invariant SlotMoves(g0, ps[..i]) == Rolled(board.model, jobs)
      {
        assert ps[..i + 1][..i] == ps[..i];
        assert Cols(ps)[i] == ps[i].col;
        var moves := GetItemsMoveData(ps[i].col);
        if moves != [] {
          jobs := jobs + [Move(moves, 0, 0)];
        } else {
          assert jobs + [] == jobs;
        }
        assert Cols(ps[..i + 1]) == Cols(ps)[..i + 1];
      }
      assert ps[..|ps|] == ps;
    }
  }
}
