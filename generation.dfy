/** Refilling the board from the top: new items enter each column whose top
    slot is not NotAvailable and fall as far as they can (`GetGenerateJobs`,
    `GetFillJobs`), as functions of the board before the pass. */
module Generation {
  import opened GridModel
  import opened DropPaths
  import opened ItemMoves

  /** The board after generating, the next fresh item id, and the moves. */
  datatype Generated = Generated(grid: Grid, next: nat, moves: seq<ItemMove>)

  /** The slot item `next` comes to rest in when it enters column `col`:
      the end of its route, or the top slot when it cannot fall. */
  function SpawnTarget(g: Grid, col: int): Pos {
    var route := Route(g, Pos(0, col));
    if route == [] then Pos(0, col) else Last(route)
  }

  /** One pass of the loop of `GetGenerateJobs(col)`: item `next` enters at
      the top slot and is put at the end of its route, or stays in the top
      slot when it has nowhere to fall. */
  function Spawn(g: Grid, col: int, next: nat): Moved {
    var route := Route(g, Pos(0, col));
    Moved(g.Set(SpawnTarget(g, col), Occupied(next)),
          [ItemMove(next, if route == [] then [Pos(0, col)] else route)])
  }

  /** A spawned item falls into a Free slot, so the board has one Free slot less. */
  lemma SpawnShrinksFree(g: Grid, col: int, next: nat)
    requires Route(g, Pos(0, col)) != []
    ensures |FreeSet(Spawn(g, col, next).grid)| < |FreeSet(g)|
  {
    var route := Route(g, Pos(0, col));
    RouteFacts(g, Pos(0, col));
    assert Last(route) in route;
    OccupyShrinksFree(g, Last(route), Occupied(next));
  }

  /** What one spawn does when the top slot is Free: item `next` is the one
      move, it ends at the slot that now holds it, which was Free before; no
      other slot changes; terrain and the board invariant are kept, and one
      more slot is Occupied. The top slot is then Occupied exactly when the
      item could not fall. */
  lemma SpawnFacts(g: Grid, col: int, next: nat)
    requires g.OnGrid(Pos(0, col)) && g.At(Pos(0, col)) == Free
    ensures var s := Spawn(g, col, next);
      var d := SpawnTarget(g, col);
      && |s.moves| == 1 && s.moves[0].item == next
      && s.moves[0].positions != [] && Last(s.moves[0].positions) == d
      && g.OnGrid(d) && g.At(d) == Free
      && s.grid == g.Set(d, Occupied(next))
      && SameTerrain(g, s.grid)
      && KeepsItems(g, s.grid)
      && |OccupiedSet(s.grid)| == |OccupiedSet(g)| + 1
      && (Consistent(g, next) ==> Consistent(s.grid, next + 1))
      && (s.grid.At(Pos(0, col)).Occupied? <==> Route(g, Pos(0, col)) == [])
  {
    var top := Pos(0, col);
    var route := Route(g, top);
    RouteFacts(g, top);
    var d := SpawnTarget(g, col);
    if route != [] {
      assert d in route;
    }
    PlaceItemPreserves(g, d, next, next);
  }

  /** The loop of `GetGenerateJobs(col)`: while the top slot of the column is
      not Occupied, item `next` enters at the top and falls along its route;
      an item with nowhere to fall stays in the top slot and ends the loop. */
  function GenerateFrom(g: Grid, col: int, next: nat, acc: seq<ItemMove>): (res: Generated)
    requires g.OnGrid(Pos(0, col))
    ensures res.grid.rows == g.rows && res.grid.cols == g.cols
    decreases |FreeSet(g)|
  {
    if g.At(Pos(0, col)).Occupied? then Generated(g, next, acc)
    else
      var s := Spawn(g, col, next);
      if Route(g, Pos(0, col)) == [] then Generated(s.grid, next + 1, acc + s.moves)
      else
        SpawnShrinksFree(g, col, next);
        GenerateFrom(s.grid, col, next + 1, acc + s.moves)
  }

  /** `GetGenerateJobs(col)`: the moves are returned in reverse order of generation. */
  function Generate(g: Grid, col: int, next: nat): (res: Generated)
    requires g.OnGrid(Pos(0, col))
    ensures res.grid.rows == g.rows && res.grid.cols == g.cols
  {
    var gen := GenerateFrom(g, col, next, []);
    Generated(gen.grid, gen.next, Reverse(gen.moves))
  }

  /** The move list of the generate loop: the moves so far are kept, one move
      per fresh item, with consecutive ids from `next`. */
  lemma {:induction false} GenerateFromIds(g: Grid, col: int, next: nat, acc: seq<ItemMove>)
    requires g.OnGrid(Pos(0, col)) && g.At(Pos(0, col)) != NotAvailable
    ensures var res := GenerateFrom(g, col, next, acc);
      && |acc| <= |res.moves|
      && res.moves[..|acc|] == acc
      && res.next == next + |res.moves| - |acc|
      && (forall k :: |acc| <= k < |res.moves| ==> res.moves[k].item == next + k - |acc|)
      && (res.moves == acc <==> g.At(Pos(0, col)).Occupied?)
    decreases |FreeSet(g)|, 1
  {
    if !g.At(Pos(0, col)).Occupied? {
      if Route(g, Pos(0, col)) == [] {
        var s := Spawn(g, col, next);
        assert (acc + s.moves)[..|acc|] == acc;
      } else {
        GenerateFromIdsFalls(g, col, next, acc);
      }
    } else {
      assert acc[..|acc|] == acc;
    }
  }

  /** `GenerateFromIds` for a pass whose item falls. */
  lemma {:induction false} GenerateFromIdsFalls(g: Grid, col: int, next: nat, acc: seq<ItemMove>)
    requires g.OnGrid(Pos(0, col)) && g.At(Pos(0, col)) == Free && Route(g, Pos(0, col)) != []
    ensures var res := GenerateFrom(g, col, next, acc);
      && |acc| < |res.moves|
      && res.moves[..|acc|] == acc
      && res.next == next + |res.moves| - |acc|
      && (forall k :: |acc| <= k < |res.moves| ==> res.moves[k].item == next + k - |acc|)
    decreases |FreeSet(g)|, 0
  {
    var s := Spawn(g, col, next);
    assert |s.moves| == 1 && s.moves[0].item == next;
    var acc' := acc + s.moves;
    assert s.grid.At(Pos(0, col)) == Free by {
      SpawnFacts(g, col, next);
    }
    SpawnShrinksFree(g, col, next);
    GenerateFromIds(s.grid, col, next + 1, acc');
    var res := GenerateFrom(s.grid, col, next + 1, acc');
    assert res == GenerateFrom(g, col, next, acc);
    assert res.moves[..|acc'|] == acc';
    assert res.moves[..|acc|] == acc'[..|acc|];
    assert res.moves[|acc|] == s.moves[0];
    forall k | |acc| <= k < |res.moves| ensures res.moves[k].item == next + k - |acc| {
      if k == |acc| {
        assert res.moves[k] == s.moves[0];
      } else {
        assert |acc'| <= k;
      }
    }
  }

  /** The board after the generate loop: the top slot is Occupied; the items
      already there stay; terrain and the board invariant are kept; every move
      ends at the slot holding its item; one more slot is Occupied per move. */
  lemma {:induction false} GenerateFromBoard(g: Grid, col: int, next: nat, acc: seq<ItemMove>)
    requires g.OnGrid(Pos(0, col)) && g.At(Pos(0, col)) != NotAvailable
    requires PlacedBelow(g, acc, -1)
    ensures var res := GenerateFrom(g, col, next, acc);
      && res.grid.At(Pos(0, col)).Occupied?
      && SameTerrain(g, res.grid)
      && KeepsItems(g, res.grid)
      && PlacedBelow(res.grid, res.moves, -1)
      && |OccupiedSet(res.grid)| + |acc| == |OccupiedSet(g)| + |res.moves|
      && (Consistent(g, next) ==> Consistent(res.grid, res.next))
    decreases |FreeSet(g)|
  {
    if !g.At(Pos(0, col)).Occupied? {
      var s := Spawn(g, col, next);
      var d := SpawnTarget(g, col);
      SpawnFacts(g, col, next);
      var acc' := acc + s.moves;
      assert PlacedBelow(s.grid, acc', -1) by {
        forall m | m in acc'
          ensures m.positions != [] && Last(m.positions).row > -1 && s.grid.At(Last(m.positions)) == Occupied(m.item)
        {
          if m in acc {
            assert g.At(Last(m.positions)).Occupied?;
          } else {
            assert m == s.moves[0];
          }
        }
      }
      if Route(g, Pos(0, col)) != [] {
        SpawnShrinksFree(g, col, next);
        GenerateFromBoard(s.grid, col, next + 1, acc');
        var res := GenerateFrom(s.grid, col, next + 1, acc');
        SameTerrainTrans(g, s.grid, res.grid);
        KeepsItemsTrans(g, s.grid, res.grid);
      }
    }
  }

  /** What `GetGenerateJobs(col)` does, for a column whose top slot is not
      NotAvailable: afterwards the top slot is Occupied; every item already on
      the board stays where it was and the terrain is unchanged; one fresh item
      is generated per move, with consecutive ids from `next`, listed last
      generated first; every move ends at the slot that now holds its item;
      the number of Occupied slots grows by the number of moves; the board
      invariant is kept; and nothing is generated exactly when the top slot was
      already Occupied. */
  lemma GenerateFacts(g: Grid, col: int, next: nat)
    requires g.OnGrid(Pos(0, col)) && g.At(Pos(0, col)) != NotAvailable
    ensures var res := Generate(g, col, next);
      && res.grid.At(Pos(0, col)).Occupied?
      && SameTerrain(g, res.grid)
      && KeepsItems(g, res.grid)
      && res.next == next + |res.moves|
      && (forall k :: 0 <= k < |res.moves| ==> res.moves[k].item == next + |res.moves| - 1 - k)
      && PlacedBelow(res.grid, res.moves, -1)
      && |OccupiedSet(res.grid)| == |OccupiedSet(g)| + |res.moves|
      && (Consistent(g, next) ==> Consistent(res.grid, res.next))
      && (res.moves == [] <==> g.At(Pos(0, col)).Occupied?)
  {
    GenerateBoard(g, col, next);
    GenerateMoves(g, col, next);
    GeneratePlaced(g, col, next);
  }

  /** The board part of `GenerateFacts`. */
  lemma GenerateBoard(g: Grid, col: int, next: nat)
    requires g.OnGrid(Pos(0, col)) && g.At(Pos(0, col)) != NotAvailable
    ensures var res := Generate(g, col, next);
      && res.grid.At(Pos(0, col)).Occupied?
      && SameTerrain(g, res.grid)
      && KeepsItems(g, res.grid)
      && |OccupiedSet(res.grid)| == |OccupiedSet(g)| + |res.moves|
      && (Consistent(g, next) ==> Consistent(res.grid, res.next))
  {
    GenerateFromBoard(g, col, next, []);
  }

  /** The moves part of `GenerateFacts`. */
  lemma GenerateMoves(g: Grid, col: int, next: nat)
    requires g.OnGrid(Pos(0, col)) && g.At(Pos(0, col)) != NotAvailable
    ensures var res := Generate(g, col, next);
      && res.next == next + |res.moves|
      && (forall k :: 0 <= k < |res.moves| ==> res.moves[k].item == next + |res.moves| - 1 - k)
      && (res.moves == [] <==> g.At(Pos(0, col)).Occupied?)
  {
    GenerateFromIds(g, col, next, []);
    var gen := GenerateFrom(g, col, next, []);
    var res := Generate(g, col, next);
    assert res.next == gen.next && res.moves == Reverse(gen.moves);
    forall k | 0 <= k < |res.moves| ensures res.moves[k].item == next + |res.moves| - 1 - k {
      assert res.moves[k] == gen.moves[|gen.moves| - 1 - k];
    }
  }

  /** Every generated move ends at the slot holding its item. */
  lemma GeneratePlaced(g: Grid, col: int, next: nat)
    requires g.OnGrid(Pos(0, col)) && g.At(Pos(0, col)) != NotAvailable
    ensures var res := Generate(g, col, next);
      PlacedBelow(res.grid, res.moves, -1)
  {
    GenerateFromBoard(g, col, next, []);
    var gen := GenerateFrom(g, col, next, []);
    var res := Generate(g, col, next);
    assert res.grid == gen.grid && res.moves == Reverse(gen.moves);
    ReverseMembers(gen.moves);
  }

  /** The board after a fill pass, the next fresh item id, and the jobs. */
  datatype Filled = Filled(grid: Grid, next: nat, jobs: seq<Job>)

  /** The loop of `GetFillJobs(delay, order)` from column `col` on: one Drop
      job per column whose top slot is not NotAvailable, even when it
      generates nothing. */
  function FillFrom(g: Grid, next: nat, col: nat, delay: int, order: int): (res: Filled)
    requires col <= g.cols && (g.rows > 0 || col == g.cols)
    ensures res.grid.rows == g.rows && res.grid.cols == g.cols
    decreases g.cols - col
  {
    if col == g.cols then Filled(g, next, [])
    else if g.At(Pos(0, col)) == NotAvailable then FillFrom(g, next, col + 1, delay, order)
    else
      var gen := Generate(g, col, next);
      var rest := FillFrom(gen.grid, gen.next, col + 1, delay, order);
      Filled(rest.grid, rest.next, [Drop(gen.moves, delay, order)] + rest.jobs)
  }

  /** `GetFillJobs(delay, order)`. */
  function Fill(g: Grid, next: nat, delay: int, order: int): Filled
    requires g.rows > 0 || g.cols == 0
  {
    FillFrom(g, next, 0, delay, order)
  }

  /** The columns from `col` on whose top slot is not NotAvailable. */
  function OpenTops(g: Grid, col: nat): (cs: seq<int>)
    requires col <= g.cols
    decreases g.cols - col
  {
    if col == g.cols then []
    else (if g.At(Pos(0, col)) == NotAvailable then [] else [col]) + OpenTops(g, col + 1)
  }

  lemma {:induction false} OpenTopsFacts(g: Grid, col: nat)
    requires col <= g.cols
    ensures forall c :: c in OpenTops(g, col) <==> col <= c < g.cols && g.At(Pos(0, c)) != NotAvailable
    decreases g.cols - col
  {
    if col < g.cols {
      OpenTopsFacts(g, col + 1);
    }
  }

  /** Which tops are open depends only on the terrain. */
  lemma {:induction false} OpenTopsTerrain(g: Grid, h: Grid, col: nat)
    requires SameTerrain(g, h) && col <= g.cols && g.rows > 0
    ensures OpenTops(g, col) == OpenTops(h, col)
    decreases g.cols - col
  {
    if col < g.cols {
      assert g.OnGrid(Pos(0, col));
      OpenTopsTerrain(g, h, col + 1);
    }
  }

  /** Generating in column `col` leaves the open tops after it as they were. */
  lemma GenerateOpenTops(g: Grid, col: nat, next: nat)
    requires col < g.cols && g.rows > 0 && g.At(Pos(0, col)) != NotAvailable
    ensures OpenTops(Generate(g, col, next).grid, col + 1) == OpenTops(g, col + 1)
  {
    GenerateBoard(g, col, next);
    OpenTopsTerrain(g, Generate(g, col, next).grid, col + 1);
  }

  /** Every job is a Drop job with the given delay and order. */
  ghost predicate DropJobs(jobs: seq<Job>, delay: int, order: int) {
    forall j :: j in jobs ==> j.Drop? && j.delay == delay && j.order == order
  }

  /** A Drop job in front of Drop jobs with the same delay and order. */
  lemma DropJobsCons(moves: seq<ItemMove>, jobs: seq<Job>, delay: int, order: int)
    requires DropJobs(jobs, delay, order)
    ensures DropJobs([Drop(moves, delay, order)] + jobs, delay, order)
  {
  }

  /** The job list of the fill loop: one Drop job with the given delay and
      order per column whose top is not NotAvailable. */
  lemma FillFromJobs(g: Grid, next: nat, col: nat, delay: int, order: int)
    requires col <= g.cols && g.rows > 0
    ensures var res := FillFrom(g, next, col, delay, order);
      && |res.jobs| == |OpenTops(g, col)|
      && DropJobs(res.jobs, delay, order)
  {
    FillFromJobCount(g, next, col, delay, order);
    FillFromDropJobs(g, next, col, delay, order);
  }

  /** The fill loop emits one job per column whose top is not NotAvailable. */
  lemma {:induction false} FillFromJobCount(g: Grid, next: nat, col: nat, delay: int, order: int)
    requires col <= g.cols && g.rows > 0
    ensures |FillFrom(g, next, col, delay, order).jobs| == |OpenTops(g, col)|
    decreases g.cols - col, 1
  {
    if col < g.cols {
      if g.At(Pos(0, col)) == NotAvailable {
        FillFromJobCount(g, next, col + 1, delay, order);
      } else {
        FillFromJobCountOpen(g, next, col, delay, order);
      }
    }
  }

  /** `FillFromJobCount` for a column whose top slot is not NotAvailable. */
  lemma {:induction false} FillFromJobCountOpen(g: Grid, next: nat, col: nat, delay: int, order: int)
    requires col < g.cols && g.rows > 0 && g.At(Pos(0, col)) != NotAvailable
    ensures |FillFrom(g, next, col, delay, order).jobs| == |OpenTops(g, col)|
    decreases g.cols - col, 0
  {
    var gen := Generate(g, col, next);
    var rest := FillFrom(gen.grid, gen.next, col + 1, delay, order);
    assert FillFrom(g, next, col, delay, order) == Filled(rest.grid, rest.next, [Drop(gen.moves, delay, order)] + rest.jobs);
    assert OpenTops(g, col) == [col] + OpenTops(g, col + 1);
    GenerateOpenTops(g, col, next);
    FillFromJobCount(gen.grid, gen.next, col + 1, delay, order);
  }

  /** Every job of the fill loop is a Drop job with the given delay and order. */
  lemma {:induction false} FillFromDropJobs(g: Grid, next: nat, col: nat, delay: int, order: int)
    requires col <= g.cols && g.rows > 0
    ensures DropJobs(FillFrom(g, next, col, delay, order).jobs, delay, order)
    decreases g.cols - col, 1
  {
    if col < g.cols {
      if g.At(Pos(0, col)) == NotAvailable {
        FillFromDropJobs(g, next, col + 1, delay, order);
      } else {
        FillFromDropJobsOpen(g, next, col, delay, order);
      }
    }
  }

  /** `FillFromDropJobs` for a column whose top slot is not NotAvailable. */
  lemma {:induction false} FillFromDropJobsOpen(g: Grid, next: nat, col: nat, delay: int, order: int)
    requires col < g.cols && g.rows > 0 && g.At(Pos(0, col)) != NotAvailable
    ensures DropJobs(FillFrom(g, next, col, delay, order).jobs, delay, order)
    decreases g.cols - col, 0
  {
    var gen := Generate(g, col, next);
    var rest := FillFrom(gen.grid, gen.next, col + 1, delay, order);
    assert FillFrom(g, next, col, delay, order) == Filled(rest.grid, rest.next, [Drop(gen.moves, delay, order)] + rest.jobs);
    FillFromDropJobs(gen.grid, gen.next, col + 1, delay, order);
    DropJobsCons(gen.moves, rest.jobs, delay, order);
  }

  /** The id counter of the fill loop grows by the number of moves of its jobs. */
  lemma {:induction false} FillFromNext(g: Grid, next: nat, col: nat, delay: int, order: int)
    requires col <= g.cols && g.rows > 0
    ensures var res := FillFrom(g, next, col, delay, order);
      res.next == next + |JobMoves(res.jobs)|
    decreases g.cols - col, 1
  {
    if col < g.cols {
      if g.At(Pos(0, col)) == NotAvailable {
        FillFromNext(g, next, col + 1, delay, order);
      } else {
        FillFromNextOpen(g, next, col, delay, order);
      }
    }
  }

  /** `FillFromNext` for a column whose top slot is not NotAvailable. */
  lemma {:induction false} FillFromNextOpen(g: Grid, next: nat, col: nat, delay: int, order: int)
    requires col < g.cols && g.rows > 0 && g.At(Pos(0, col)) != NotAvailable
    ensures var res := FillFrom(g, next, col, delay, order);
      res.next == next + |JobMoves(res.jobs)|
    decreases g.cols - col, 0
  {
    var gen := Generate(g, col, next);
    var rest := FillFrom(gen.grid, gen.next, col + 1, delay, order);
    assert FillFrom(g, next, col, delay, order) == Filled(rest.grid, rest.next, [Drop(gen.moves, delay, order)] + rest.jobs);
    GenerateMoves(g, col, next);
    FillFromNext(gen.grid, gen.next, col + 1, delay, order);
    JobMovesFront(Drop(gen.moves, delay, order), rest.jobs);
  }

  /** The fill loop keeps the items already on the board where they are and
      leaves the terrain unchanged. */
  lemma {:induction false} FillFromKeeps(g: Grid, next: nat, col: nat, delay: int, order: int)
    requires col <= g.cols && g.rows > 0
    ensures var res := FillFrom(g, next, col, delay, order);
      SameTerrain(g, res.grid) && KeepsItems(g, res.grid)
    decreases g.cols - col, 1
  {
    if col < g.cols {
      if g.At(Pos(0, col)) == NotAvailable {
        FillFromKeeps(g, next, col + 1, delay, order);
      } else {
        FillFromKeepsOpen(g, next, col, delay, order);
      }
    }
  }

  /** `FillFromKeeps` for a column whose top slot is not NotAvailable. */
  lemma {:induction false} FillFromKeepsOpen(g: Grid, next: nat, col: nat, delay: int, order: int)
    requires col < g.cols && g.rows > 0 && g.At(Pos(0, col)) != NotAvailable
    ensures var res := FillFrom(g, next, col, delay, order);
      SameTerrain(g, res.grid) && KeepsItems(g, res.grid)
    decreases g.cols - col, 0
  {
    var gen := Generate(g, col, next);
    var rest := FillFrom(gen.grid, gen.next, col + 1, delay, order);
    assert FillFrom(g, next, col, delay, order) == Filled(rest.grid, rest.next, [Drop(gen.moves, delay, order)] + rest.jobs);
    GenerateBoard(g, col, next);
    FillFromKeeps(gen.grid, gen.next, col + 1, delay, order);
    SameTerrainTrans(g, gen.grid, rest.grid);
    KeepsItemsTrans(g, gen.grid, rest.grid);
  }

  /** After the fill loop every top slot from `col` on that is not
      NotAvailable is Occupied. */
  lemma {:induction false} FillFromTops(g: Grid, next: nat, col: nat, delay: int, order: int)
    requires col <= g.cols && g.rows > 0
    ensures var res := FillFrom(g, next, col, delay, order);
      forall c :: col <= c < g.cols && g.At(Pos(0, c)) != NotAvailable ==> res.grid.At(Pos(0, c)).Occupied?
    decreases g.cols - col, 1
  {
    if col < g.cols {
      if g.At(Pos(0, col)) == NotAvailable {
        FillFromTops(g, next, col + 1, delay, order);
      } else {
        FillFromTopsOpen(g, next, col, delay, order);
      }
    }
  }

  /** `FillFromTops` for a column whose top slot is not NotAvailable. */
  lemma {:induction false} FillFromTopsOpen(g: Grid, next: nat, col: nat, delay: int, order: int)
    requires col < g.cols && g.rows > 0 && g.At(Pos(0, col)) != NotAvailable
    ensures var res := FillFrom(g, next, col, delay, order);
      forall c :: col <= c < g.cols && g.At(Pos(0, c)) != NotAvailable ==> res.grid.At(Pos(0, c)).Occupied?
    decreases g.cols - col, 0
  {
    var top := Pos(0, col);
    var gen := Generate(g, col, next);
    var rest := FillFrom(gen.grid, gen.next, col + 1, delay, order);
    assert FillFrom(g, next, col, delay, order) == Filled(rest.grid, rest.next, [Drop(gen.moves, delay, order)] + rest.jobs);
    GenerateBoard(g, col, next);
    FillFromTops(gen.grid, gen.next, col + 1, delay, order);
    FillFromKeeps(gen.grid, gen.next, col + 1, delay, order);
    forall c | col <= c < g.cols && g.At(Pos(0, c)) != NotAvailable
      ensures rest.grid.At(Pos(0, c)).Occupied?
    {
      assert g.OnGrid(Pos(0, c));
    }
  }

  /** After the fill loop one more slot is Occupied per move. */
  lemma {:induction false} FillFromCount(g: Grid, next: nat, col: nat, delay: int, order: int)
    requires col <= g.cols && g.rows > 0
    ensures var res := FillFrom(g, next, col, delay, order);
      |OccupiedSet(res.grid)| == |OccupiedSet(g)| + |JobMoves(res.jobs)|
    decreases g.cols - col, 1
  {
    if col < g.cols {
      if g.At(Pos(0, col)) == NotAvailable {
        FillFromCount(g, next, col + 1, delay, order);
      } else {
        FillFromCountOpen(g, next, col, delay, order);
      }
    }
  }

  /** `FillFromCount` for a column whose top slot is not NotAvailable. */
  lemma {:induction false} FillFromCountOpen(g: Grid, next: nat, col: nat, delay: int, order: int)
    requires col < g.cols && g.rows > 0 && g.At(Pos(0, col)) != NotAvailable
    ensures var res := FillFrom(g, next, col, delay, order);
      |OccupiedSet(res.grid)| == |OccupiedSet(g)| + |JobMoves(res.jobs)|
    decreases g.cols - col, 0
  {
    var gen := Generate(g, col, next);
    var rest := FillFrom(gen.grid, gen.next, col + 1, delay, order);
    assert FillFrom(g, next, col, delay, order) == Filled(rest.grid, rest.next, [Drop(gen.moves, delay, order)] + rest.jobs);
    GenerateBoard(g, col, next);
    FillFromCount(gen.grid, gen.next, col + 1, delay, order);
    JobMovesFront(Drop(gen.moves, delay, order), rest.jobs);
  }

  /** The fill loop keeps the board invariant. */
  lemma {:induction false} FillFromConsistent(g: Grid, next: nat, col: nat, delay: int, order: int)
    requires col <= g.cols && g.rows > 0
    ensures var res := FillFrom(g, next, col, delay, order);
      Consistent(g, next) ==> Consistent(res.grid, res.next)
    decreases g.cols - col, 1
  {
    if col < g.cols {
      if g.At(Pos(0, col)) == NotAvailable {
        FillFromConsistent(g, next, col + 1, delay, order);
      } else {
        FillFromConsistentOpen(g, next, col, delay, order);
      }
    }
  }

  /** `FillFromConsistent` for a column whose top slot is not NotAvailable. */
  lemma {:induction false} FillFromConsistentOpen(g: Grid, next: nat, col: nat, delay: int, order: int)
    requires col < g.cols && g.rows > 0 && g.At(Pos(0, col)) != NotAvailable
    ensures var res := FillFrom(g, next, col, delay, order);
      Consistent(g, next) ==> Consistent(res.grid, res.next)
    decreases g.cols - col, 0
  {
    var gen := Generate(g, col, next);
    var rest := FillFrom(gen.grid, gen.next, col + 1, delay, order);
    assert FillFrom(g, next, col, delay, order) == Filled(rest.grid, rest.next, [Drop(gen.moves, delay, order)] + rest.jobs);
    GenerateBoard(g, col, next);
    FillFromConsistent(gen.grid, gen.next, col + 1, delay, order);
  }

  /** What `GetFillJobs(delay, order)` does: one Drop job with the given delay
      and order per column whose top is not NotAvailable (so the job count is
      the number of such columns); afterwards every such top slot is Occupied;
      items already on the board stay where they are; the terrain and the
      board invariant are kept; and the item counter advances by the number of
      generated items, one per slot newly Occupied. */
  lemma FillFacts(g: Grid, next: nat, delay: int, order: int)
    requires g.rows > 0
    ensures var res := Fill(g, next, delay, order);
      && |res.jobs| == |OpenTops(g, 0)|
      && DropJobs(res.jobs, delay, order)
      && (forall c :: 0 <= c < g.cols && g.At(Pos(0, c)) != NotAvailable ==> res.grid.At(Pos(0, c)).Occupied?)
      && SameTerrain(g, res.grid)
      && KeepsItems(g, res.grid)
      && res.next == next + |JobMoves(res.jobs)|
      && |OccupiedSet(res.grid)| == |OccupiedSet(g)| + |JobMoves(res.jobs)|
      && (Consistent(g, next) ==> Consistent(res.grid, res.next))
  {
    FillFromJobs(g, next, 0, delay, order);
    FillFromNext(g, next, 0, delay, order);
    FillFromKeeps(g, next, 0, delay, order);
    FillFromTops(g, next, 0, delay, order);
    FillFromCount(g, next, 0, delay, order);
    FillFromConsistent(g, next, 0, delay, order);
  }

  /** Filling a board whose open tops are all Occupied changes nothing and
      generates nothing, yet still yields one empty Drop job per such column. */
  lemma {:induction false} FillOnFullTops(g: Grid, next: nat, col: nat, delay: int, order: int)
    requires col <= g.cols && g.rows > 0
    requires forall c :: col <= c < g.cols && g.At(Pos(0, c)) != NotAvailable ==> g.At(Pos(0, c)).Occupied?
    ensures var res := FillFrom(g, next, col, delay, order);
      && res.grid == g && res.next == next
      && |res.jobs| == |OpenTops(g, col)|
      && forall j :: j in res.jobs ==> j == Drop([], delay, order)
    decreases g.cols - col
  {
    if col < g.cols {
      FillOnFullTops(g, next, col + 1, delay, order);
    }
  }
}
