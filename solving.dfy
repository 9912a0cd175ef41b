/** Resolving matched sequences (`GetSolveJobs`): the solved slots are cleared
    and their items hidden, the items above them fall, the board rolls down,
    and the emptied tops are refilled, as functions of the board before the pass. */
module Solving {
  import opened GridModel
  import opened DropPaths
  import opened ItemMoves
  import opened Generation

  /** The solved slots of all sequences, sequence by sequence, in order. */
  function Flatten(seqs: seq<seq<Pos>>): seq<Pos> {
    if seqs == [] then [] else Flatten(seqs[..|seqs| - 1]) + Last(seqs)
  }

  lemma {:induction false} FlattenMembers(seqs: seq<seq<Pos>>)
    ensures forall p :: p in Flatten(seqs) <==> exists i :: 0 <= i < |seqs| && p in seqs[i]
    decreases |seqs|
  {
    if seqs != [] {
      var init := seqs[..|seqs| - 1];
      FlattenMembers(init);
      forall p ensures p in Flatten(seqs) <==> exists i :: 0 <= i < |seqs| && p in seqs[i] {
        if p in Flatten(init) {
          var i :| 0 <= i < |init| && p in init[i];
          assert seqs[i] == init[i];
        }
        if exists i :: 0 <= i < |seqs| && p in seqs[i] {
          var i :| 0 <= i < |seqs| && p in seqs[i];
          if i < |init| {
            assert init[i] == seqs[i];
          }
        }
      }
    }
  }

  /** Every position of `ps` is on the board. */
  predicate OnBoard(g: Grid, ps: seq<Pos>) {
    forall i :: 0 <= i < |ps| ==> g.OnGrid(ps[i])
  }

  /** Every slot of every sequence lies on a board that holds all of them. */
  lemma OnBoardParts(g: Grid, seqs: seq<seq<Pos>>)
    requires OnBoard(g, Flatten(seqs))
    ensures forall i, j :: 0 <= i < |seqs| && 0 <= j < |seqs[i]| ==> g.OnGrid(seqs[i][j])
  {
    FlattenMembers(seqs);
    forall i, j | 0 <= i < |seqs| && 0 <= j < |seqs[i]| ensures g.OnGrid(seqs[i][j]) {
      var p, f := seqs[i][j], Flatten(seqs);
      assert p in seqs[i];
      assert p in f;
      var k :| 0 <= k < |f| && f[k] == p;
    }
  }

  /** Every position of `ps` is on the board and Occupied: what a matched
      sequence is made of. */
  ghost predicate OccupiedSlots(g: Grid, ps: seq<Pos>) {
    forall i :: 0 <= i < |ps| ==> g.OnGrid(ps[i]) && g.At(ps[i]).Occupied?
  }

  /** The board after clearing the solved slots, the distinct solved slots in
      first-seen order (the `HashSet`), and the items to hide. */
  datatype Cleared = Cleared(grid: Grid, solved: seq<Pos>, hidden: seq<Item>)

  /** The first loop of `GetSolveJobs` over the solved slots `ps`: a slot seen
      for the first time is recorded, its item is listed for hiding and the
      slot is cleared; a slot seen before is skipped. */
  function ClearAll(g: Grid, ps: seq<Pos>): (c: Cleared)
    ensures c.grid.rows == g.rows && c.grid.cols == g.cols
    decreases |ps|
  {
    if ps == [] then Cleared(g, [], [])
    else
      var c := ClearAll(g, ps[..|ps| - 1]);
      var p := Last(ps);
      if p in c.solved then c
      else
        var slot := c.grid.At(p);
        Cleared(c.grid.Set(p, Free), c.solved + [p], c.hidden + (if slot.Occupied? then [slot.item] else []))
  }

  /** One more slot for `ClearAll`. */
  lemma ClearAllSnoc(g: Grid, ps: seq<Pos>, p: Pos)
    ensures var c := ClearAll(g, ps); var slot := c.grid.At(p);
      ClearAll(g, ps + [p])
        == if p in c.solved then c
           else Cleared(c.grid.Set(p, Free), c.solved + [p], c.hidden + (if slot.Occupied? then [slot.item] else []))
  {
    assert (ps + [p])[..|ps|] == ps;
  }

  /** The clearing loop visits every solved slot once: the recorded slots are
      the distinct slots of `ps`; each recorded slot is cleared and
      the item it held is listed for hiding, in the same order; every other
      slot keeps its state. */
  lemma ClearAllFacts(g: Grid, ps: seq<Pos>)
    requires OccupiedSlots(g, ps)
    ensures var c := ClearAll(g, ps);
      && NoDup(c.solved)
      && (forall p :: p in c.solved <==> p in ps)
      && |c.hidden| == |c.solved|
      && (forall k :: 0 <= k < |c.solved| ==> g.At(c.solved[k]).Occupied? && c.hidden[k] == g.At(c.solved[k]).item)
      && (forall p :: p in c.solved ==> c.grid.At(p) == Free)
      && (forall p :: p !in c.solved ==> c.grid.At(p) == g.At(p))
  {
    ClearAllSolved(g, ps);
    ClearAllHidden(g, ps);
    ClearAllGrid(g, ps);
  }

  /** The recorded slots of `ClearAll` are the distinct slots of `ps`. */
  lemma {:induction false} ClearAllSolved(g: Grid, ps: seq<Pos>)
    ensures var c := ClearAll(g, ps);
      && NoDup(c.solved)
      && (forall p :: p in c.solved <==> p in ps)
    decreases |ps|
  {
    if ps != [] {
      var init := ps[..|ps| - 1];
      ClearAllSolved(g, init);
      var p := Last(ps);
      assert ps == init + [p];
      ClearAllSnoc(g, init, p);
    }
  }

  /** `ClearAll` clears the recorded slots and no other. */
  lemma {:induction false} ClearAllGrid(g: Grid, ps: seq<Pos>)
    ensures var c := ClearAll(g, ps);
      && (forall p :: p in c.solved ==> c.grid.At(p) == Free)
      && (forall p :: p !in c.solved ==> c.grid.At(p) == g.At(p))
    decreases |ps|
  {
    if ps != [] {
      var init := ps[..|ps| - 1];
      ClearAllGrid(g, init);
      var p := Last(ps);
      assert ps == init + [p];
      ClearAllSnoc(g, init, p);
    }
  }

  /** The hidden items of `ClearAll` are those of the recorded slots, in order. */
  lemma {:induction false} ClearAllHidden(g: Grid, ps: seq<Pos>)
    requires OccupiedSlots(g, ps)
    ensures var c := ClearAll(g, ps);
      && |c.hidden| == |c.solved|
      && (forall k :: 0 <= k < |c.solved| ==>
            g.OnGrid(c.solved[k]) && g.At(c.solved[k]).Occupied? && c.hidden[k] == g.At(c.solved[k]).item)
    decreases |ps|
  {
    if ps != [] {
      var init := ps[..|ps| - 1];
      OccupiedSlotsInit(g, ps);
      ClearAllHidden(g, init);
      var c := ClearAll(g, init);
      var p := Last(ps);
      assert ps == init + [p];
      ClearAllSnoc(g, init, p);
      if p !in c.solved {
        assert c.grid.At(p) == g.At(p) by {
          ClearAllGrid(g, init);
        }
        assert g.At(p).Occupied? by {
          assert p == ps[|ps| - 1];
        }
        var c' := ClearAll(g, ps);
        assert c'.solved == c.solved + [p];
        assert c'.hidden == c.hidden + [g.At(p).item];
        forall k | 0 <= k < |c'.solved|
          ensures g.OnGrid(c'.solved[k]) && g.At(c'.solved[k]).Occupied? && c'.hidden[k] == g.At(c'.solved[k]).item
        {
          if k < |c.solved| {
            assert c'.hidden[k] == c.hidden[k];
          }
        }
      }
    }
  }

  /** The prefix of `ps` without its last slot still lists Occupied slots only. */
  lemma OccupiedSlotsInit(g: Grid, ps: seq<Pos>)
    requires OccupiedSlots(g, ps) && ps != []
    ensures OccupiedSlots(g, ps[..|ps| - 1])
  {
    var init := ps[..|ps| - 1];
    forall i | 0 <= i < |init| ensures g.OnGrid(init[i]) && g.At(init[i]).Occupied? {
      assert init[i] == ps[i];
    }
  }

  /** Clearing keeps the terrain; every recorded slot held an item, so the
      board has that many fewer Occupied slots; the board invariant is kept. */
  lemma {:induction false} ClearAllBoard(g: Grid, ps: seq<Pos>, n: nat)
    requires OccupiedSlots(g, ps)
    ensures var c := ClearAll(g, ps);
      && SameTerrain(g, c.grid)
      && |OccupiedSet(c.grid)| == |OccupiedSet(g)| - |c.solved|
      && (Consistent(g, n) ==> Consistent(c.grid, n))
    decreases |ps|
  {
    if ps != [] {
      var init := ps[..|ps| - 1];
      OccupiedSlotsInit(g, ps);
      ClearAllBoard(g, init, n);
      var c := ClearAll(g, init);
      var p := Last(ps);
      if p !in c.solved {
        assert g.OnGrid(p) && c.grid.At(p) == g.At(p) && g.At(p).Occupied? by {
          ClearAllFacts(g, init);
          assert p == ps[|ps| - 1];
        }
        ClearItemPreserves(c.grid, p);
        SameTerrainTrans(g, c.grid, c.grid.Set(p, Free));
      }
    }
  }

  /** When no item is owned by two slots, the hidden items are distinct and
      are exactly the items that left the board. */
  lemma ClearAllItems(g: Grid, ps: seq<Pos>)
    requires OccupiedSlots(g, ps) && UniqueItems(g)
    ensures var c := ClearAll(g, ps);
      && UniqueItems(c.grid)
      && NoDup(c.hidden)
      && ItemSet(c.grid) == ItemSet(g) - (set x | x in c.hidden)
  {
    ClearAllUnique(g, ps);
    ClearAllHiddenDistinct(g, ps);
    ClearAllItemSet(g, ps);
  }

  /** Clearing slots keeps every item owned by one slot at most. */
  lemma ClearAllUnique(g: Grid, ps: seq<Pos>)
    requires UniqueItems(g)
    ensures UniqueItems(ClearAll(g, ps).grid)
  {
    ClearAllGrid(g, ps);
  }

  /** The hidden items of `ClearAll` are distinct. */
  lemma {:induction false} ClearAllHiddenDistinct(g: Grid, ps: seq<Pos>)
    requires OccupiedSlots(g, ps) && UniqueItems(g)
    ensures NoDup(ClearAll(g, ps).hidden)
    decreases |ps|
  {
    if ps != [] {
      var init := ps[..|ps| - 1];
      OccupiedSlotsInit(g, ps);
      ClearAllHiddenDistinct(g, init);
      var c := ClearAll(g, init);
      var p := Last(ps);
      assert ps == init + [p];
      ClearAllSnoc(g, init, p);
      if p !in c.solved {
        ClearAllGrid(g, init);
        ClearAllHidden(g, init);
        assert p == ps[|ps| - 1];
        assert g.OnGrid(p) && c.grid.At(p) == g.At(p) && g.At(p).Occupied?;
        var x := g.At(p).item;
        assert ClearAll(g, ps).hidden == c.hidden + [x];
        forall k | 0 <= k < |c.hidden| ensures c.hidden[k] != x {
          var q := c.solved[k];
          assert g.OnGrid(q) && g.At(q).Occupied? && c.hidden[k] == g.At(q).item;
          assert q != p;
        }
      }
    }
  }

  /** The items left on the board after `ClearAll` are those before it less the hidden ones. */
  lemma {:induction false} ClearAllItemSet(g: Grid, ps: seq<Pos>)
    requires OccupiedSlots(g, ps) && UniqueItems(g)
    ensures var c := ClearAll(g, ps);
      ItemSet(c.grid) == ItemSet(g) - (set x | x in c.hidden)
    decreases |ps|
  {
    if ps != [] {
      var init := ps[..|ps| - 1];
      OccupiedSlotsInit(g, ps);
      ClearAllItemSet(g, init);
      var c := ClearAll(g, init);
      var p := Last(ps);
      assert ps == init + [p];
      ClearAllSnoc(g, init, p);
      if p !in c.solved {
        ClearAllUnique(g, init);
        ClearAllGrid(g, init);
        assert p == ps[|ps| - 1];
        assert g.OnGrid(p) && c.grid.At(p) == g.At(p) && g.At(p).Occupied?;
        var x := g.At(p).item;
        ClearItemPreserves(c.grid, p);
        var c' := ClearAll(g, ps);
        assert c'.grid == c.grid.Set(p, Free) && c'.hidden == c.hidden + [x];
        assert (set y | y in c'.hidden) == (set y | y in c.hidden) + {x};
      }
    }
  }

  /** The slots of `ps` whose column can (`key`) or cannot be filled from the
      top at their row, in their order in `ps`. */
  function WithKey(g: Grid, ps: seq<Pos>, key: bool): seq<Pos>
    decreases |ps|
  {
    if ps == [] then []
    else WithKey(g, ps[..|ps| - 1], key) + (if OpenAbove(g, Last(ps).row, Last(ps).col) == key then [Last(ps)] else [])
  }

  /** `OrderBy(slot => CanDropFromTop(slot))`, a stable sort on a boolean key:
      the slots that cannot be filled from the top first, then the others,
      each group in its original order. */
  function DropFromTopOrder(g: Grid, ps: seq<Pos>): seq<Pos> {
    WithKey(g, ps, false) + WithKey(g, ps, true)
  }

  lemma {:induction false} WithKeyFacts(g: Grid, ps: seq<Pos>, key: bool)
    ensures forall p :: p in WithKey(g, ps, key) <==> p in ps && OpenAbove(g, p.row, p.col) == key
    decreases |ps|
  {
    if ps != [] {
      var init := ps[..|ps| - 1];
      WithKeyFacts(g, init, key);
      assert ps == init + [Last(ps)];
    }
  }

  /** The two groups together hold the slots of `ps`, each as often as `ps` does. */
  lemma {:induction false} WithKeySplit(g: Grid, ps: seq<Pos>)
    ensures multiset(WithKey(g, ps, false)) + multiset(WithKey(g, ps, true)) == multiset(ps)
    ensures |WithKey(g, ps, false)| + |WithKey(g, ps, true)| == |ps|
    decreases |ps|
  {
    if ps != [] {
      var init := ps[..|ps| - 1];
      WithKeySplit(g, init);
      assert ps == init + [Last(ps)];
    }
  }

  /** The order in which the solved slots let items fall is a permutation of
      them in which no slot that can be filled from the top comes before one
      that cannot. */
  lemma DropFromTopOrderFacts(g: Grid, ps: seq<Pos>)
    ensures var order := DropFromTopOrder(g, ps);
      && multiset(order) == multiset(ps)
      && |order| == |ps|
      && (forall p :: p in order <==> p in ps)
      && (forall i, j :: 0 <= i < j < |order| && OpenAbove(g, order[i].row, order[i].col) ==>
            OpenAbove(g, order[j].row, order[j].col))
  {
    DropFromTopOrderPerm(g, ps);
    DropFromTopOrderSorted(g, ps);
  }

  /** The permutation part of `DropFromTopOrderFacts`. */
  lemma DropFromTopOrderPerm(g: Grid, ps: seq<Pos>)
    ensures var order := DropFromTopOrder(g, ps);
      && multiset(order) == multiset(ps)
      && |order| == |ps|
      && (forall p :: p in order <==> p in ps)
  {
    var order := DropFromTopOrder(g, ps);
    var blocked := WithKey(g, ps, false);
    var open := WithKey(g, ps, true);
    WithKeySplit(g, ps);
    assert multiset(order) == multiset(ps);
    assert |order| == |blocked| + |open|;
    forall p ensures p in order <==> p in ps {
      assert p in order <==> p in multiset(order);
      assert p in ps <==> p in multiset(ps);
    }
  }

  /** The ordering part of `DropFromTopOrderFacts`. */
  lemma DropFromTopOrderSorted(g: Grid, ps: seq<Pos>)
    ensures var order := DropFromTopOrder(g, ps);
      forall i, j :: 0 <= i < j < |order| && OpenAbove(g, order[i].row, order[i].col) ==>
        OpenAbove(g, order[j].row, order[j].col)
  {
    var order := DropFromTopOrder(g, ps);
    var blocked := WithKey(g, ps, false);
    var open := WithKey(g, ps, true);
    WithKeyFacts(g, ps, false);
    WithKeyFacts(g, ps, true);
    forall i | 0 <= i < |blocked| ensures !OpenAbove(g, order[i].row, order[i].col) {
      assert order[i] == blocked[i];
      assert blocked[i] in blocked;
    }
    forall j | |blocked| <= j < |order| ensures OpenAbove(g, order[j].row, order[j].col) {
      assert order[j] == open[j - |blocked|];
      assert open[j - |blocked|] in open;
    }
  }

  /** The columns of the slots of `ps`, in order. */
  function Cols(ps: seq<Pos>): (cs: seq<int>)
    ensures |cs| == |ps| && forall i :: 0 <= i < |ps| ==> cs[i] == ps[i].col
  {
    seq(|ps|, i requires 0 <= i < |ps| => ps[i].col)
  }

  /** The second loop of `GetSolveJobs`: for every slot of `ps`, in order,
      the items of its column fall (`GetItemsMoveData`), and a Move job is
      emitted unless nothing moved. */
  function SlotMoves(g: Grid, ps: seq<Pos>): (res: Rolled)
    requires ColumnsIn(Cols(ps), g.cols)
    ensures res.grid.rows == g.rows && res.grid.cols == g.cols
    decreases |ps|
  {
    if ps == [] then Rolled(g, [])
    else
      var init := ps[..|ps| - 1];
      assert ColumnsIn(Cols(init), g.cols) by {
        forall i | 0 <= i < |init| ensures 0 <= Cols(init)[i] < g.cols {
          assert Cols(init)[i] == Cols(ps)[i];
        }
      }
      var prev := SlotMoves(g, init);
      var m := MoveColumn(prev.grid, Last(ps).col);
      Rolled(m.grid, prev.jobs + (if m.moves == [] then [] else [Move(m.moves, 0, 0)]))
  }

  /** The falling phase moves exactly the columns of the slots, in order: its
      board and the moves of its jobs are those of `MoveColumns` over them,
      and every job is a non-empty Move job with delay and order 0. */
  lemma {:induction false} SlotMovesIsMoveColumns(g: Grid, ps: seq<Pos>)
    requires ColumnsIn(Cols(ps), g.cols)
    ensures var res := SlotMoves(g, ps);
      var m := MoveColumns(g, Cols(ps));
      && res.grid == m.grid
      && JobMoves(res.jobs) == m.moves
      && MoveJobs(res.jobs, 0, 0)
    decreases |ps|
  {
    if ps != [] {
      var init := ps[..|ps| - 1];
      var c := Last(ps).col;
      assert Cols(ps) == Cols(init) + [c];
      SlotMovesIsMoveColumns(g, init);
      var prev := SlotMoves(g, init);
      var m := MoveColumn(prev.grid, c);
      MoveColumnsSnoc(g, Cols(init), c);
      JobMovesSnoc(prev.jobs, m.moves, 0, 0);
    }
  }

  /** The board and jobs after `GetSolveJobs`: the distinct solved slots and
      the items hidden, and the jobs of each phase. */
  datatype Solved = Solved(grid: Grid, next: nat, solved: seq<Pos>, hidden: seq<Item>,
                           moveJobs: seq<Job>, rollJobs: seq<Job>, fillJobs: seq<Job>)
  {
    /** The job list `GetSolveJobs` returns. */
    function Jobs(): seq<Job> {
      moveJobs + [Hide(hidden)] + rollJobs + fillJobs
    }
  }

  /** The columns of the solved slots, in the order they fall, are columns of the board. */
  lemma SolveOrderIn(g: Grid, ps: seq<Pos>)
    requires OnBoard(g, ps)
    ensures var c := ClearAll(g, ps);
      ColumnsIn(Cols(DropFromTopOrder(c.grid, c.solved)), c.grid.cols)
  {
    var c := ClearAll(g, ps);
    var order := DropFromTopOrder(c.grid, c.solved);
    SolvedOnBoard(g, ps);
    DropFromTopOrderFacts(c.grid, c.solved);
    forall i | 0 <= i < |order| ensures 0 <= Cols(order)[i] < c.grid.cols {
      assert order[i] in c.solved;
    }
  }

  /** The first two loops of `GetSolveJobs`: the solved slots are cleared,
      then the items above each fall, slot by slot in falling order. */
  function Falls(g: Grid, ps: seq<Pos>): (res: Rolled)
    requires OnBoard(g, ps)
    ensures res.grid.rows == g.rows && res.grid.cols == g.cols
  {
    var c := ClearAll(g, ps);
    SolveOrderIn(g, ps);
    SlotMoves(c.grid, DropFromTopOrder(c.grid, c.solved))
  }

  /** `GetSolveJobs(sequences)` on a board whose next fresh item id is `next`. */
  function Solve(g: Grid, next: nat, seqs: seq<seq<Pos>>): (res: Solved)
    requires (g.rows > 0 || g.cols == 0) && OnBoard(g, Flatten(seqs))
    ensures res.grid.rows == g.rows && res.grid.cols == g.cols
  {
    var c := ClearAll(g, Flatten(seqs));
    var falls := Falls(g, Flatten(seqs));
    var rolled := RollDown(falls.grid, 1, 0);
    var filled := Fill(rolled.grid, next, 0, 1);
    Solved(filled.grid, filled.next, c.solved, c.hidden, falls.jobs, rolled.jobs, filled.jobs)
  }

  /** After the falling phase: every job is a non-empty Move job with delay
      and order 0; the terrain is unchanged; the board lost one item per
      solved slot; the board invariant is kept. */
  lemma FallsFacts(g: Grid, ps: seq<Pos>, n: nat)
    requires OnBoard(g, ps) && OccupiedSlots(g, ps)
    ensures var falls := Falls(g, ps);
      && MoveJobs(falls.jobs, 0, 0)
      && SameTerrain(g, falls.grid)
      && |OccupiedSet(falls.grid)| == |OccupiedSet(g)| - |ClearAll(g, ps).solved|
      && (Consistent(g, n) ==> Consistent(falls.grid, n))
  {
    var c := ClearAll(g, ps);
    var order := DropFromTopOrder(c.grid, c.solved);
    SolveOrderIn(g, ps);
    ClearAllBoard(g, ps, n);
    SlotMovesIsMoveColumns(c.grid, order);
    MoveColumnsFacts(c.grid, Cols(order), n);
    SameTerrainTrans(g, c.grid, Falls(g, ps).grid);
  }

  /** After the roll-down phase: every job is a non-empty Move job with delay
      1 and order 0; the terrain, the item count after clearing and the board
      invariant are as after the falling phase. */
  lemma RolledFacts(g: Grid, ps: seq<Pos>, n: nat)
    requires OnBoard(g, ps) && OccupiedSlots(g, ps)
    ensures var rolled := RollDown(Falls(g, ps).grid, 1, 0);
      && MoveJobs(rolled.jobs, 1, 0)
      && SameTerrain(g, rolled.grid)
      && |OccupiedSet(rolled.grid)| == |OccupiedSet(g)| - |ClearAll(g, ps).solved|
      && (Consistent(g, n) ==> Consistent(rolled.grid, n))
  {
    var falls := Falls(g, ps);
    FallsFacts(g, ps, n);
    RollDownJobShape(falls.grid, 0, falls.grid.cols - 1, 1, 0);
    RollDownIsMoveColumns(falls.grid, 0, falls.grid.cols - 1, 1, 0);
    MoveColumnsFacts(falls.grid, RollDownColumns(0, falls.grid.cols - 1), n);
    SameTerrainTrans(g, falls.grid, RollDown(falls.grid, 1, 0).grid);
  }

  /** The recorded slots are slots of `ps`, so on the board when those are. */
  lemma {:induction false} SolvedOnBoard(g: Grid, ps: seq<Pos>)
    requires OnBoard(g, ps)
    ensures forall p :: p in ClearAll(g, ps).solved ==> p in ps && g.OnGrid(p)
    decreases |ps|
  {
    if ps != [] {
      var init := ps[..|ps| - 1];
      assert OnBoard(g, init) by {
        forall i | 0 <= i < |init| ensures g.OnGrid(init[i]) {
          assert init[i] == ps[i];
        }
      }
      SolvedOnBoard(g, init);
      assert ps == init + [Last(ps)];
    }
  }

  /** The solved slots and hidden items of `GetSolveJobs`: every solved slot
      of every sequence is recorded once, and the item it held is hidden, in
      the order the slots were first seen. */
  lemma SolveHides(g: Grid, next: nat, seqs: seq<seq<Pos>>)
    requires g.rows > 0 && OnBoard(g, Flatten(seqs)) && OccupiedSlots(g, Flatten(seqs))
    ensures var res := Solve(g, next, seqs);
      && NoDup(res.solved)
      && (forall p :: p in res.solved <==> exists i :: 0 <= i < |seqs| && p in seqs[i])
      && |res.hidden| == |res.solved|
      && (forall k :: 0 <= k < |res.solved| ==> g.At(res.solved[k]).Occupied? && res.hidden[k] == g.At(res.solved[k]).item)
  {
    ClearAllFacts(g, Flatten(seqs));
    FlattenMembers(seqs);
  }

  /** Whatever the phases hold, a job list laid out as `GetSolveJobs` lays it
      out has exactly one Hide job, between the falling and roll-down phases,
      when no phase holds a Hide job itself. */
  lemma JobsLayout(res: Solved)
    requires MoveJobs(res.moveJobs, 0, 0) && MoveJobs(res.rollJobs, 1, 0) && DropJobs(res.fillJobs, 0, 1)
    ensures var jobs := res.Jobs();
      && |jobs| == |res.moveJobs| + 1 + |res.rollJobs| + |res.fillJobs|
      && jobs[|res.moveJobs|] == Hide(res.hidden)
      && (forall k :: 0 <= k < |jobs| ==> (jobs[k].Hide? <==> k == |res.moveJobs|))
  {
    var jobs := res.Jobs();
    var m, r := |res.moveJobs|, |res.rollJobs|;
    forall k | 0 <= k < |jobs| ensures jobs[k].Hide? <==> k == m {
      if k < m {
        assert jobs[k] == res.moveJobs[k] && jobs[k] in res.moveJobs;
      } else if m < k < m + 1 + r {
        assert jobs[k] == res.rollJobs[k - m - 1] && jobs[k] in res.rollJobs;
      } else if k > m {
        assert jobs[k] == res.fillJobs[k - m - 1 - r] && jobs[k] in res.fillJobs;
      }
    }
  }

  /** The job list of `GetSolveJobs`: first the Move jobs of the falling
      phase (delay and order 0), then exactly one Hide job with the hidden
      items, then the Move jobs of the roll-down phase (delay 1, order 0),
      then one Drop job (delay 0, order 1) per column whose top slot is not
      NotAvailable. Every Move job moves something. */
  lemma SolveJobOrder(g: Grid, next: nat, seqs: seq<seq<Pos>>)
    requires g.rows > 0 && OnBoard(g, Flatten(seqs)) && OccupiedSlots(g, Flatten(seqs))
    ensures var res := Solve(g, next, seqs);
      var jobs := res.Jobs();
      && MoveJobs(res.moveJobs, 0, 0)
      && MoveJobs(res.rollJobs, 1, 0)
      && DropJobs(res.fillJobs, 0, 1)
      && |res.fillJobs| == |OpenTops(g, 0)|
      && |jobs| == |res.moveJobs| + 1 + |res.rollJobs| + |res.fillJobs|
      && jobs[|res.moveJobs|] == Hide(res.hidden)
      && (forall k :: 0 <= k < |jobs| ==> (jobs[k].Hide? <==> k == |res.moveJobs|))
  {
    var ps := Flatten(seqs);
    var res := Solve(g, next, seqs);
    var rolled := RollDown(Falls(g, ps).grid, 1, 0);
    FallsFacts(g, ps, next);
    RolledFacts(g, ps, next);
    FillFacts(rolled.grid, next, 0, 1);
    OpenTopsTerrain(g, rolled.grid, 0);
    JobsLayout(res);
  }

  /** The board after `GetSolveJobs`: the terrain is unchanged; every top slot
      that is not NotAvailable is Occupied again; the board lost one item per
      solved slot and gained one per generated item; the item counter
      advanced by the number of generated items; the board invariant is kept. */
  lemma SolveBoard(g: Grid, next: nat, seqs: seq<seq<Pos>>)
    requires g.rows > 0 && OnBoard(g, Flatten(seqs)) && OccupiedSlots(g, Flatten(seqs))
    ensures var res := Solve(g, next, seqs);
      && SameTerrain(g, res.grid)
      && (forall c :: 0 <= c < g.cols && g.At(Pos(0, c)) != NotAvailable ==> res.grid.At(Pos(0, c)).Occupied?)
      && res.next == next + |JobMoves(res.fillJobs)|
      && |OccupiedSet(res.grid)| == |OccupiedSet(g)| - |res.solved| + |JobMoves(res.fillJobs)|
      && (Consistent(g, next) ==> Consistent(res.grid, res.next))
  {
    var ps := Flatten(seqs);
    var res := Solve(g, next, seqs);
    var rolled := RollDown(Falls(g, ps).grid, 1, 0);
    RolledFacts(g, ps, next);
    FillFacts(rolled.grid, next, 0, 1);
    SameTerrainTrans(g, rolled.grid, res.grid);
    forall col | 0 <= col < g.cols && g.At(Pos(0, col)) != NotAvailable
      ensures res.grid.At(Pos(0, col)).Occupied?
    {
      assert g.OnGrid(Pos(0, col));
    }
  }
}
