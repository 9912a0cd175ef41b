/** The mutable board and the item supplier the strategy works on (the parts
    of `IGameBoard`, `GridSlot` and `IItemGenerator` it calls), as heap objects. */
module Board {
  import opened GridModel
  import opened DropPaths

  /** The positions of a `rows` by `cols` board. */
  function Positions(rows: nat, cols: nat): (ps: set<Pos>)
    ensures forall p :: p in ps <==> 0 <= p.row < rows && 0 <= p.col < cols
  {
    set r, c | 0 <= r < rows && 0 <= c < cols :: Pos(r, c)
  }

  /** The game board: one slot state per grid position, updated in place.
      `model` is the board as a value; `Valid` ties it to the array. */
  class GameBoard {
    const slots: array2<Slot>
    ghost var model: Grid

    ghost predicate Valid()
      reads this, slots
    {
      && model.rows == slots.Length0 && model.cols == slots.Length1
      && forall r, c :: 0 <= r < slots.Length0 && 0 <= c < slots.Length1 ==>
           Pos(r, c) in model.cells && model.cells[Pos(r, c)] == slots[r, c]
    }

    constructor (rows: nat, cols: nat)
      ensures Valid() && fresh(slots)
      ensures model == Grid(rows, cols, map p | p in Positions(rows, cols) :: Free)
    {
      slots := new Slot[rows, cols]((r, c) => Free);
      model := Grid(rows, cols, map p | p in Positions(rows, cols) :: Free);
    }

    /** The indexer `board[p]`, which requires an on-grid position. */
    method GetSlot(p: Pos) returns (s: Slot)
      requires Valid() && model.OnGrid(p)
      ensures s == model.At(p)
    {
      s := slots[p.row, p.col];
      assert p == Pos(p.row, p.col);
    }

    /** `GridSlot.SetItem` (with `Occupied`) and `GridSlot.Clear` (with `Free`) on the slot at `p`. */
    method SetSlot(p: Pos, s: Slot)
      requires Valid() && model.OnGrid(p)
      modifies this, slots
      ensures Valid() && model == old(model).Set(p, s)
    {
      slots[p.row, p.col] := s;
      model := model.Set(p, s);
    }

    /** `IGameBoard.CanMoveInDirection(p, d)`: the slot at `p + d` is on the
        grid and Free; the position `p + d` is its out-parameter. */
    method CanMoveInDirection(p: Pos, d: Pos) returns (b: bool, q: Pos)
      requires Valid()
      ensures b == CanMove(model, p, d) && q == model.Beside(p, d)
    {
      q := Pos(p.row + d.row, p.col + d.col);
      b := 0 <= q.row < slots.Length0 && 0 <= q.col < slots.Length1 && slots[q.row, q.col] == Free;
      assert q == Pos(q.row, q.col);
    }

    /** `IGameBoard.GetSideGridSlot(p, d)`: the slot beside `p` in direction
        `d`, or None when that position is off the grid. */
    method GetSideGridSlot(p: Pos, d: Pos) returns (r: Option<Slot>)
      requires Valid()
      ensures r == model.Get(model.Beside(p, d))
    {
      var q := Pos(p.row + d.row, p.col + d.col);
      assert q == Pos(q.row, q.col);
      if 0 <= q.row < slots.Length0 && 0 <= q.col < slots.Length1 {
        r := Some(slots[q.row, q.col]);
      } else {
        r := None;
      }
    }
  }

  /** `IItemGenerator`: hands out fresh items and takes items back. Item
      identity is an id from a counter; the pool itself is not modelled. */
  class ItemGenerator {
    var nextId: nat
    var returned: seq<Item>

    constructor (first: nat)
      ensures nextId == first && returned == []
    {
      nextId := first;
      returned := [];
    }

    /** `GetItem`: a fresh item, never handed out before. */
    method GetItem() returns (x: Item)
      modifies this
      ensures x == old(nextId) && nextId == old(nextId) + 1 && returned == old(returned)
    {
      x := nextId;
      nextId := nextId + 1;
    }

    /** `ReturnItem`: the item goes back to the pool. */
    method ReturnItem(x: Item)
      modifies this
      ensures returned == old(returned) + [x] && nextId == old(nextId)
    {
      returned := returned + [x];
    }
  }
}
