/** The game board as a value: grid positions, slot states and the items slots own.

    Rows grow downwards and columns grow rightwards. A slot is Free, Occupied
    (and then owns exactly one item), or NotAvailable (terrain that never takes
    an item). The board is a map from on-grid positions to slots; positions the
    map lacks read as NotAvailable, which never happens for a board built from
    an array (see `Board.GameBoard.Valid`). */
module GridModel {

  datatype Option<T> = None | Some(value: T)

  /** Items are identified by an id; their visuals and world position are not modelled. */
  type Item = nat

  datatype Pos = Pos(row: int, col: int)

  /** The unit offsets of `GridPosition.Down`, `GridPosition.Left` and `GridPosition.Right`. */
  const Down: Pos := Pos(1, 0)
  const Left: Pos := Pos(0, -1)
  const Right: Pos := Pos(0, 1)

  datatype Slot = Free | Occupied(item: Item) | NotAvailable

  datatype Grid = Grid(rows: nat, cols: nat, cells: map<Pos, Slot>) {

    predicate OnGrid(p: Pos) { 0 <= p.row < rows && 0 <= p.col < cols }

    /** The position next to `p` in direction `d` (`p + d`). */
    function Beside(p: Pos, d: Pos): Pos { Pos(p.row + d.row, p.col + d.col) }

    /** Every on-grid position has a slot. */
    ghost predicate Complete() { forall p :: OnGrid(p) ==> p in cells }

    /** The slot at `p` (the board's indexer). */
    function At(p: Pos): Slot { if p in cells then cells[p] else NotAvailable }

    /** The slot at `p`, or None when `p` is off the grid (`GetSideGridSlot`). */
    function Get(p: Pos): (r: Option<Slot>)
      ensures r.Some? <==> OnGrid(p)
      ensures r.Some? ==> r.value == At(p)
    {
      if OnGrid(p) then Some(At(p)) else None
    }

    /** The board after slot `p` takes state `s` (`SetItem` and `Clear`). */
    function Set(p: Pos, s: Slot): (g: Grid)
      ensures g.rows == rows && g.cols == cols
      ensures g.At(p) == s
      ensures forall q :: q != p ==> g.At(q) == At(q)
    {
      Grid(rows, cols, cells[p := s])
    }
  }

  function Last<T>(s: seq<T>): T
    requires |s| > 0
  {
    s[|s| - 1]
  }

  function Reverse<T>(s: seq<T>): (r: seq<T>)
    ensures |r| == |s|
    ensures forall i :: 0 <= i < |s| ==> r[i] == s[|s| - 1 - i]
  {
    if s == [] then [] else Reverse(s[1..]) + [s[0]]
  }

  /** A reversed sequence has the elements of the original. */
  lemma ReverseMembers<T>(s: seq<T>)
    ensures forall x :: x in Reverse(s) <==> x in s
  {
    var r := Reverse(s);
    forall x | x in r ensures x in s {
      var i :| 0 <= i < |r| && r[i] == x;
      assert s[|s| - 1 - i] == x;
    }
    forall x | x in s ensures x in r {
      var i :| 0 <= i < |s| && s[i] == x;
      assert r[|s| - 1 - i] == x;
    }
  }

  /** Moving one element across an append. */
  lemma AppendOne<T>(a: seq<T>, x: T, b: seq<T>)
    ensures a + ([x] + b) == (a + [x]) + b
  {
  }

  /** A prefix one element longer, after a fixed head. */
  lemma PrefixSnoc<T>(a: seq<T>, s: seq<T>, j: int)
    requires 0 <= j < |s|
    ensures a + s[..j + 1] == (a + s[..j]) + [s[j]]
  {
    assert s[..j + 1] == s[..j] + [s[j]];
  }

  /** Appending twice is appending the concatenation. */
  lemma AppendTwice<T>(a: seq<T>, b: seq<T>, c: seq<T>)
    ensures (a + b) + c == a + (b + c)
  {
  }

  ghost predicate NoDup<T>(s: seq<T>) {
    forall i, j :: 0 <= i < j < |s| ==> s[i] != s[j]
  }

  /** The on-grid positions whose slot is Occupied. */
  function OccupiedSet(g: Grid): set<Pos> {
    set p | p in g.cells && g.OnGrid(p) && g.cells[p].Occupied?
  }

  /** The on-grid positions whose slot is Free. */
  function FreeSet(g: Grid): set<Pos> {
    set p | p in g.cells && g.OnGrid(p) && g.cells[p] == Free
  }

  /** The items on the board. */
  function ItemSet(g: Grid): set<Item> {
    set p | p in g.cells && g.OnGrid(p) && g.cells[p].Occupied? :: g.cells[p].item
  }

  /** No item is owned by two slots. */
  ghost predicate UniqueItems(g: Grid) {
    forall p, q :: g.OnGrid(p) && g.OnGrid(q) && p != q && g.At(p).Occupied? && g.At(q).Occupied?
      ==> g.At(p).item != g.At(q).item
  }

  /** Every item on the board has an id below `next`, so ids from `next` on are fresh. */
  ghost predicate ItemsBelow(g: Grid, next: nat) {
    forall p :: g.OnGrid(p) && g.At(p).Occupied? ==> g.At(p).item < next
  }

  /** The board invariant the fill and solve passes keep. */
  ghost predicate Consistent(g: Grid, next: nat) {
    g.Complete() && UniqueItems(g) && ItemsBelow(g, next)
  }

  /** `h` has the same shape and the same NotAvailable terrain as `g`. */
  ghost predicate SameTerrain(g: Grid, h: Grid) {
    g.rows == h.rows && g.cols == h.cols &&
    forall p :: g.OnGrid(p) ==> (g.At(p) == NotAvailable <==> h.At(p) == NotAvailable)
  }

  /** Every Occupied slot of `g` is still Occupied by the same item in `h`. */
  ghost predicate KeepsItems(g: Grid, h: Grid) {
    forall p :: g.OnGrid(p) && g.At(p).Occupied? ==> h.At(p) == g.At(p)
  }

  lemma KeepsItemsTrans(a: Grid, b: Grid, c: Grid)
    requires a.rows == b.rows && a.cols == b.cols
    requires KeepsItems(a, b) && KeepsItems(b, c)
    ensures KeepsItems(a, c)
  {
  }

  lemma SameTerrainTrans(a: Grid, b: Grid, c: Grid)
    requires SameTerrain(a, b) && SameTerrain(b, c)
    ensures SameTerrain(a, c)
  {
  }

  /** Storing a slot that is not terrain over one that is not terrain keeps the terrain. */
  lemma SetKeepsTerrain(g: Grid, p: Pos, s: Slot)
    requires g.At(p) != NotAvailable && s != NotAvailable
    ensures SameTerrain(g, g.Set(p, s))
  {
  }

  /** Clearing an Occupied slot and giving its item to a Free slot: one item
      moves, and the board keeps its shape, terrain, item count, items and
      invariant. */
  lemma MoveItemPreserves(g: Grid, o: Pos, d: Pos)
    requires g.OnGrid(o) && g.OnGrid(d) && g.At(o).Occupied? && g.At(d) == Free
    ensures var h := g.Set(o, Free).Set(d, g.At(o));
      && SameTerrain(g, h)
      && OccupiedSet(h) == OccupiedSet(g) - {o} + {d}
      && |OccupiedSet(h)| == |OccupiedSet(g)|
      && ItemSet(h) == ItemSet(g)
      && (g.Complete() ==> h.Complete())
      && (UniqueItems(g) ==> UniqueItems(h))
      && (forall n: nat :: ItemsBelow(g, n) ==> ItemsBelow(h, n))
  {
    MoveItemSlots(g, o, d);
    MoveItemItems(g, o, d);
  }

  /** The slot part of `MoveItemPreserves`. */
  lemma MoveItemSlots(g: Grid, o: Pos, d: Pos)
    requires g.OnGrid(o) && g.OnGrid(d) && g.At(o).Occupied? && g.At(d) == Free
    ensures var h := g.Set(o, Free).Set(d, g.At(o));
      && SameTerrain(g, h)
      && OccupiedSet(h) == OccupiedSet(g) - {o} + {d}
      && |OccupiedSet(h)| == |OccupiedSet(g)|
      && (g.Complete() ==> h.Complete())
  {
    var h := g.Set(o, Free).Set(d, g.At(o));
    assert o != d;
    assert o in g.cells && d in g.cells;
    assert OccupiedSet(h) == OccupiedSet(g) - {o} + {d};
    assert o in OccupiedSet(g) && d !in OccupiedSet(g);
    assert |OccupiedSet(g) - {o}| == |OccupiedSet(g)| - 1;
  }

  /** The item part of `MoveItemPreserves`. */
  lemma MoveItemItems(g: Grid, o: Pos, d: Pos)
    requires g.OnGrid(o) && g.OnGrid(d) && g.At(o).Occupied? && g.At(d) == Free
    ensures var h := g.Set(o, Free).Set(d, g.At(o));
      && ItemSet(h) == ItemSet(g)
      && (UniqueItems(g) ==> UniqueItems(h))
      && (forall n: nat :: ItemsBelow(g, n) ==> ItemsBelow(h, n))
  {
    var h := g.Set(o, Free).Set(d, g.At(o));
    assert o != d;
    assert o in g.cells && d in g.cells;
    forall x | x in ItemSet(h) ensures x in ItemSet(g) {
      var p :| p in h.cells && h.OnGrid(p) && h.cells[p].Occupied? && h.cells[p].item == x;
      if p == d { assert g.cells[o].item == x; } else { assert g.cells[p] == h.cells[p]; }
    }
    forall x | x in ItemSet(g) ensures x in ItemSet(h) {
      var p :| p in g.cells && g.OnGrid(p) && g.cells[p].Occupied? && g.cells[p].item == x;
      if p == o { assert h.cells[d].item == x; } else { assert g.cells[p] == h.cells[p]; }
    }
  }

  /** Putting item `x` into a Free slot: one more Occupied slot, one less Free
      slot, nothing else changes, and a fresh id keeps the board invariant. */
  lemma PlaceItemPreserves(g: Grid, d: Pos, x: Item, next: nat)
    requires g.OnGrid(d) && g.At(d) == Free
    ensures var h := g.Set(d, Occupied(x));
      && SameTerrain(g, h)
      && KeepsItems(g, h)
      && FreeSet(h) == FreeSet(g) - {d}
      && |FreeSet(h)| < |FreeSet(g)|
      && OccupiedSet(h) == OccupiedSet(g) + {d}
      && |OccupiedSet(h)| == |OccupiedSet(g)| + 1
      && (g.Complete() ==> h.Complete())
      && (Consistent(g, next) && next <= x ==> Consistent(h, x + 1))
  {
    OccupyShrinksFree(g, d, Occupied(x));
    PlaceItemOccupied(g, d, x);
    if Consistent(g, next) && next <= x {
      PlaceItemConsistent(g, d, x, next);
    }
  }

  /** Putting a fresh item into a Free slot keeps the board invariant. */
  lemma PlaceItemConsistent(g: Grid, d: Pos, x: Item, next: nat)
    requires g.OnGrid(d) && g.At(d) == Free
    requires Consistent(g, next) && next <= x
    ensures Consistent(g.Set(d, Occupied(x)), x + 1)
  {
    var h := g.Set(d, Occupied(x));
    forall p | h.OnGrid(p) ensures p in h.cells {
      assert p in g.cells;
    }
    forall p | h.OnGrid(p) && h.At(p).Occupied? ensures h.At(p).item < x + 1 {
      if p != d {
        assert h.At(p) == g.At(p);
      }
    }
    forall p, q | h.OnGrid(p) && h.OnGrid(q) && p != q && h.At(p).Occupied? && h.At(q).Occupied?
      ensures h.At(p).item != h.At(q).item
    {
      if p != d && q != d {
        assert h.At(p) == g.At(p) && h.At(q) == g.At(q);
      }
    }
  }

  /** The Occupied slots after `PlaceItemPreserves`. */
  lemma PlaceItemOccupied(g: Grid, d: Pos, x: Item)
    requires g.OnGrid(d) && g.At(d) == Free
    ensures var h := g.Set(d, Occupied(x));
      && OccupiedSet(h) == OccupiedSet(g) + {d}
      && |OccupiedSet(h)| == |OccupiedSet(g)| + 1
  {
    var h := g.Set(d, Occupied(x));
    assert d in g.cells;
    assert OccupiedSet(h) == OccupiedSet(g) + {d};
    assert d !in OccupiedSet(g);
  }

  /** Clearing an Occupied slot: one item leaves the board. */
  lemma ClearItemPreserves(g: Grid, p: Pos)
    requires g.OnGrid(p) && g.At(p).Occupied?
    ensures var h := g.Set(p, Free);
      && SameTerrain(g, h)
      && OccupiedSet(h) == OccupiedSet(g) - {p}
      && |OccupiedSet(h)| == |OccupiedSet(g)| - 1
      && (UniqueItems(g) ==> UniqueItems(h) && ItemSet(h) == ItemSet(g) - {g.At(p).item})
      && (forall n: nat :: Consistent(g, n) ==> Consistent(h, n))
  {
    var h := g.Set(p, Free);
    assert p in g.cells;
    assert OccupiedSet(h) == OccupiedSet(g) - {p};
    assert p in OccupiedSet(g);
    if UniqueItems(g) {
      var x := g.At(p).item;
      forall y | y in ItemSet(g) - {x} ensures y in ItemSet(h) {
        var q :| q in g.cells && g.OnGrid(q) && g.cells[q].Occupied? && g.cells[q].item == y;
        assert q != p;
        assert h.cells[q] == g.cells[q];
      }
      forall y | y in ItemSet(h) ensures y in ItemSet(g) - {x} {
        var q :| q in h.cells && h.OnGrid(q) && h.cells[q].Occupied? && h.cells[q].item == y;
        assert q != p;
        assert h.cells[q] == g.cells[q] && g.At(q) == g.cells[q];
        assert y != x;
      }
    }
  }

  /** A Free slot taking an item wherever it is, for boards whose Free count bounds a loop. */
  lemma OccupyShrinksFree(g: Grid, d: Pos, s: Slot)
    requires g.OnGrid(d) && g.At(d) == Free && s != Free
    ensures FreeSet(g.Set(d, s)) == FreeSet(g) - {d}
    ensures |FreeSet(g.Set(d, s))| < |FreeSet(g)|
  {
    assert d in g.cells;
    assert FreeSet(g.Set(d, s)) == FreeSet(g) - {d};
    assert d in FreeSet(g);
  }
}
