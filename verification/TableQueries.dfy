// Queries on a built grid: the slots, identities and rectangles
// (crates/xiaomu-core/src/document/table_grid.rs).
module TableQueries {
  import opened Wrappers
  import opened Numbers
  import opened Content
  import opened Nodes
  import opened Tiling
  import opened TableGrid

  // ----- the grid records the only tiling

  lemma {:induction false} FirstRowRefs(store: Store, rows: seq<NodeId>)
    requires rows != [] && Readable(store, rows)
    ensures var refs := RefsOf(store, rows); var k := |RowRefs(store, 0, rows[0])|;
      && k <= |refs| && ShapesOf(store, refs)[..k] == ShapesOf(store, RowRefs(store, 0, rows[0]))
      && (forall i :: 0 <= i < k ==> ShapesOf(store, refs)[i].row == 0)
      && (forall i :: k <= i < |refs| ==> ShapesOf(store, refs)[i].row > 0)
  {
    hide RefsOf, CellSpans, RowCells;
    assert rows[..0] == [];
    NoRefs(store);
    RefsPush(store, rows, 0);
    RefsPrefix(store, rows, 1);
    RefsAfter(store, rows, 1);
  }

  // Whatever rectangle the cells tile, it is the grid's, and in the grid's way.
  lemma {:induction false} GridIsTheOnlyTiling(store: Store, table: NodeId, grid: TableGrid, tiling: seq<nat>,
                                               width: nat)
    requires GridOf(store, table, grid) && Readable(store, grid.rows)
    requires Tiles(ShapesOf(store, RefsOf(store, grid.rows)), tiling, |grid.rows|, width)
    ensures width == grid.columns && tiling == Columns(grid.cells)
  {
    hide RefsOf, Tiles, SlotsHold, Indexed, Readable, ShapeOf, SumColspans;
    var shapes := ShapesOf(store, RefsOf(store, grid.rows));
    ShapesInOrder(store, grid.rows);
    FirstRowRefs(store, grid.rows);
    WidthIsForced(shapes, tiling, |grid.rows|, width, |RowRefs(store, 0, grid.rows[0])|);
    TilingIsUnique(shapes, tiling, Columns(grid.cells), |grid.rows|, width);
  }

  // What the queries rely on, in terms of the grid alone.
  ghost predicate ValidGrid(grid: TableGrid) {
    var shapes := CellShapes(grid.cells);
    && ReadingOrder(shapes) && Tiles(shapes, Columns(grid.cells), |grid.rows|, grid.columns)
    && SlotsHold(grid.slots, shapes, Columns(grid.cells), |grid.rows|, grid.columns)
    && Indexed(grid.cells, grid.byId) && |grid.cells| < FREE
  }

  function CellShapes(cells: seq<CellPlacement>): (r: seq<Shape>)
    ensures |r| == |cells|
    ensures forall k :: 0 <= k < |cells| ==> r[k] == Shape(cells[k].row, cells[k].rowspan, cells[k].colspan)
  {
    seq(|cells|, k requires 0 <= k < |cells| => Shape(cells[k].row, cells[k].rowspan, cells[k].colspan))
  }

  lemma {:induction false} BuiltGridIsValid(store: Store, table: NodeId, grid: TableGrid)
    requires GridOf(store, table, grid) && |grid.cells| < FREE
    ensures ValidGrid(grid)
  {
    hide RefsOf, Tiles, SlotsHold, Indexed, ShapeOf, ReadingOrder;
    var refs := RefsOf(store, grid.rows);
    ShapesInOrder(store, grid.rows);
    ShapeRows(store, refs);
    assert CellShapes(grid.cells) == ShapesOf(store, refs);
  }

  lemma ShapeRows(store: Store, refs: seq<CellRef>)
    ensures forall k :: 0 <= k < |refs| ==> ShapesOf(store, refs)[k].row == refs[k].row
  {
    hide ShapeOf;
  }

  // ----- slots and identities

  // Each place names the one cell covering it.
  lemma {:induction false} SlotNamesOwner(grid: TableGrid, y: nat, x: nat)
    requires ValidGrid(grid) && y < |grid.rows| && x < grid.columns
    ensures Slot(y, x, grid.columns) < |grid.slots|
    ensures var k := grid.slots[Slot(y, x, grid.columns)];
      && k < |grid.cells| && Covers(CellShapes(grid.cells)[k], grid.cells[k].column, y, x)
      && forall j :: 0 <= j < |grid.cells| && Covers(CellShapes(grid.cells)[j], grid.cells[j].column, y, x) ==> j == k
  {
    hide Slot, Covers, Indexed, ReadingOrder;
    var shapes := CellShapes(grid.cells);
    assert Covered(shapes, Columns(grid.cells), y, x);
    assert SlotHolds(grid.slots, shapes, Columns(grid.cells), y, x, grid.columns);
    var k := grid.slots[Slot(y, x, grid.columns)];
    forall j | 0 <= j < |grid.cells| && Covers(shapes[j], grid.cells[j].column, y, x)
      ensures j == k
    {
      assert Columns(grid.cells)[j] == grid.cells[j].column && Columns(grid.cells)[k] == grid.cells[k].column;
    }
  }

  // `slot`: the cell at a place, none outside the table.
  method CellAt(grid: TableGrid, row: nat, column: nat) returns (r: Option<NodeId>)
    requires ValidGrid(grid)
    ensures r.Some? <==> row < |grid.rows| && column < grid.columns
    ensures r.Some? ==> exists k :: 0 <= k < |grid.cells| && grid.cells[k].cell == r.value
                          && Covers(CellShapes(grid.cells)[k], grid.cells[k].column, row, column)
  {
    hide ValidGrid, Covers;
    if row >= |grid.rows| || column >= grid.columns {
      return None;
    }
    SlotNamesOwner(grid, row, column);
    var k := grid.slots[row * grid.columns + column];
    return Some(grid.cells[k].cell);
  }

  // Cells are listed by origin, row by row and from left to right.
  lemma {:induction false} OriginsInOrder(grid: TableGrid, i: nat, j: nat)
    requires ValidGrid(grid) && i < j < |grid.cells|
    ensures grid.cells[i].row < grid.cells[j].row
      || (grid.cells[i].row == grid.cells[j].row && grid.cells[i].column < grid.cells[j].column)
  {
    hide Disjoint, SlotsHold, Indexed, Covered;
    var shapes := CellShapes(grid.cells);
    assert shapes[i].row <= shapes[j].row;
    assert Columns(grid.cells)[i] == grid.cells[i].column && Columns(grid.cells)[j] == grid.cells[j].column;
  }

  // `placement`: binary search by identity.
  method PlacementBy(grid: TableGrid, cell: NodeId) returns (r: Option<CellPlacement>)
    requires Indexed(grid.cells, grid.byId)
    ensures r.Some? <==> exists k :: 0 <= k < |grid.cells| && grid.cells[k].cell == cell
    ensures r.Some? ==> r.value in grid.cells && r.value.cell == cell
  {
    var lo, hi := 0, |grid.byId|;
    while lo < hi
      invariant lo <= hi <= |grid.byId|
      invariant forall i :: 0 <= i < lo ==> grid.byId[i].0 < cell
      invariant forall i :: hi <= i < |grid.byId| ==> grid.byId[i].0 > cell
    {
      var mid := lo + (hi - lo) / 2;
      if grid.byId[mid].0 == cell {
        assert grid.byId[mid] in grid.byId;
        return Some(grid.cells[grid.byId[mid].1]);
      } else if grid.byId[mid].0 < cell {
        lo := mid + 1;
      } else {
        hi := mid;
      }
    }
    NotIndexed(grid, cell);
    return None;
  }

  lemma {:induction false} NotIndexed(grid: TableGrid, cell: NodeId)
    requires Indexed(grid.cells, grid.byId) && forall i :: 0 <= i < |grid.byId| ==> grid.byId[i].0 != cell
    ensures !exists k :: 0 <= k < |grid.cells| && grid.cells[k].cell == cell
  {
    forall k: nat | k < |grid.cells|
      ensures grid.cells[k].cell != cell
    {
      assert (grid.cells[k].cell, k) in grid.byId;
    }
  }

  // ----- rectangles

  datatype TableRect = TableRect(top: nat, left: nat, bottom: nat, right: nat) {
    predicate Holds(y: nat, x: nat) {
      top <= y < bottom && left <= x < right
    }
    predicate Intersects(other: TableRect) {
      top < other.bottom && other.top < bottom && left < other.right && other.left < right
    }
    predicate Contains(other: TableRect) {
      top <= other.top && left <= other.left && bottom >= other.bottom && right >= other.right
    }
  }

  function NewRect(top: nat, left: nat, bottom: nat, right: nat): Result<TableRect> {
    if top >= bottom || left >= right then Err(InvalidSelection) else Ok(TableRect(top, left, bottom, right))
  }

  // A rectangle is one that holds a place.
  lemma RectsHoldPlaces(top: nat, left: nat, bottom: nat, right: nat)
    ensures var r := NewRect(top, left, bottom, right); var rect := TableRect(top, left, bottom, right);
      && (r.Ok? <==> exists y: nat, x: nat :: rect.Holds(y, x))
      && r == if r.Ok? then Ok(rect) else Err(InvalidSelection)
  {
    if top < bottom && left < right {
      assert TableRect(top, left, bottom, right).Holds(top, left);
    }
  }

  function RectOf(cell: CellPlacement): TableRect {
    TableRect(cell.row, cell.column, cell.row + cell.rowspan, cell.column + cell.colspan)
  }

  predicate InBounds(grid: TableGrid, rect: TableRect) {
    rect.bottom <= |grid.rows| && rect.right <= grid.columns
  }

  // The place (y, x) belongs to cell `k`.
  predicate Owns(grid: TableGrid, k: nat, y: nat, x: nat) {
    && y < |grid.rows| && x < grid.columns
    && Slot(y, x, grid.columns) < |grid.slots| && grid.slots[Slot(y, x, grid.columns)] == k
  }

  ghost predicate OwnsIn(grid: TableGrid, k: nat, rect: TableRect) {
    exists y: nat, x: nat :: rect.Holds(y, x) && Owns(grid, k, y, x)
  }

  // A cell owns exactly the places of its rectangle.
  lemma {:induction false} OwnsItsRect(grid: TableGrid, k: nat, y: nat, x: nat)
    requires ValidGrid(grid) && k < |grid.cells|
    ensures Owns(grid, k, y, x) <==> RectOf(grid.cells[k]).Holds(y, x)
    ensures InBounds(grid, RectOf(grid.cells[k]))
  {
    hide Slot, Disjoint, SlotsHold, Covered, Indexed;
    var shapes := CellShapes(grid.cells);
    assert Columns(grid.cells)[k] == grid.cells[k].column;
    assert RectOf(grid.cells[k]).Holds(y, x) <==> Covers(shapes[k], grid.cells[k].column, y, x);
    if y < |grid.rows| && x < grid.columns {
      SlotNamesOwner(grid, y, x);
    }
  }

  // Two rectangles meet exactly when they share a place.
  lemma {:induction false} MeetingOwns(grid: TableGrid, k: nat, rect: TableRect)
    requires ValidGrid(grid) && k < |grid.cells| && rect.top < rect.bottom && rect.left < rect.right
    ensures rect.Intersects(RectOf(grid.cells[k])) <==> OwnsIn(grid, k, rect)
  {
    hide ValidGrid, Owns;
    var cell := RectOf(grid.cells[k]);
    CellsHaveExtent(grid, k);
    if rect.Intersects(cell) {
      var y := if rect.top < cell.top then cell.top else rect.top;
      var x := if rect.left < cell.left then cell.left else rect.left;
      OwnsItsRect(grid, k, y, x);
      assert rect.Holds(y, x) && Owns(grid, k, y, x);
    }
    if OwnsIn(grid, k, rect) {
      var y: nat, x: nat :| rect.Holds(y, x) && Owns(grid, k, y, x);
      OwnsItsRect(grid, k, y, x);
    }
  }

  lemma CellsHaveExtent(grid: TableGrid, k: nat)
    requires ValidGrid(grid) && k < |grid.cells|
    ensures grid.cells[k].rowspan > 0 && grid.cells[k].colspan > 0
  {
    hide Disjoint, SlotsHold, Covered, Indexed;
    assert CellShapes(grid.cells)[k].rowspan > 0;
  }

  // The indexes below `n` of the cells meeting a rectangle, in order.
  function Picks(cells: seq<CellPlacement>, rect: TableRect, n: nat): (r: seq<nat>)
    requires n <= |cells|
    ensures forall k: nat :: k in r <==> k < n && rect.Intersects(RectOf(cells[k]))
    ensures forall i, j :: 0 <= i < j < |r| ==> r[i] < r[j]
  {
    if n == 0 then []
    else
      var front := Picks(cells, rect, n - 1);
      assert forall i :: 0 <= i < |front| ==> front[i] in front;
      if rect.Intersects(RectOf(cells[n - 1])) then front + [n - 1] else front
  }

  // `unique_cells_in`: the cells owning a place of the rectangle, each once, in
  // origin order.
  method UniqueCellsIn(grid: TableGrid, rect: TableRect) returns (r: Result<seq<NodeId>>)
    requires ValidGrid(grid) && rect.top < rect.bottom && rect.left < rect.right
    ensures r.Ok? <==> InBounds(grid, rect)
    ensures r.Err? ==> r.error == InvalidSelection
    ensures r.Ok? ==> var picks := Picks(grid.cells, rect, |grid.cells|);
      && |r.value| == |picks|
      && (forall i :: 0 <= i < |picks| ==> picks[i] in picks && r.value[i] == grid.cells[picks[i]].cell)
      && (forall k: nat :: k in picks <==> k < |grid.cells| && OwnsIn(grid, k, rect))
  {
    hide ValidGrid, OwnsIn;
    if rect.bottom > |grid.rows| || rect.right > grid.columns {
      return Err(InvalidSelection);
    }
    var cells: seq<NodeId> := [];
    for k := 0 to |grid.cells|
      invariant |cells| == |Picks(grid.cells, rect, k)|
      invariant forall i :: 0 <= i < |cells| ==>
        Picks(grid.cells, rect, k)[i] in Picks(grid.cells, rect, k)
          && cells[i] == grid.cells[Picks(grid.cells, rect, k)[i]].cell
    {
      if rect.Intersects(RectOf(grid.cells[k])) {
        cells := cells + [grid.cells[k].cell];
      }
    }
    PicksOwn(grid, rect);
    return Ok(cells);
  }

  lemma PicksOwn(grid: TableGrid, rect: TableRect)
    requires ValidGrid(grid) && rect.top < rect.bottom && rect.left < rect.right
    ensures forall k: nat :: k in Picks(grid.cells, rect, |grid.cells|) <==> k < |grid.cells| && OwnsIn(grid, k, rect)
  {
    hide ValidGrid, OwnsIn, Picks;
    forall k: nat | k < |grid.cells|
      ensures rect.Intersects(RectOf(grid.cells[k])) <==> OwnsIn(grid, k, rect)
    {
      MeetingOwns(grid, k, rect);
    }
  }

  // In bounds, and every cell owning a place of the rectangle owns none outside it.
  ghost predicate IsUnionOfCells(grid: TableGrid, rect: TableRect) {
    && InBounds(grid, rect)
    && forall k: nat, y: nat, x: nat :: k < |grid.cells| && OwnsIn(grid, k, rect) && Owns(grid, k, y, x) ==>
      rect.Holds(y, x)
  }

  // `is_closed_rect`.
  method IsClosedRect(grid: TableGrid, rect: TableRect) returns (closed: bool)
    requires ValidGrid(grid) && rect.top < rect.bottom && rect.left < rect.right
    ensures closed <==> IsUnionOfCells(grid, rect)
  {
    hide ValidGrid, OwnsIn, Owns;
    if rect.bottom > |grid.rows| || rect.right > grid.columns {
      return false;
    }
    for k := 0 to |grid.cells|
      invariant forall j: nat, y: nat, x: nat :: j < k && OwnsIn(grid, j, rect) && Owns(grid, j, y, x) ==>
        rect.Holds(y, x)
    {
      var cell := RectOf(grid.cells[k]);
      WholeCell(grid, k, rect);
      if rect.Intersects(cell) && !rect.Contains(cell) {
        return false;
      }
    }
    return true;
  }

  lemma {:induction false} WholeCell(grid: TableGrid, k: nat, rect: TableRect)
    requires ValidGrid(grid) && k < |grid.cells| && rect.top < rect.bottom && rect.left < rect.right
    ensures (rect.Intersects(RectOf(grid.cells[k])) && !rect.Contains(RectOf(grid.cells[k])))
      <==> exists y: nat, x: nat :: OwnsIn(grid, k, rect) && Owns(grid, k, y, x) && !rect.Holds(y, x)
  {
    hide ValidGrid, OwnsIn, Owns;
    var cell := RectOf(grid.cells[k]);
    MeetingOwns(grid, k, rect);
    CellsHaveExtent(grid, k);
    forall y: nat, x: nat
      ensures Owns(grid, k, y, x) <==> cell.Holds(y, x)
    {
      OwnsItsRect(grid, k, y, x);
    }
    if rect.Intersects(cell) && !rect.Contains(cell) {
      var y := if cell.top < rect.top then cell.top else cell.bottom - 1;
      var x := if cell.left < rect.left then cell.left else cell.right - 1;
      assert Owns(grid, k, y, x) && !rect.Holds(y, x);
    }
  }

  // `rect_between`: the smallest rectangle holding both cells.
  method RectBetween(grid: TableGrid, anchor: NodeId, focus: NodeId) returns (r: Result<TableRect>)
    requires ValidGrid(grid)
    ensures r.Ok? <==> (exists k :: 0 <= k < |grid.cells| && grid.cells[k].cell == anchor)
                       && (exists k :: 0 <= k < |grid.cells| && grid.cells[k].cell == focus)
    ensures r.Ok? ==> exists i, j ::
      && 0 <= i < |grid.cells| && 0 <= j < |grid.cells|
      && grid.cells[i].cell == anchor && grid.cells[j].cell == focus
      && IsHull(r.value, RectOf(grid.cells[i]), RectOf(grid.cells[j]))
  {
    hide Tiles, SlotsHold, ReadingOrder;
    var a := PlacementBy(grid, anchor);
    var f := PlacementBy(grid, focus);
    if a.None? || f.None? {
      return Err(InvalidSelection);
    }
    var i :| 0 <= i < |grid.cells| && grid.cells[i] == a.value;
    var j :| 0 <= j < |grid.cells| && grid.cells[j] == f.value;
    CellsHaveExtent(grid, i);
    var p, q := RectOf(a.value), RectOf(f.value);
    r := NewRect(Min(p.top, q.top), Min(p.left, q.left), Max(p.bottom, q.bottom), Max(p.right, q.right));
    assert IsHull(r.value, RectOf(grid.cells[i]), RectOf(grid.cells[j]));
  }

  // Contains both, and lies in every rectangle that does.
  ghost predicate IsHull(hull: TableRect, a: TableRect, b: TableRect) {
    && hull.Contains(a) && hull.Contains(b)
    && forall other: TableRect :: other.Contains(a) && other.Contains(b) ==> other.Contains(hull)
  }
}
